/** The signed big integers of core/src/bigint.cpp: a magnitude in bytes and a sign flag. */
module BigInt {
  import opened ByteType
  import opened ModArith
  import opened Magnitude
  import opened PowerOfTwo
  import opened Shifts

  datatype Big = Big(bytes: Bytes, positive: bool)

  /** What a big integer stands for. Zero has two signs here, as it has in the code. */
  datatype Signed = Signed(magnitude: nat, positive: bool)

  ghost function Meaning(b: Big): Signed {
    ValueRange(b.bytes);
    Signed(Value(b.bytes), b.positive)
  }

  ghost function ToInt(s: Signed): int {
    if s.positive then s.magnitude else -(s.magnitude as int)
  }

  // ----- Comparison -----

  /** Signs first, then magnitudes, the other way round below zero. */
  ghost function CompareSigned(a: Signed, b: Signed): Order {
    if a.positive != b.positive then (if a.positive then Greater else Less)
    else if a.positive then Compare(a.magnitude, b.magnitude)
    else Compare(b.magnitude, a.magnitude)
  }

  /** The order is that of the integers except between the two zeros. */
  lemma CompareExactly(a: Signed, b: Signed)
    ensures CompareSigned(a, b) == Compare(ToInt(a), ToInt(b))
      <==> !(a.magnitude == 0 && b.magnitude == 0 && a.positive != b.positive)
  {
  }

  method Cmp(lhs: Big, rhs: Big) returns (order: Order)
    ensures order == CompareSigned(Meaning(lhs), Meaning(rhs))
  {
    if lhs.positive != rhs.positive {
      return if lhs.positive then Greater else Less;
    }
    order := AbsCmp(lhs.bytes, rhs.bytes);
    if !lhs.positive {
      order := match order case Less => Greater case Equal => Equal case Greater => Less;
    }
  }

  // ----- Addition and subtraction -----

  /** The operand taken as the larger one: the greater as a signed number. */
  ghost function Augend(a: Signed, b: Signed): Signed {
    if CompareSigned(a, b) == Less then b else a
  }

  /** The other one. */
  ghost function Addend(a: Signed, b: Signed): Signed {
    if CompareSigned(a, b) == Less then a else b
  }

  /** One past the largest sum the adder has room for: its bits and a carry, in whole bytes. */
  ghost function Room(augend: nat): (r: int)
    ensures r > 0
  {
    ScaleTimes(1, BitLength(augend) / 8 + 1);
    Scale(1, BitLength(augend) / 8 + 1)
  }

  ghost function AdderMagnitude(a: Signed, b: Signed): nat {
    (a.magnitude + b.magnitude) % Room(Augend(a, b).magnitude)
  }

  lemma RoomForSum(x: nat, y: nat)
    requires y <= x
    ensures x + y < Room(x)
  {
    var n := BitLength(x);
    BitLengthRange(x);
    assert Pow2(n + 1) == 2 * Pow2(n);
    ScaleIsPow2(n / 8 + 1);
    Pow2Grows(n + 1, 8 * (n / 8 + 1));
  }

  /** The adder is exact exactly when the sum fits beside the operand it took as the larger. */
  lemma AdderExactly(a: Signed, b: Signed)
    ensures AdderMagnitude(a, b) == a.magnitude + b.magnitude
      <==> a.magnitude + b.magnitude < Room(Augend(a, b).magnitude)
    ensures AdderMagnitude(a, b) <= a.magnitude + b.magnitude
    ensures a.positive && b.positive ==> AdderMagnitude(a, b) == a.magnitude + b.magnitude
  {
    var n, s := Room(Augend(a, b).magnitude), a.magnitude + b.magnitude;
    if s < n {
      ModUnique(s, 0, s, n);
    }
    ModAtMost(s, n);
    if a.positive && b.positive {
      RoomForSum(Augend(a, b).magnitude, if CompareSigned(a, b) == Less then a.magnitude else b.magnitude);
    }
  }

  lemma ModAtMost(x: nat, n: int)
    requires n > 0
    ensures 0 <= x % n <= x && x % n < n
  {
    if x < n {
      ModUnique(x, 0, x, n);
    }
  }

  method RippleAdder(lhs: Big, rhs: Big) returns (result: Bytes)
    ensures Value(result) == AdderMagnitude(Meaning(lhs), Meaning(rhs))
  {
    var augend, addend := lhs, rhs;
    var order := Cmp(lhs, rhs);
    if order == Less {
      augend, addend := rhs, lhs;
    }
    var bits := Bits(augend.bytes);
    result := AddBytes(augend.bytes, addend.bytes, (bits + 1 - 1) / 8 + 1);
  }

  /** Subtracting the smaller magnitude from the larger. */
  lemma DifferenceFits(x: nat, y: nat, size: nat)
    requires y <= x < Scale(1, size)
    ensures (x - y) % Scale(1, size) == x - y
  {
    ModUnique(x - y, 0, x - y, Scale(1, size));
  }

  method Subtracted(lhs: Big, rhs: Big) returns (result: Bytes)
    requires Meaning(rhs).magnitude <= Meaning(lhs).magnitude
    ensures Value(result) == Meaning(lhs).magnitude - Meaning(rhs).magnitude
  {
    result := RippleSubtractor(lhs.bytes, rhs.bytes);
    ValueRange(lhs.bytes);
    ValueRange(rhs.bytes);
    DifferenceFits(Value(lhs.bytes), Value(rhs.bytes), |lhs.bytes|);
  }

  ghost function AddSpec(a: Signed, b: Signed): Signed {
    if a.positive == b.positive then Signed(AdderMagnitude(a, b), a.positive)
    else if a.magnitude > b.magnitude then Signed(a.magnitude - b.magnitude, a.positive)
    else if a.magnitude < b.magnitude then Signed(b.magnitude - a.magnitude, b.positive)
    else Signed(0, true)
  }

  ghost function SubtractSpec(a: Signed, b: Signed): Signed {
    if a.positive != b.positive then Signed(AdderMagnitude(b, a), a.positive)
    else if a.magnitude >= b.magnitude && (a.positive || a.magnitude > b.magnitude) then
      Signed(a.magnitude - b.magnitude, a.positive)
    else Signed(b.magnitude - a.magnitude, !a.positive)
  }

  ghost function Min(x: nat, y: nat): nat { if x <= y then x else y }

  ghost function Max(x: nat, y: nat): nat { if x <= y then y else x }

  /** Sums are exact unless both operands are negative and the sum outgrows the bytes of the one
      closer to zero, which the adder then takes as the larger. */
  lemma AddExactly(a: Signed, b: Signed)
    ensures ToInt(AddSpec(a, b)) == ToInt(a) + ToInt(b)
      <==> a.positive || b.positive || a.magnitude + b.magnitude < Room(Min(a.magnitude, b.magnitude))
  {
    AdderExactly(a, b);
  }

  /** Differences are exact unless the signs differ and the sum of the magnitudes outgrows the
      bytes of the positive operand. */
  lemma SubtractExactly(a: Signed, b: Signed)
    ensures ToInt(SubtractSpec(a, b)) == ToInt(a) - ToInt(b)
      <==> (a.positive == b.positive || a.magnitude + b.magnitude < Room(if a.positive then a.magnitude else b.magnitude))
  {
    AdderExactly(b, a);
  }

  /** -256 + -1 comes out as -1. */
  lemma NegativeSumWraps()
    ensures AddSpec(Signed(256, false), Signed(1, false)) == Signed(1, false)
  {
    assert BitLength(1) == 1;
    assert Room(1) == Scale(1, 1) == 256 * Scale(1, 0);
  }

  /** 1 - -256 comes out as 1. */
  lemma DifferenceWraps()
    ensures SubtractSpec(Signed(1, true), Signed(256, false)) == Signed(1, true)
  {
    assert BitLength(1) == 1;
    assert Room(1) == Scale(1, 1) == 256 * Scale(1, 0);
  }

  /** A sum or difference is the negative zero only when it should be negative, and wraps to nothing. */
  lemma NegativeZeroExactly(a: Signed, b: Signed)
    requires a != Signed(0, false) && b != Signed(0, false)
    ensures AddSpec(a, b) == Signed(0, false)
      <==> !a.positive && !b.positive && (a.magnitude + b.magnitude) % Room(Min(a.magnitude, b.magnitude)) == 0
    ensures SubtractSpec(a, b) == Signed(0, false)
      <==> !a.positive && b.positive && (a.magnitude + b.magnitude) % Room(b.magnitude) == 0
  {
    hide Room;
  }

  /** -255 + -1 comes out as the negative zero. */
  lemma SumToNegativeZero()
    ensures AddSpec(Signed(255, false), Signed(1, false)) == Signed(0, false)
  {
    assert BitLength(1) == 1;
    assert Room(1) == Scale(1, 1) == 256 * Scale(1, 0);
  }

  method Add(lhs: Big, rhs: Big) returns (result: Big)
    ensures Meaning(result) == AddSpec(Meaning(lhs), Meaning(rhs))
  {
    result := Big([0], true);
    if lhs.positive == rhs.positive {
      var sum := RippleAdder(lhs, rhs);
      result := Big(sum, lhs.positive);
    } else {
      var cmp := AbsCmp(lhs.bytes, rhs.bytes);
      if cmp == Greater {
        var difference := Subtracted(lhs, rhs);
        result := Big(difference, lhs.positive);
      } else if cmp == Less {
        var difference := Subtracted(rhs, lhs);
        result := Big(difference, rhs.positive);
      } else {
        SingleByte(0);
      }
    }
  }

  lemma SingleByte(b: byte)
    ensures Value([b]) == b
  {
    ValueAppend([], b);
    assert [] + [b] == [b];
  }

  method Subtract(lhs: Big, rhs: Big) returns (result: Big)
    ensures Meaning(result) == SubtractSpec(Meaning(lhs), Meaning(rhs))
  {
    if lhs.positive && rhs.positive {
      var order := Cmp(lhs, rhs);
      if order != Less {
        var difference := Subtracted(lhs, rhs);
        return Big(difference, true);
      } else {
        var difference := Subtracted(rhs, lhs);
        return Big(difference, false);
      }
    } else if !lhs.positive && !rhs.positive {
      var cmp := AbsCmp(lhs.bytes, rhs.bytes);
      if cmp == Greater {
        var difference := Subtracted(lhs, rhs);
        return Big(difference, false);
      } else {
        var difference := Subtracted(rhs, lhs);
        return Big(difference, true);
      }
    } else {
      var sum := RippleAdder(rhs, lhs);
      return Big(sum, lhs.positive);
    }
  }

  // ----- Shifts -----

  /** Grows as needed, so nothing is shifted out. */
  method ShiftLeft(value: Big, pos: nat) returns (result: Big)
    ensures result.positive == value.positive
    ensures Value(result.bytes) == Value(value.bytes) * Pow2(pos)
    ensures |result.bytes| >= |value.bytes|
  {
    var bits := Bits(value.bytes);
    var required := BytesFor(bits + pos);
    var bytes := value.bytes;
    if required > |bytes| {
      Widens(bits, pos);
      bytes := Resize(bytes, required);
    }
    var a := new byte[|bytes|](i requires 0 <= i < |bytes| => bytes[i]);
    assert a[..] == bytes;
    ShiftFits(Value(bytes), pos, |bytes|);
    ShiftLeftInPlace(a, pos);
    result := Big(a[..], value.positive);
  }

  lemma Widens(bits: nat, pos: nat)
    requires bits >= 1
    ensures BytesFor(bits) <= BytesFor(bits + pos)
  {
  }

  lemma ShiftFits(v: nat, pos: nat, size: nat)
    requires BytesFor(BitLength(v) + pos) <= size
    ensures pos <= 8 * size
    ensures Scale(1, size) > 0 && v * Pow2(pos) % Scale(1, size) == v * Pow2(pos)
  {
    BitLengthRange(v);
    ScaleIsPow2(size);
    MulMono(v + 1, Pow2(BitLength(v)), Pow2(pos));
    MulMono(0, v, Pow2(pos));
    assert (v + 1) * Pow2(pos) == v * Pow2(pos) + Pow2(pos);
    Pow2Add(BitLength(v), pos);
    Pow2Grows(BitLength(v) + pos, 8 * size);
    ModUnique(v * Pow2(pos), 0, v * Pow2(pos), Scale(1, size));
  }

  method ShiftRight(value: Big, pos: nat) returns (result: Big)
    requires pos <= 8 * |value.bytes|
    ensures result.positive == value.positive && |result.bytes| == |value.bytes|
    ensures Value(result.bytes) == Value(value.bytes) / Pow2(pos)
  {
    var a := new byte[|value.bytes|](i requires 0 <= i < |value.bytes| => value.bytes[i]);
    assert a[..] == value.bytes;
    ShiftRightInPlace(a, pos);
    result := Big(a[..], value.positive);
  }

  // ----- Multiplication -----

  /** The bits of m from the lowest: each one adds the partial product, which doubles every time. */
  ghost function MultiplyLoop(result: Signed, partial: Signed, m: nat): Signed
    decreases m
  {
    if m == 0 then result
    else MultiplyLoop(if m % 2 == 1 then AddSpec(result, partial) else result,
                      Signed(2 * partial.magnitude, partial.positive), m / 2)
  }

  ghost function MultiplySpec(a: Signed, b: Signed): Signed {
    var r := MultiplyLoop(Signed(0, true), Augend(a, b), Addend(a, b).magnitude);
    Signed(r.magnitude, a.positive == b.positive)
  }

  /** Every addition of the loop fits: what has been added so far leaves room for the next
      partial product. Only asked below zero, where the accumulated part is the smaller. */
  ghost predicate AdditionsFit(result: nat, partial: nat, m: nat)
    decreases m
  {
    m == 0
    || (if m % 2 == 1 then
          (result == 0 || result + partial < Room(Min(result, partial)))
          && AdditionsFit(result + partial, 2 * partial, m / 2)
        else AdditionsFit(result, 2 * partial, m / 2))
  }

  lemma {:induction false} MultiplyLoopPositive(r: nat, p: nat, m: nat)
    ensures MultiplyLoop(Signed(r, true), Signed(p, true), m) == Signed(r + p * m, true)
    decreases m
  {
    if m != 0 {
      AdderExactly(Signed(r, true), Signed(p, true));
      MultiplyLoopPositive(if m % 2 == 1 then r + p else r, 2 * p, m / 2);
      Halved(p, m);
    }
  }

  lemma Halved(p: nat, m: nat)
    ensures p * m == (2 * p) * (m / 2) + (if m % 2 == 1 then p else 0)
  {
    assert m == 2 * (m / 2) + m % 2;
    assert p * (2 * (m / 2)) == (2 * p) * (m / 2);
    assert p * m == p * (2 * (m / 2)) + p * (m % 2);
  }

  /** Below zero the loop never overshoots, and is exact exactly when every addition fits. */
  lemma {:induction false} MultiplyLoopNegative(r: Signed, p: nat, m: nat)
    requires p > 0 && (r.positive ==> r.magnitude == 0)
    ensures
      var final := MultiplyLoop(r, Signed(p, false), m);
      && final.magnitude <= r.magnitude + p * m
      && (r.magnitude > 0 || r.positive ==>
          (final.magnitude == r.magnitude + p * m <==> AdditionsFit(r.magnitude, p, m)))
    decreases m
  {
    if m != 0 {
      var q := Signed(p, false);
      Halved(p, m);
      if m % 2 == 1 {
        var next := AddSpec(r, q);
        AdderExactly(r, q);
        MultiplyLoopNegative(next, 2 * p, m / 2);
        assert r.positive ==> next == q;
      } else {
        MultiplyLoopNegative(r, 2 * p, m / 2);
      }
    }
  }

  /** The product with the j low bits of m. */
  ghost function LowProduct(p: nat, m: nat, j: nat): nat {
    MulMono(0, m % Pow2(j), p);
    p * (m % Pow2(j))
  }

  /** The partial product of bit j. */
  ghost function PartialProduct(p: nat, j: nat): nat {
    MulMono(0, Pow2(j), p);
    p * Pow2(j)
  }

  /** The bits of m from j on. */
  ghost function HighBits(m: nat, j: nat): nat {
    MulMono(1, Pow2(j), m + 1);
    DivBelow(m, m + 1, Pow2(j));
    m / Pow2(j)
  }

  /** If bit j of m is set, and not the lowest one that is, the product with the bits up to it fits the room
      of the product with those below it. */
  ghost predicate BitFits(p: nat, m: nat, j: nat) {
    HighBits(m, j) % 2 == 1 && m % Pow2(j) != 0 ==> LowProduct(p, m, j + 1) < Room(LowProduct(p, m, j))
  }

  ghost predicate BitsFit(p: nat, m: nat, i: nat) {
    forall j :: i <= j ==> BitFits(p, m, j)
  }

  lemma BitsAbove(p: nat, m: nat, i: nat)
    requires HighBits(m, i) == 0
    ensures BitsFit(p, m, i)
  {
    assert m == m / Pow2(i) * Pow2(i) + m % Pow2(i);
    forall j | i <= j
      ensures BitFits(p, m, j)
    {
      Pow2Grows(i, j);
      ModUnique(m, 0, m, Pow2(j));
    }
  }

  /** One more low bit. */
  lemma NextLow(p: nat, m: nat, i: nat)
    ensures HighBits(m, i + 1) == HighBits(m, i) / 2
    ensures LowProduct(p, m, i + 1) == LowProduct(p, m, i) + (if HighBits(m, i) % 2 == 1 then PartialProduct(p, i) else 0)
    ensures PartialProduct(p, i + 1) == 2 * PartialProduct(p, i)
    ensures LowProduct(p, m, i) <= PartialProduct(p, i)
    ensures p > 0 ==> (LowProduct(p, m, i) == 0 <==> m % Pow2(i) == 0)
  {
    var w := Pow2(i);
    assert Pow2(i + 1) == 2 * w;
    hide Pow2;
    var q: nat, r := HighBits(m, i), m % w;
    NextLowBit(p, m, w, q, r);
  }

  lemma NextLowBit(p: nat, m: nat, w: int, q: nat, r: int)
    requires w > 0 && q == m / w && r == m % w
    ensures m / (2 * w) == q / 2
    ensures p * (m % (2 * w)) == p * r + (if q % 2 == 1 then p * w else 0)
    ensures p * (2 * w) == 2 * (p * w) && p * r <= p * w
    ensures p > 0 ==> (p * r == 0 <==> r == 0)
  {
    DivDiv(m, w, 2);
    LowBits(m, q, r, w);
    Spread(p, r, w);
    MulMono(r, w, p);
    if p > 0 && r > 0 {
      MulMono(1, r, p);
    }
  }

  lemma Spread(p: int, r: int, w: int)
    ensures p * (r + w) == p * r + p * w && p * (2 * w) == 2 * (p * w)
  {
  }

  lemma LowBits(m: nat, q: nat, r: nat, w: int)
    requires m == q * w + r && 0 <= r < w
    ensures m % (2 * w) == r + (if q % 2 == 1 then w else 0)
  {
    var h, bit := q / 2, q % 2;
    assert q * w == h * (2 * w) + bit * w by {
      assert (2 * h + bit) * w == h * (2 * w) + bit * w;
    }
    ModUnique(m, h, r + (if bit == 1 then w else 0), 2 * w);
  }

  /** The run of additions fits exactly when every bit does. */
  lemma {:induction false} AdditionsFitExactly(p: nat, m: nat, i: nat)
    requires p > 0
    ensures AdditionsFit(LowProduct(p, m, i), PartialProduct(p, i), HighBits(m, i)) <==> BitsFit(p, m, i)
    decreases HighBits(m, i)
  {
    NextLow(p, m, i);
    if HighBits(m, i) == 0 {
      BitsAbove(p, m, i);
    } else {
      AdditionsFitExactly(p, m, i + 1);
      BitsFitFirst(p, m, i);
      hide LowProduct, PartialProduct, HighBits, BitsFit, Room, Pow2;
    }
  }

  lemma BitsFitFirst(p: nat, m: nat, i: nat)
    ensures BitsFit(p, m, i) <==> BitFits(p, m, i) && BitsFit(p, m, i + 1)
  {
    hide BitFits;
  }

  /** Products are exact unless both operands are negative and, for some bit of the operand farther from
      zero, the product with its bits up to there outgrows the bytes of the product with those below. */
  lemma MultiplyExactly(a: Signed, b: Signed)
    ensures ToInt(MultiplySpec(a, b)) == ToInt(a) * ToInt(b)
      <==> (a.positive || b.positive || BitsFit(Min(a.magnitude, b.magnitude), Max(a.magnitude, b.magnitude), 0))
  {
    hide BitsFit, MultiplyLoop;
    var multiplicant := Augend(a, b);
    var p, m := multiplicant.magnitude, Addend(a, b).magnitude;
    assert p * m == a.magnitude * b.magnitude;
    SignedProduct(a, b);
    if multiplicant.positive {
      MultiplyLoopPositive(0, p, m);
    } else {
      NegativeExactly(p, m);
    }
  }

  lemma NegativeExactly(p: nat, m: nat)
    ensures MultiplyLoop(Signed(0, true), Signed(p, false), m).magnitude == p * m <==> BitsFit(p, m, 0)
  {
    if p > 0 {
      MultiplyLoopNegative(Signed(0, true), p, m);
      AdditionsFitExactly(p, m, 0);
      assert Pow2(0) == 1 && m % 1 == 0 && p * 0 == 0 && p * 1 == p && m / 1 == m;
      hide BitsFit, MultiplyLoop, AdditionsFit;
    } else {
      MultiplyLoopZero(Signed(0, true), m);
      NothingFits(m);
    }
  }

  /** A product is the negative zero exactly when one operand is zero and the other negative. */
  lemma ProductNegativeZeroExactly(a: Signed, b: Signed)
    requires a != Signed(0, false) && b != Signed(0, false)
    ensures MultiplySpec(a, b) == Signed(0, false)
      <==> a.positive != b.positive && (a.magnitude == 0 || b.magnitude == 0)
  {
    var p, m := Augend(a, b).magnitude, Addend(a, b).magnitude;
    if a.positive != b.positive {
      hide MultiplyLoop;
      MultiplyLoopPositive(0, p, m);
      NoFactorNoProduct(p, m);
    }
  }

  lemma NoFactorNoProduct(p: nat, m: nat)
    ensures p * m == 0 <==> p == 0 || m == 0
  {
    if p > 0 && m > 0 {
      MulMono(1, m, p);
    }
  }

  lemma {:induction false} MultiplyLoopZero(r: Signed, m: nat)
    requires r.magnitude == 0
    ensures MultiplyLoop(r, Signed(0, false), m).magnitude == 0
    decreases m
  {
    if m != 0 {
      AdderExactly(r, Signed(0, false));
      MultiplyLoopZero(if m % 2 == 1 then AddSpec(r, Signed(0, false)) else r, m / 2);
    }
  }

  lemma NothingFits(m: nat)
    ensures BitsFit(0, m, 0)
  {
    forall j: nat
      ensures BitFits(0, m, j)
    {
      assert 0 * (m % Pow2(j + 1)) == 0;
    }
  }

  lemma SignedProduct(a: Signed, b: Signed)
    ensures ToInt(a) * ToInt(b) == if a.positive == b.positive then a.magnitude * b.magnitude else -(a.magnitude * b.magnitude)
  {
    var x, y: int := a.magnitude, b.magnitude;
    assert (-x) * y == -(x * y) && x * (-y) == -(x * y) && (-x) * (-y) == x * y;
  }

  /** -1 times -257 comes out as 1. */
  lemma NegativeProductWraps()
    ensures MultiplySpec(Signed(1, false), Signed(257, false)) == Signed(1, true)
  {
    DoublePartial();
    NegativeSumWraps();
    assert BitLength(1) == 1;
    assert Room(1) == Scale(1, 1) == 256 * Scale(1, 0);
    var zero, one := Signed(0, true), Signed(1, false);
    hide Room, BitLength, Scale;
    assert AddSpec(zero, one) == one;
    assert MultiplyLoop(zero, one, 257) == MultiplyLoop(one, Signed(2, false), 128);
    assert MultiplyLoop(one, Signed(256, false), 1) == MultiplyLoop(AddSpec(one, Signed(256, false)), Signed(512, false), 0);
  }

  /** Seven zero bits of the multiplier only double the partial product. */
  lemma DoublePartial()
    ensures MultiplyLoop(Signed(1, false), Signed(2, false), 128) == MultiplyLoop(Signed(1, false), Signed(256, false), 1)
  {
    hide AddSpec;
    var one := Signed(1, false);
    assert MultiplyLoop(one, Signed(2, false), 128) == MultiplyLoop(one, Signed(4, false), 64);
    assert MultiplyLoop(one, Signed(4, false), 64) == MultiplyLoop(one, Signed(8, false), 32);
    assert MultiplyLoop(one, Signed(8, false), 32) == MultiplyLoop(one, Signed(16, false), 16);
    assert MultiplyLoop(one, Signed(16, false), 16) == MultiplyLoop(one, Signed(32, false), 8);
    assert MultiplyLoop(one, Signed(32, false), 8) == MultiplyLoop(one, Signed(64, false), 4);
    assert MultiplyLoop(one, Signed(64, false), 4) == MultiplyLoop(one, Signed(128, false), 2);
    assert MultiplyLoop(one, Signed(128, false), 2) == MultiplyLoop(one, Signed(256, false), 1);
  }

  /** The value of the bits of a multiplier not yet examined: those above bit b of digit k. */
  ghost function Unexamined(s: seq<byte>, k: nat, bit: nat): int
    requires k < |s| && bit <= 8
  {
    Value(s[..|s| - 1 - k]) * Power(8 - bit) + s[|s| - 1 - k] as int / Power(bit)
  }

  lemma UnexaminedStart(s: seq<byte>, k: nat)
    requires k < |s|
    ensures Unexamined(s, k, 0) == Value(s[..|s| - k])
    ensures k == 0 ==> Unexamined(s, k, 0) == Value(s)
    ensures Unexamined(s, k, 8) == Value(s[..|s| - 1 - k])
  {
    var t := s[..|s| - k];
    assert t[..|t| - 1] == s[..|s| - 1 - k];
    assert t == t[..|t| - 1] + [t[|t| - 1]];
    ValueAppend(t[..|t| - 1], t[|t| - 1]);
    if k == 0 {
      assert t == s;
    }
  }

  lemma UnexaminedStep(s: seq<byte>, k: nat, bit: nat)
    requires k < |s| && bit < 8
    ensures Unexamined(s, k, bit) >= 0
    ensures Unexamined(s, k, bit) / 2 == Unexamined(s, k, bit + 1)
    ensures Unexamined(s, k, bit) % 2 == s[|s| - 1 - k] as int / Power(bit) % 2
  {
    var v, d: int := Value(s[..|s| - 1 - k]), s[|s| - 1 - k];
    ValueRange(s[..|s| - 1 - k]);
    assert Pow2(8 - bit) == 2 * Pow2(7 - bit) && Pow2(bit + 1) == 2 * Pow2(bit);
    DivDiv(d, Power(bit), 2);
    assert Power(bit) * 2 == Power(bit + 1);
    assert v * (2 * Power(7 - bit)) == 2 * (v * Power(7 - bit));
    MulMono(0, v, Power(8 - bit));
    DivBelow(d, 256, Power(bit)) by { MulMono(1, Power(bit), 256); }
    HalfOf(v * Power(7 - bit), d / Power(bit));
  }

  lemma HalfOf(x: int, y: int)
    ensures (2 * x + y) / 2 == x + y / 2 && (2 * x + y) % 2 == y % 2
  {
  }

  method LongMultiply(lhs: Big, rhs: Big) returns (result: Big)
    ensures
      var a, b := Meaning(lhs), Meaning(rhs);
      Meaning(result) == MultiplyLoop(Signed(0, true), Augend(a, b), Addend(a, b).magnitude)
  {
    var multiplicant, multiplier := lhs, rhs;
    var order := Cmp(lhs, rhs);
    if order == Less {
      multiplicant, multiplier := rhs, lhs;
    }
    result := Big([0], true);
    SingleByte(0);
    var bits := Bits(multiplicant.bytes);
    var size := BytesFor(bits * 2);
    var room := Resize(result.bytes, size);
    result := Big(room, true);
    room := Resize(multiplicant.bytes, size);
    var partial := Big(room, multiplicant.positive);
    ghost var goal := MultiplyLoop(Signed(0, true), Meaning(multiplicant), Meaning(multiplier).magnitude);
    var s := multiplier.bytes;
    UnexaminedStart(s, 0);
    hide MultiplyLoop, Unexamined, Value;
    for k := 0 to |s|
      invariant k < |s| ==> Unexamined(s, k, 0) >= 0
      invariant goal == MultiplyLoop(Meaning(result), Meaning(partial), if k < |s| then Unexamined(s, k, 0) else 0)
    {
      result, partial := MultiplyByte(s, k, result, partial);
      UnexaminedStart(s, k);
      if k + 1 < |s| {
        UnexaminedStart(s, k + 1);
      } else {
        assert s[..|s| - 1 - k] == [];
        EmptyValue();
      }
    }
    MultiplyLoopDone(Meaning(result), Meaning(partial));
  }

  lemma EmptyValue()
    ensures Value([]) == 0
  {
  }

  lemma MultiplyLoopDone(result: Signed, partial: Signed)
    ensures MultiplyLoop(result, partial, 0) == result
  {
  }

  /** The eight bits of one multiplier byte, from the lowest. */
  method MultiplyByte(s: seq<byte>, k: nat, result0: Big, partial0: Big) returns (result: Big, partial: Big)
    requires k < |s| && Unexamined(s, k, 0) >= 0
    ensures Unexamined(s, k, 8) >= 0
    ensures MultiplyLoop(Meaning(result), Meaning(partial), Unexamined(s, k, 8))
         == MultiplyLoop(Meaning(result0), Meaning(partial0), Unexamined(s, k, 0))
  {
    result, partial := result0, partial0;
    for bit := 0 to 8
      invariant Unexamined(s, k, bit) >= 0
      invariant MultiplyLoop(Meaning(result), Meaning(partial), Unexamined(s, k, bit))
             == MultiplyLoop(Meaning(result0), Meaning(partial0), Unexamined(s, k, 0))
    {
      UnexaminedStep(s, k, bit);
      MultiplyLoopStep(Meaning(result), Meaning(partial), Unexamined(s, k, bit));
      if s[|s| - 1 - k] as int / Power(bit) % 2 == 1 {
        result := Add(result, partial);
      }
      ghost var before := partial;
      partial := ShiftLeft(partial, 1);
      DoubledMeaning(before, partial);
    }
  }

  lemma DoubledMeaning(p: Big, q: Big)
    requires q.positive == p.positive && Value(q.bytes) == Value(p.bytes) * Pow2(1)
    ensures Meaning(q) == Signed(2 * Meaning(p).magnitude, p.positive)
  {
    assert Pow2(1) == 2 * Pow2(0);
  }

  lemma MultiplyLoopStep(result: Signed, partial: Signed, m: nat)
    ensures MultiplyLoop(result, partial, m)
         == MultiplyLoop(if m % 2 == 1 then AddSpec(result, partial) else result, Signed(2 * partial.magnitude, partial.positive), m / 2)
  {
    if m == 0 {
      assert MultiplyLoop(result, Signed(2 * partial.magnitude, partial.positive), 0) == result;
    }
  }

  method Multiply(lhs: Big, rhs: Big) returns (result: Big)
    ensures Meaning(result) == MultiplySpec(Meaning(lhs), Meaning(rhs))
  {
    var product := LongMultiply(lhs, rhs);
    result := Big(product.bytes, lhs.positive == rhs.positive);
  }

  // ----- Exponentiation -----

  ghost function Pow(b: int, e: nat): int {
    if e == 0 then 1 else b * Pow(b, e - 1)
  }

  lemma {:induction false} PowSquare(b: int, e: nat)
    ensures Pow(b * b, e) == Pow(b, 2 * e)
  {
    if e != 0 {
      PowSquare(b, e - 1);
      assert Pow(b, 2 * e) == b * Pow(b, 2 * e - 1) == b * (b * Pow(b, 2 * e - 2));
      assert b * (b * Pow(b, 2 * e - 2)) == (b * b) * Pow(b, 2 * e - 2);
    }
  }

  lemma {:induction false} PowSign(b: nat, e: nat)
    ensures Pow(b, e) >= 0
    ensures Pow(-(b as int), e) == if e % 2 == 0 then Pow(b, e) else -Pow(b, e)
  {
    if e != 0 {
      PowSign(b, e - 1);
      var x := Pow(b, e - 1);
      assert (-(b as int)) * x == -(b * x) && (-(b as int)) * (-x) == b * x;
      MulMono(0, b, x);
    }
  }

  /** Squaring takes one bit off the exponent. */
  lemma PowHalve(b: int, e: nat)
    ensures e % 2 == 0 ==> Pow(b, e) == Pow(b * b, e / 2)
    ensures e % 2 == 1 ==> Pow(b, e - 1) == Pow(b * b, e / 2)
  {
    PowSquare(b, e / 2);
  }

  /** The loop over the bits of the exponent. */
  ghost function PowLoop(r: int, squared: int, e: nat): int
    decreases e
  {
    if e == 0 then r else PowLoop(if e % 2 == 1 then r * squared else r, squared * squared, e / 2)
  }

  lemma {:induction false} PowLoopIs(r: int, squared: int, e: nat)
    ensures PowLoop(r, squared, e) == r * Pow(squared, e)
    decreases e
  {
    if e == 0 {
      assert r * 1 == r;
    } else {
      PowLoopIs(if e % 2 == 1 then r * squared else r, squared * squared, e / 2);
      PowHalve(squared, e);
      if e % 2 == 1 {
        Regrouped(r, squared, Pow(squared, e - 1));
      }
    }
  }

  lemma Regrouped(r: int, b: int, x: int)
    ensures (r * b) * x == r * (b * x)
  {
  }

  /** Bits not yet examined are the value shifted down. */
  lemma {:induction false} UnexaminedIs(s: seq<byte>, k: nat, bit: nat)
    requires k < |s| && bit < 8
    ensures Unexamined(s, k, bit) == Value(s) / Pow2(8 * k + bit)
  {
    if bit == 0 {
      UnexaminedStart(s, k);
      var high, low := s[..|s| - k], s[|s| - k..];
      assert s == high + low;
      ValueConcat(high, low);
      ScaleTimes(Value(high), k);
      ScaleIsPow2(k);
      ValueRange(low);
      ModUnique(Value(s), Value(high), Value(low), Pow2(8 * k));
    } else {
      UnexaminedIs(s, k, bit - 1);
      UnexaminedStep(s, k, bit - 1);
      HalveAgain(Value(s), 8 * k + bit - 1);
    }
  }

  lemma HalveAgain(v: int, n: nat)
    ensures v / Pow2(n) / 2 == v / Pow2(n + 1)
  {
    DivDiv(v, Pow2(n), 2);
    assert Pow2(n) * 2 == Pow2(n + 1);
  }

  /** Testing a bit of a byte tests that bit of the value. */
  lemma BitTest(s: seq<byte>, n: nat)
    requires n / 8 < |s|
    ensures Value(s) / Pow2(n) >= 0
    ensures Value(s) / Pow2(n) % 2 == Digit(s, n / 8) as int / Power(n % 8) % 2
    ensures Value(s) / Pow2(n) / 2 == Value(s) / Pow2(n + 1)
  {
    UnexaminedIs(s, n / 8, n % 8);
    UnexaminedStep(s, n / 8, n % 8);
    HalveAgain(Value(s), n);
  }

  lemma MultiplyPositive(a: Signed, b: Signed)
    requires a.positive && b.positive
    ensures MultiplySpec(a, b) == Signed(a.magnitude * b.magnitude, true)
  {
    MultiplyLoopPositive(0, Augend(a, b).magnitude, Addend(a, b).magnitude);
  }

  lemma PowLoopStep(r: nat, squared: nat, e: nat)
    ensures PowLoop(r, squared, e) == PowLoop(if e % 2 == 1 then r * squared else r, squared * squared, e / 2)
  {
  }

  /** One bit of the exponent: multiply when it is set, and square. */
  method ExpBit(result0: Big, squared0: Big, one: bool, ghost e: nat) returns (result: Big, squared: Big)
    requires result0.positive && squared0.positive && (one <==> e % 2 == 1)
    ensures result.positive && squared.positive
    ensures PowLoop(Meaning(result).magnitude, Meaning(squared).magnitude, e / 2)
         == PowLoop(Meaning(result0).magnitude, Meaning(squared0).magnitude, e)
  {
    PowLoopStep(Meaning(result0).magnitude, Meaning(squared0).magnitude, e);
    hide MultiplySpec, Value, PowLoop;
    result := result0;
    if one {
      MultiplyPositive(Meaning(result0), Meaning(squared0));
      result := Multiply(result0, squared0);
    }
    MultiplyPositive(Meaning(squared0), Meaning(squared0));
    squared := Multiply(squared0, squared0);
  }

  /** Tests a bit of a value. */
  method TestBit(s: Bytes, bit: nat) returns (one: bool)
    requires bit / 8 < |s|
    ensures Value(s) / Pow2(bit) >= 0 && Value(s) / Pow2(bit) / 2 == Value(s) / Pow2(bit + 1)
    ensures one <==> Value(s) / Pow2(bit) % 2 == 1
  {
    BitTest(s, bit);
    one := s[|s| - bit / 8 - 1] as int / Power(bit % 8) % 2 == 1;
  }

  /** The magnitude of the power; odd tells whether the lowest exponent bit was set. */
  method PowerMagnitude(base: Bytes, exponent: Bytes) returns (result: Big, odd: bool)
    ensures result.positive && Value(base) >= 0 && Value(exponent) >= 0
    ensures Value(result.bytes) == Pow(Value(base), Value(exponent))
    ensures odd <==> Value(exponent) % 2 == 1
  {
    result := Big([1], true);
    var squared := Big(base, true);
    var exponentBits := Bits(exponent);
    ghost var b, e := Meaning(squared).magnitude, Value(exponent);
    SingleByte(1);
    HoldsBits(exponent);
    assert Pow2(0) == 1;
    odd := false;
    for bit := 0 to exponentBits
      invariant result.positive && squared.positive && e / Pow2(bit) >= 0
      invariant PowLoop(Meaning(result).magnitude, Meaning(squared).magnitude, e / Pow2(bit)) == PowLoop(1, b, e)
      invariant bit > 0 ==> (odd <==> e % 2 == 1)
    {
      hide Value, PowLoop, BitLength, Pow2;
      var one := TestBit(exponent, bit);
      if bit == 0 {
        odd := one;
      }
      result, squared := ExpBit(result, squared, one, e / Pow2(bit));
    }
    BitLengthRange(e);
    ModUnique(e, 0, e, Pow2(exponentBits));
    PowLoopIs(1, b, e);
  }

  /** Exponentiation by squaring over the bits of the exponent, from the lowest; the result is
      negative for an odd power of a negative base. */
  method Exp(base: Big, exponent: Big) returns (result: Big)
    ensures !exponent.positive ==> Meaning(result) == Signed(0, true)
    ensures exponent.positive ==> ToInt(Meaning(result)) == Pow(ToInt(Meaning(base)), Meaning(exponent).magnitude)
  {
    if !exponent.positive {
      SingleByte(0);
      return Big([0], true);
    }
    var power, odd := PowerMagnitude(base.bytes, exponent.bytes);
    PowSign(Meaning(base).magnitude, Meaning(exponent).magnitude);
    result := Big(power.bytes, base.positive || !odd);
  }
}

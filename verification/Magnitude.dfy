/** Byte strings as big-endian magnitudes: the value, bit length, comparison, shifts and ripple
    arithmetic of core/src/bigint.cpp. Bytes above the top of an operand count as zero. */
module Magnitude {
  import opened ByteType
  import opened ModArith
  import opened PowerOfTwo

  /** A magnitude of at least one byte, most significant byte first. */
  type Bytes = s: seq<byte> | |s| >= 1 witness [0]

  // ----- Value -----

  /** v * 256^k */
  ghost function Scale(v: int, k: nat): int {
    if k == 0 then v else 256 * Scale(v, k - 1)
  }

  /** The byte k places above the last one. */
  function Digit(s: seq<byte>, k: nat): byte {
    if k < |s| then s[|s| - 1 - k] else 0
  }

  /** The value of the k low bytes. */
  ghost function LowValue(s: seq<byte>, k: nat): int {
    if k == 0 then 0 else LowValue(s, k - 1) + Scale(Digit(s, k - 1), k - 1)
  }

  ghost function Value(s: seq<byte>): int {
    LowValue(s, |s|)
  }

  lemma {:induction false} ScaleAdd(v: int, w: int, k: nat)
    ensures Scale(v + w, k) == Scale(v, k) + Scale(w, k)
  {
    if k != 0 {
      ScaleAdd(v, w, k - 1);
    }
  }

  lemma {:induction false} ScaleMono(v: int, w: int, k: nat)
    requires v <= w
    ensures Scale(v, k) <= Scale(w, k)
    ensures v < w ==> Scale(v, k) < Scale(w, k)
    ensures Scale(0, k) == 0
  {
    if k != 0 {
      ScaleMono(v, w, k - 1);
    }
  }

  lemma {:induction false} ScaleTwice(v: int, j: nat, k: nat)
    ensures Scale(Scale(v, j), k) == Scale(v, j + k)
  {
    if k != 0 {
      ScaleTwice(v, j, k - 1);
    }
  }

  lemma {:induction false} ScaleTimes(v: int, k: nat)
    ensures Scale(v, k) == v * Scale(1, k) && Scale(1, k) >= 1
  {
    if k != 0 {
      ScaleTimes(v, k - 1);
      assert 256 * (v * Scale(1, k - 1)) == v * (256 * Scale(1, k - 1));
    }
  }

  lemma {:induction false} LowValueRange(s: seq<byte>, k: nat)
    ensures 0 <= LowValue(s, k) < Scale(1, k)
  {
    if k != 0 {
      LowValueRange(s, k - 1);
      ScaleMono(0, Digit(s, k - 1), k - 1);
      ScaleMono(Digit(s, k - 1) + 1, 256, k - 1);
      ScaleAdd(Digit(s, k - 1), 1, k - 1);
      ScaleTwice(256, 0, k - 1);
      ScaleTimes(256, k - 1);
    }
  }

  /** Zero padding adds nothing. */
  lemma {:induction false} LowValuePadded(s: seq<byte>, k: nat)
    requires k >= |s|
    ensures LowValue(s, k) == Value(s)
    decreases k
  {
    if k > |s| {
      LowValuePadded(s, k - 1);
      ScaleMono(0, 0, k - 1);
    }
  }

  /** Numbers with the same low bytes have the same low value. */
  lemma {:induction false} LowValueEqual(s: seq<byte>, t: seq<byte>, k: nat)
    requires forall j :: 0 <= j < k ==> Digit(s, j) == Digit(t, j)
    ensures LowValue(s, k) == LowValue(t, k)
  {
    if k != 0 {
      LowValueEqual(s, t, k - 1);
    }
  }

  /** One more byte at the end: Horner's rule. */
  lemma {:induction false} LowValueAppend(s: seq<byte>, b: byte, k: nat)
    ensures LowValue(s + [b], k + 1) == 256 * LowValue(s, k) + b
  {
    if k != 0 {
      LowValueAppend(s, b, k - 1);
      assert Digit(s + [b], k) == Digit(s, k - 1);
    } else {
      assert Digit(s + [b], 0) == b;
    }
  }

  lemma ValueAppend(s: seq<byte>, b: byte)
    ensures Value(s + [b]) == 256 * Value(s) + b
  {
    LowValueAppend(s, b, |s|);
  }

  lemma {:induction false} ValueConcat(s: seq<byte>, t: seq<byte>)
    ensures Value(s + t) == Scale(Value(s), |t|) + Value(t)
  {
    if |t| == 0 {
      assert s + t == s;
    } else {
      var n := |t| - 1;
      ValueConcat(s, t[..n]);
      assert s + t == (s + t[..n]) + [t[n]];
      assert t == t[..n] + [t[n]];
      ValueAppend(s + t[..n], t[n]);
      ValueAppend(t[..n], t[n]);
    }
  }

  /** Changing one byte moves the value by the difference at its place. */
  lemma {:induction false} LowValueUpdate(s: seq<byte>, i: nat, b: byte, k: nat)
    requires i < |s| && |s| - 1 - i < k
    ensures LowValue(s[i := b], k) == LowValue(s, k) + Scale(b as int - s[i] as int, |s| - 1 - i)
  {
    var t, j := s[i := b], |s| - 1 - i;
    if k - 1 == j {
      forall n | 0 <= n < k - 1
        ensures Digit(t, n) == Digit(s, n)
      {
      }
      LowValueEqual(s, t, k - 1);
      ScaleAdd(b as int - s[i] as int, s[i] as int, j);
    } else {
      LowValueUpdate(s, i, b, k - 1);
      assert Digit(t, k - 1) == Digit(s, k - 1);
    }
  }

  lemma ValueRange(s: seq<byte>)
    ensures 0 <= Value(s) < Scale(1, |s|)
  {
    LowValueRange(s, |s|);
  }

  /** Bytes above a magnitude that fits in k are zero. */
  lemma {:induction false} TopDigitsZero(s: seq<byte>, k: nat, j: nat)
    requires Value(s) < Scale(1, k) && k <= j
    ensures Digit(s, j) == 0
  {
    if j < |s| && Digit(s, j) != 0 {
      LowValueGrows(s, j + 1, |s|);
      LowValueRange(s, j);
      ScaleMono(1, Digit(s, j), j);
      ScaleGrows(k, j);
      assert false;
    }
  }

  lemma {:induction false} LowValueGrows(s: seq<byte>, j: nat, k: nat)
    requires j <= k
    ensures LowValue(s, j) <= LowValue(s, k)
    decreases k
  {
    if j < k {
      LowValueGrows(s, j, k - 1);
      ScaleMono(0, Digit(s, k - 1), k - 1);
    }
  }

  lemma {:induction false} ScaleGrows(j: nat, k: nat)
    requires j <= k
    ensures Scale(1, j) <= Scale(1, k)
    decreases k
  {
    if j < k {
      ScaleGrows(j, k - 1);
      ScaleTimes(1, k - 1);
    }
  }

  /** A magnitude that fits in k bytes is the value of its k low bytes. */
  lemma {:induction false} LowValueFits(s: seq<byte>, k: nat)
    requires Value(s) < Scale(1, k)
    ensures LowValue(s, k) == Value(s)
    decreases if k < |s| then |s| - k else 0
  {
    if k >= |s| {
      LowValuePadded(s, k);
    } else {
      LowValueCut(s, k, |s|);
    }
  }

  lemma {:induction false} LowValueCut(s: seq<byte>, k: nat, n: nat)
    requires Value(s) < Scale(1, k) && k <= n
    ensures LowValue(s, n) == LowValue(s, k)
    decreases n
  {
    if k < n {
      TopDigitsZero(s, k, n - 1);
      LowValueCut(s, k, n - 1);
      ScaleMono(0, 0, n - 1);
    }
  }

  lemma {:induction false} LowValueMod(s: seq<byte>, k: nat)
    ensures Scale(1, k) >= 1 && LowValue(s, k) == Value(s) % Scale(1, k)
  {
    ScaleTimes(1, k);
    LowValueRange(s, k);
    var q := LowValueQuotient(s, k);
    ModUnique(Value(s), q, LowValue(s, k), Scale(1, k));
  }

  /** What lies above the k low bytes is a multiple of 256^k. */
  lemma {:induction false} LowValueQuotient(s: seq<byte>, k: nat) returns (q: nat)
    ensures Value(s) == q * Scale(1, k) + LowValue(s, k)
  {
    if k >= |s| {
      LowValuePadded(s, k);
      q := 0;
    } else {
      var low, high := s[|s| - k..], s[..|s| - k];
      assert s == high + low;
      ValueConcat(high, low);
      forall j | 0 <= j < k
        ensures Digit(s, j) == Digit(low, j)
      {
      }
      LowValueEqual(s, low, k);
      ValueRange(high);
      ScaleTimes(Value(high), k);
      q := Value(high);
    }
  }

  // ----- Bit length -----

  ghost function BitLength(v: nat): (n: nat)
    ensures n >= 1
  {
    if v < 2 then 1 else 1 + BitLength(v / 2)
  }

  lemma {:induction false} BitLengthRange(v: nat)
    ensures v < Pow2(BitLength(v))
    ensures v >= 1 ==> Pow2(BitLength(v) - 1) <= v
  {
    if v >= 2 {
      BitLengthRange(v / 2);
    } else {
      assert Pow2(1) == 2 && Pow2(0) == 1;
    }
  }

  lemma {:induction false} BitLengthUnique(v: nat, n: nat)
    requires n >= 1 && v < Pow2(n) && (n == 1 || Pow2(n - 1) <= v)
    ensures BitLength(v) == n
  {
    if n == 1 {
      assert Pow2(1) == 2 * Pow2(0);
    } else {
      assert Pow2(n - 1) == 2 * Pow2(n - 2);
      BitLengthUnique(v / 2, n - 1);
    }
  }

  lemma {:induction false} BitLengthMono(v: nat, w: nat)
    requires v <= w
    ensures BitLength(v) <= BitLength(w)
  {
    if v >= 2 {
      BitLengthMono(v / 2, w / 2);
    }
  }

  lemma {:induction false} ScaleIsPow2(k: nat)
    ensures Scale(1, k) == Pow2(8 * k)
  {
    if k != 0 {
      ScaleIsPow2(k - 1);
      Pow2By8(8 * (k - 1));
    }
  }

  /** The bytes that hold n bits. */
  function BytesFor(n: nat): nat
    requires n >= 1
  {
    (n - 1) / 8 + 1
  }

  /** A value fits in the bytes that hold its bits, and no fewer. */
  lemma FitsBytes(v: nat, k: nat)
    ensures v < Scale(1, k) <==> v == 0 || BytesFor(BitLength(v)) <= k
  {
    BitLengthRange(v);
    ScaleIsPow2(k);
    if v != 0 {
      if BytesFor(BitLength(v)) <= k {
        Pow2Grows(BitLength(v), 8 * k);
      } else {
        Pow2Grows(8 * k, BitLength(v) - 1);
      }
    }
  }

  /** The number of bits of a leading byte above k others. */
  lemma LeadingByte(s: seq<byte>, k: nat, b: nat)
    requires k < |s| && 1 <= b <= 8 && Pow2(b - 1) <= Digit(s, k) < Pow2(b)
    requires Value(s) == LowValue(s, k + 1)
    ensures Value(s) >= 0 && BitLength(Value(s)) == 8 * k + b
  {
    var d := Digit(s, k);
    LowValueRange(s, k);
    ScaleTimes(d, k);
    ScaleIsPow2(k);
    LeadingRange(d, Pow2(8 * k), LowValue(s, k), Pow2(b - 1), Pow2(b));
    Pow2Add(b - 1, 8 * k);
    Pow2Add(b, 8 * k);
    BitLengthUnique(Value(s), 8 * k + b);
  }

  lemma LeadingRange(d: int, unit: int, low: int, least: int, limit: int)
    requires 0 <= low < unit && 0 <= least <= d < limit
    ensures 0 <= least * unit <= d * unit + low < limit * unit
  {
    MulMono(0, least, unit);
    MulMono(least, d, unit);
    MulMono(d + 1, limit, unit);
    assert (d + 1) * unit == d * unit + unit;
  }

  lemma {:induction false} AllZero(s: seq<byte>, k: nat)
    requires k <= |s| && forall i :: 0 <= i < |s| - k ==> s[i] == 0
    ensures Value(s) == LowValue(s, k)
    decreases |s| - k
  {
    if k < |s| {
      AllZero(s, k + 1);
      assert Digit(s, k) == s[|s| - 1 - k];
      ScaleMono(0, 0, k);
    }
  }

  /** Zero counts as one bit. */
  method Bits(s: seq<byte>) returns (bits: nat)
    ensures Value(s) >= 0 && bits == BitLength(Value(s))
  {
    ValueRange(s);
    var index := 0;
    while index < |s| && s[index] == 0
      invariant index <= |s| && forall i :: 0 <= i < index ==> s[i] == 0
    {
      index := index + 1;
    }
    if index >= |s| {
      AllZero(s, 0);
      return 1;
    }
    var k := |s| - index - 1;
    AllZero(s, k + 1);
    var b := TopBit(s[index]);
    LeadingByte(s, k, b);
    bits := k * 8 + b;
  }

  /** The position of the highest set bit of a non-zero byte, found from the top with a mask. */
  method TopBit(byte: byte) returns (bits: nat)
    requires byte != 0
    ensures 1 <= bits <= 8 && Pow2(bits - 1) <= byte < Pow2(bits)
  {
    bits := 8;
    var mask := 0x80;
    Pow2By8(0);
    assert Pow2(8) == 2 * Pow2(7);
    while bits > 0 && byte / mask % 2 == 0
      invariant 0 <= bits <= 8 && byte < Pow2(bits)
      invariant bits > 0 ==> mask == Pow2(bits - 1)
    {
      assert byte < mask by { BelowMask(byte, mask); }
      bits := bits - 1;
      mask := mask / 2;
    }
    assert bits > 0 ==> byte / mask >= 1;
  }

  lemma BelowMask(b: int, mask: int)
    requires mask > 0 && 0 <= b < 2 * mask && b / mask % 2 == 0
    ensures b < mask
  {
    if b >= mask {
      ModUnique(b, 1, b - mask, mask);
      assert false;
    }
  }

  // ----- Comparison -----

  datatype Order = Less | Equal | Greater

  function Compare(x: int, y: int): Order {
    if x < y then Less else if x == y then Equal else Greater
  }

  /** Equal digits from k up leave the difference of the low parts. */
  lemma {:induction false} EqualAbove(s: seq<byte>, t: seq<byte>, k: nat, n: nat)
    requires k <= n && forall j :: k <= j < n ==> Digit(s, j) == Digit(t, j)
    ensures LowValue(s, n) - LowValue(s, k) == LowValue(t, n) - LowValue(t, k)
    decreases n
  {
    if k < n {
      EqualAbove(s, t, k, n - 1);
    }
  }

  lemma HigherDigitWins(s: seq<byte>, t: seq<byte>, k: nat)
    requires Digit(s, k) < Digit(t, k)
    ensures LowValue(s, k + 1) < LowValue(t, k + 1)
  {
    LowValueRange(s, k);
    LowValueRange(t, k);
    ScaleMono(Digit(s, k) + 1, Digit(t, k), k);
    ScaleAdd(Digit(s, k), 1, k);
  }

  /** Digits equal from k up and different just below decide the comparison. */
  lemma DigitsDecide(s: seq<byte>, t: seq<byte>, k: nat, n: nat)
    requires k < n && Digit(s, k) != Digit(t, k)
    requires forall j :: k < j < n ==> Digit(s, j) == Digit(t, j)
    ensures Compare(LowValue(s, n), LowValue(t, n)) == Compare(Digit(s, k), Digit(t, k))
  {
    EqualAbove(s, t, k + 1, n);
    if Digit(s, k) < Digit(t, k) {
      HigherDigitWins(s, t, k);
    } else {
      HigherDigitWins(t, s, k);
    }
  }

  /** Compares the magnitudes: bit lengths first, then the bytes that hold the bits. */
  method AbsCmp(lhs: Bytes, rhs: Bytes) returns (order: Order)
    ensures order == Compare(Value(lhs), Value(rhs))
  {
    ValueRange(lhs);
    ValueRange(rhs);
    var lhsBits := Bits(lhs);
    var rhsBits := Bits(rhs);
    if lhsBits > rhsBits {
      if Value(lhs) <= Value(rhs) {
        BitLengthMono(Value(lhs), Value(rhs));
      }
      return Greater;
    } else if lhsBits < rhsBits {
      if Value(lhs) >= Value(rhs) {
        BitLengthMono(Value(rhs), Value(lhs));
      }
      return Less;
    }
    var bytes := BytesFor(lhsBits);
    HoldsBits(lhs);
    HoldsBits(rhs);
    var k := bytes;
    while k > 0
      invariant 0 <= k <= bytes
      invariant forall j :: k <= j < bytes ==> Digit(lhs, j) == Digit(rhs, j)
    {
      k := k - 1;
      if Digit(lhs, k) != Digit(rhs, k) {
        DigitsDecide(lhs, rhs, k, bytes);
        return if Digit(lhs, k) > Digit(rhs, k) then Greater else Less;
      }
    }
    LowValueEqual(lhs, rhs, bytes);
    order := Equal;
  }

  /** The bytes for the bits are there, and hold the whole value. */
  lemma HoldsBits(s: Bytes)
    ensures Value(s) >= 0
    ensures BytesFor(BitLength(Value(s))) <= |s|
    ensures LowValue(s, BytesFor(BitLength(Value(s)))) == Value(s)
  {
    ValueRange(s);
    FitsBytes(Value(s), |s|);
    FitsBytes(Value(s), BytesFor(BitLength(Value(s))));
    if Value(s) == 0 {
      assert BitLength(0) == 1;
    }
    LowValueFits(s, BytesFor(BitLength(Value(s))));
  }

  // ----- Ripple arithmetic -----

  /** The j low digits of t, with the carry c above them, are x plus sign times y. */
  ghost predicate Rippled(t: seq<byte>, x: seq<byte>, y: seq<byte>, sign: int, c: int, j: nat) {
    LowValue(t, j) + Scale(c, j) == LowValue(x, j) + sign * LowValue(y, j)
  }

  /** One more digit d with the carry that leaves it. */
  lemma RippleStep(s: seq<byte>, t: seq<byte>, x: seq<byte>, y: seq<byte>, sign: int, c: int, c': int, j: nat)
    requires j < |s| == |t| && t == s[|s| - 1 - j := t[|s| - 1 - j]] && sign in {1, -1}
    requires Rippled(s, x, y, sign, c, j)
    requires t[|s| - 1 - j] as int + 256 * c' == Digit(x, j) as int + sign * Digit(y, j) as int + c
    ensures Rippled(t, x, y, sign, c', j + 1)
  {
    forall k | 0 <= k < j
      ensures Digit(t, k) == Digit(s, k)
    {
    }
    LowValueEqual(t, s, j);
    CarryPlace(Digit(x, j), sign * Digit(y, j) as int, c, t[|s| - 1 - j], c', j);
    if sign == -1 {
      ScaleNegate(Digit(y, j), j);
    }
  }

  lemma CarryPlace(x: int, y: int, c: int, d: int, c': int, j: nat)
    requires d + 256 * c' == x + y + c
    ensures Scale(d, j) + Scale(c', j + 1) == Scale(x, j) + Scale(y, j) + Scale(c, j)
  {
    ScaleTwice(c', 1, j);
    assert Scale(c', 1) == 256 * Scale(c', 0);
    ScaleAdd(d, 256 * c', j);
    ScaleAdd(x, y, j);
    ScaleAdd(x + y, c, j);
  }

  lemma ScaleNegate(v: int, k: nat)
    ensures Scale(-v, k) == -Scale(v, k)
  {
    ScaleAdd(v, -v, k);
    ScaleMono(0, 0, k);
  }

  /** All digits done: the result is the total, wrapped to its bytes. */
  lemma RippleDone(t: seq<byte>, x: seq<byte>, y: seq<byte>, sign: int, c: int)
    requires Rippled(t, x, y, sign, c, |t|) && sign in {1, -1}
    ensures Scale(1, |t|) > 0 && Value(t) == (Value(x) + sign * Value(y)) % Scale(1, |t|)
  {
    WrappedTotal(t, LowValue(x, |t|) + sign * LowValue(y, |t|), c);
    LowValueMod(x, |t|);
    LowValueMod(y, |t|);
    WrapBoth(Value(x), Value(y), sign, Scale(1, |t|), LowValue(x, |t|), LowValue(y, |t|));
  }

  lemma WrapBoth(x: int, y: int, sign: int, n: int, low: int, low': int)
    requires n > 0 && low == x % n && low' == y % n && sign in {1, -1}
    ensures (low + sign * low') % n == (x + sign * y) % n
  {
    if sign == 1 {
      ModAdd(x, y, n);
    } else {
      ModSub(x, y, n);
    }
  }

  /** A total that the result represents up to a carry out of the top is its residue. */
  lemma WrappedTotal(result: seq<byte>, total: int, carry: int)
    requires Value(result) + Scale(carry, |result|) == total
    ensures Scale(1, |result|) > 0 && Value(result) == total % Scale(1, |result|)
  {
    ScaleTimes(carry, |result|);
    ValueRange(result);
    ModUnique(total, carry, Value(result), Scale(1, |result|));
  }

  /** Adds the digits with their carry; bytes above an operand count as zero. */
  method AddBytes(augend: Bytes, addend: Bytes, size: nat) returns (result: seq<byte>)
    ensures |result| == size
    ensures Scale(1, size) > 0 && Value(result) == (Value(augend) + Value(addend)) % Scale(1, size)
  {
    var sum := new byte[size](_ => 0);
    var carry := 0;
    for j := 0 to size
      invariant carry == 0 || carry == 1
      invariant Rippled(sum[..], augend, addend, 1, carry, j)
    {
      ghost var before, c := sum[..], carry;
      if j < |addend| {
        var total: int := Digit(augend, j) as int + Digit(addend, j) as int + carry;
        sum[size - 1 - j] := total % 0x100;
        carry := total / 0x100;
      } else if carry != 0 {
        var total: int := Digit(augend, j) as int + carry;
        sum[size - 1 - j] := total % 0x100;
        carry := total / 0x100;
      } else {
        sum[size - 1 - j] := Digit(augend, j);
      }
      hide Rippled;
      RippleStep(before, sum[..], augend, addend, 1, c, carry, j);
    }
    result := sum[..];
    RippleDone(result, augend, addend, 1, carry);
  }

  /** Subtracts the digits with their borrow, in as many bytes as the minuend has. */
  method RippleSubtractor(minuend: Bytes, subtrahend: Bytes) returns (result: Bytes)
    ensures |result| == |minuend|
    ensures Scale(1, |minuend|) > 0 && Value(result) == (Value(minuend) - Value(subtrahend)) % Scale(1, |minuend|)
  {
    var size := |minuend|;
    var difference := new byte[size](_ => 0);
    var borrow := 0;
    for j := 0 to size
      invariant borrow == 0 || borrow == 1
      invariant Rippled(difference[..], minuend, subtrahend, -1, -borrow, j)
    {
      ghost var before, b := difference[..], borrow;
      if j < |subtrahend| {
        var diff: int := 0x100 + Digit(minuend, j) as int - Digit(subtrahend, j) as int - borrow;
        difference[size - 1 - j] := diff % 0x100;
        borrow := if diff / 0x100 == 0 then 1 else 0;
      } else if borrow != 0 {
        var diff: int := 0x100 + Digit(minuend, j) as int - borrow;
        difference[size - 1 - j] := diff % 0x100;
        borrow := if diff / 0x100 == 0 then 1 else 0;
      } else {
        difference[size - 1 - j] := Digit(minuend, j);
      }
      hide Rippled;
      RippleStep(before, difference[..], minuend, subtrahend, -1, -b, -borrow, j);
    }
    result := difference[..];
    RippleDone(result, minuend, subtrahend, -1, -borrow);
  }

  // ----- Sizes -----

  /** Right-aligned in another size, unless the value does not fit. */
  method Resize(s: Bytes, size: nat) returns (result: Bytes)
    ensures Value(result) == Value(s) && Value(s) >= 0
    ensures |result| == if BytesFor(BitLength(Value(s))) <= size then size else |s|
  {
    var bits := Bits(s);
    HoldsBits(s);
    var required := BytesFor(bits);
    if |s| == size || required > size {
      return s;
    }
    var kept := s[|s| - required..];
    result := seq(size - required, _ => 0) + kept;
    ValueTail(s, required);
    ValueConcat(seq(size - required, _ => 0), kept);
    AllZero(seq(size - required, _ => 0), 0);
    ScaleMono(0, 0, required);
  }

  /** The value of the k last bytes. */
  lemma ValueTail(s: seq<byte>, k: nat)
    requires k <= |s|
    ensures Value(s[|s| - k..]) == LowValue(s, k)
  {
    var t := s[|s| - k..];
    forall j | 0 <= j < k
      ensures Digit(t, j) == Digit(s, j)
    {
    }
    LowValueEqual(t, s, k);
  }

  method Compact(s: Bytes) returns (result: Bytes)
    ensures Value(result) == Value(s) && Value(s) >= 0
    ensures |result| == BytesFor(BitLength(Value(s)))
  {
    var bits := Bits(s);
    HoldsBits(s);
    var size := BytesFor(bits);
    ValueTail(s, size);
    result := s[|s| - size..];
  }

  // ----- Shifts -----

  /** 2^k for a shift within a byte. */
  function Power(k: nat): (r: int)
    requires k <= 8
    ensures r == Pow2(k)
  {
    Pow2Small();
    [1, 2, 4, 8, 16, 32, 64, 128, 256][k]
  }

  lemma Pow2Small()
    ensures Pow2(0) == 1 && Pow2(1) == 2 && Pow2(2) == 4 && Pow2(3) == 8 && Pow2(4) == 16
    ensures Pow2(5) == 32 && Pow2(6) == 64 && Pow2(7) == 128 && Pow2(8) == 256
  {
    assert Pow2(2) == 2 * Pow2(1);
    assert Pow2(4) == 2 * Pow2(3);
    assert Pow2(6) == 2 * Pow2(5);
    assert Pow2(8) == 2 * Pow2(7);
  }

  /** (d << bits) & 0xFF */
  function ShiftUp(d: byte, bits: nat): byte
    requires bits <= 8
  {
    d as int * Power(bits) % 256
  }

  /** d >> bits */
  function ShiftDown(d: byte, bits: nat): (r: byte)
    requires bits <= 8
  {
    ShrunkByte(d, Power(bits));
    d as int / Power(bits)
  }

  lemma ShrunkByte(d: byte, m: int)
    requires m >= 1
    ensures 0 <= d as int / m < 256
  {
    var q := d as int / m;
    if q >= 256 {
      MulMono(256, q, m);
    }
    if q < 0 {
      MulMono(q, -1, m);
    }
  }
}

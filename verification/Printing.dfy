/** Printing a big integer: operator<< of core/src/bigint.cpp. */
module Printing {
  import opened ByteType
  import opened ModArith
  import opened Magnitude
  import opened PowerOfTwo
  import opened Shifts
  import opened BigInt
  import opened Decimal

  ghost function PrintSpec(s: Signed): string {
    if s.positive || s.magnitude == 0 then Numeral(s.magnitude) else "-" + Numeral(s.magnitude)
  }

  // ----- The scratch space: decimal digits above w bytes of binary -----

  ghost function Top(s: seq<byte>, w: nat): seq<byte>
    requires w <= |s|
  {
    s[..|s| - w]
  }

  ghost function Low(s: seq<byte>, w: nat): seq<byte>
    requires w <= |s|
  {
    s[|s| - w..]
  }

  lemma TopLow(s: seq<byte>, w: nat)
    requires w <= |s|
    ensures Value(s) == Value(Top(s, w)) * Scale(1, w) + Value(Low(s, w))
    ensures 0 <= Value(Low(s, w)) < Scale(1, w) && 0 <= Value(Top(s, w))
  {
    assert s == Top(s, w) + Low(s, w);
    ValueConcat(Top(s, w), Low(s, w));
    ScaleTimes(Value(Top(s, w)), w);
    ValueRange(Low(s, w));
    ValueRange(Top(s, w));
  }

  /** With some bits of v left to shift in, the top is t and the bits left are flush with the top
      of the low part. */
  ghost predicate Halfway(s: seq<byte>, w: nat, t: int, v: nat, left: nat) {
    && w <= |s| && Value(Top(s, w)) == t
    && Value(Low(s, w)) * Pow2(left) == (v % Pow2(left)) * Scale(1, w)
  }

  lemma ScaledCompare(x: int, unit: int, r: int, half: int)
    requires half > 0 && unit > 0 && x * half == r * unit
    ensures x >= unit <==> r >= half
  {
    if x >= unit {
      MulMono(unit, x, half);
      if r < half {
        MulLess(r, half, unit);
      }
    } else {
      MulLess(x, unit, half);
      if r >= half {
        MulMono(half, r, unit);
      }
    }
  }

  /** The bit that a shift pushes into the top is the next one of v. */
  lemma CarryMatches(low: int, r: int, unit: int, half: int, bit: int)
    requires 0 <= low < unit && half > 0 && low * (2 * half) == r * unit
    requires bit == if r >= half then 1 else 0
    ensures 0 <= 2 * low - bit * unit < unit
    ensures (2 * low - bit * unit) * half == (r - bit * half) * unit
  {
    assert low * (2 * half) == (2 * low) * half;
    ScaledCompare(2 * low, unit, r, half);
    assert (2 * low - bit * unit) * half == (2 * low) * half - bit * (unit * half);
    assert (r - bit * half) * unit == r * unit - bit * (unit * half);
  }

  /** The next bit of v below those already shifted in. */
  ghost function NextBit(v: nat, n: nat): (bit: int)
    ensures 0 <= bit <= 1
  {
    if v % Pow2(n + 1) >= Pow2(n) then 1 else 0
  }

  lemma NextBitOf(v: nat, n: nat)
    ensures v % Pow2(n) == v % Pow2(n + 1) - NextBit(v, n) * Pow2(n)
    ensures v / Pow2(n) == 2 * (v / Pow2(n + 1)) + NextBit(v, n)
  {
    var half, q, r, bit := Pow2(n), v / Pow2(n + 1), v % Pow2(n + 1), NextBit(v, n);
    assert v == (2 * half) * q + r;
    DoubledPlaces(q, bit, r, half);
    ModUnique(v, 2 * q + bit, r - bit * half, half);
  }

  lemma DoubledPlaces(q: int, bit: int, r: int, half: int)
    ensures (2 * half) * q + r == (2 * q + bit) * half + (r - bit * half)
  {
    assert (2 * half) * q == (2 * q) * half;
    assert (2 * q + bit) * half == (2 * q) * half + bit * half;
  }

  /** Doubling the scratch space moves one bit of v into the top. */
  lemma ShiftHalfway(s: seq<byte>, u: seq<byte>, w: nat, t: int, v: nat, left: nat)
    requires Halfway(s, w, t, v, left + 1) && w <= |u| && Value(u) == 2 * Value(s)
    ensures Halfway(u, w, 2 * t + NextBit(v, left), v, left)
  {
    TopLow(s, w);
    TopLow(u, w);
    var unit, low, bit := Scale(1, w), Value(Low(s, w)), NextBit(v, left);
    NextBitOf(v, left);
    CarryMatches(low, v % Pow2(left + 1), unit, Pow2(left), bit);
    DoubledParts(t, bit, low, unit);
    SameParts(Value(u), unit, Value(Top(u, w)), Value(Low(u, w)), 2 * t + bit, 2 * low - bit * unit);
  }

  lemma DoubledParts(t: int, bit: int, low: int, unit: int)
    ensures 2 * (t * unit + low) == (2 * t + bit) * unit + (2 * low - bit * unit)
  {
    assert (2 * t + bit) * unit == 2 * (t * unit) + bit * unit;
  }

  lemma SameParts(x: int, unit: int, q: int, r: int, q': int, r': int)
    requires unit > 0 && x == q * unit + r == q' * unit + r' && 0 <= r < unit && 0 <= r' < unit
    ensures q == q' && r == r'
  {
    ModUnique(x, q, r, unit);
    ModUnique(x, q', r', unit);
  }

  /** The dabble loop over the bytes of the top. */
  method DabbleTop(s: Bytes, w: nat, ghost x: nat) returns (t: Bytes)
    requires w <= |s| && Value(Top(s, w)) == x && AllDecimal(x)
    ensures |t| == |s| && Value(Top(t, w)) == Dabbled(x) && Low(t, w) == Low(s, w)
  {
    var a := new byte[|s|](i requires 0 <= i < |s| => s[i]);
    DecimalBytes(Top(s, w));
    for index := 0 to |s| - w
      invariant forall k :: 0 <= k < index ==> a[k] as int == DabbleUpByte(s[k])
      invariant forall k :: index <= k < |s| ==> a[k] == s[k]
    {
      assert Top(s, w)[index] == s[index];
      a[index] := DabbleUpByte(a[index]);
    }
    t := a[..];
    DabbledBytes(Top(s, w), Top(t, w));
  }

  // ----- Digits out -----

  /** The digits of a number in base sixteen, none for zero. */
  ghost function HexDigits(x: nat): string
    requires AllDecimal(x)
  {
    if x == 0 then "" else HexDigits(x / 16) + [DigitChar(x % 16)]
  }

  lemma {:induction false} HexDigitsNumeral(x: nat)
    requires AllDecimal(x)
    ensures HexDigits(x) == if x == 0 then "" else Numeral(FromBcd(x))
  {
    if x != 0 {
      HexDigitsNumeral(x / 16);
      FromBcdAtMost(x / 16);
      FromBcdAtMost(x);
      if x / 16 == 0 {
        assert FromBcd(x) == x % 16;
        assert "" + [DigitChar(x % 16)] == [DigitChar(x % 16)];
      } else {
        assert FromBcd(x) / 10 == FromBcd(x / 16) && FromBcd(x) % 10 == x % 16;
      }
    }
  }

  /** The value of the first n half bytes. */
  ghost function NibblePrefix(s: seq<byte>, n: nat): int
    requires n <= 2 * |s|
  {
    if n % 2 == 0 then Value(s[..n / 2]) else 16 * Value(s[..n / 2]) + s[n / 2] as int / 16
  }

  lemma NibbleStep(s: seq<byte>, n: nat)
    requires n < 2 * |s|
    ensures NibblePrefix(s, n) >= 0
    ensures NibblePrefix(s, n + 1) == 16 * NibblePrefix(s, n)
              + (if n % 2 == 0 then s[n / 2] as int / 16 else s[n / 2] as int % 16)
  {
    ValueRange(s[..n / 2]);
    if n % 2 == 1 {
      assert s[..(n + 1) / 2] == s[..n / 2] + [s[n / 2]];
      ValueAppend(s[..n / 2], s[n / 2]);
    }
  }

  /** Leading parts of a decimal number are decimal. */
  lemma {:induction false} PrefixDecimal(s: seq<byte>, n: nat)
    requires n <= 2 * |s| && Value(s) >= 0 && AllDecimal(Value(s))
    ensures NibblePrefix(s, n) >= 0 && AllDecimal(NibblePrefix(s, n))
    decreases 2 * |s| - n
  {
    if n == 2 * |s| {
      assert s[..|s|] == s;
    } else {
      PrefixDecimal(s, n + 1);
      NibbleStep(s, n);
      HexSplit(NibblePrefix(s, n), if n % 2 == 0 then s[n / 2] as int / 16 else s[n / 2] as int % 16);
    }
  }

  /** Prints the half bytes without leading zeros, a sign in front of the first. */
  method PrintNibbles(s: seq<byte>, negative: bool) returns (out: string)
    requires Value(s) >= 0 && AllDecimal(Value(s))
    ensures out == if Value(s) == 0 then "0" else (if negative then "-" else "") + HexDigits(Value(s))
  {
    out := "";
    var nibble := 0;
    var skip := true;
    PrefixDecimal(s, 0);
    while nibble < 2 * |s|
      invariant nibble <= 2 * |s| && NibblePrefix(s, nibble) >= 0 && AllDecimal(NibblePrefix(s, nibble))
      invariant skip <==> NibblePrefix(s, nibble) == 0
      invariant out == if skip then "" else (if negative then "-" else "") + HexDigits(NibblePrefix(s, nibble))
    {
      var bcd := if nibble % 2 == 0 then s[nibble / 2] as int / 16 else s[nibble / 2] as int % 16;
      PrefixDecimal(s, nibble + 1);
      NibbleStep(s, nibble);
      HexSplit(NibblePrefix(s, nibble), bcd);
      nibble := nibble + 1;
      if skip {
        if bcd == 0 {
          continue;
        }
        skip := false;
        if negative {
          out := out + "-";
        }
      }
      out := out + [DigitChar(bcd)];
    }
    assert s[..|s|] == s;
    if skip {
      out := out + "0";
    }
  }

  // ----- The printer -----

  lemma StartHalfway(s: seq<byte>, w: nat, v: nat, n: nat)
    requires w <= |s| && n == BitLength(v) && w == BytesFor(n) && Value(s) == v * Pow2(8 * w - n)
    ensures Halfway(s, w, 0, v, n) && v / Pow2(n) == 0
  {
    BitLengthRange(v);
    ModUnique(v, 0, v, Pow2(n));
    Pow2Add(8 * w - n, n);
    ScaleIsPow2(w);
    TopLow(s, w);
    FlushParts(Value(s), Value(Top(s, w)), Value(Low(s, w)), v, Pow2(8 * w - n), Pow2(n));
  }

  lemma FlushParts(x: int, top: int, low: int, v: nat, p: int, q: int)
    requires p > 0 && v < q && x == v * p == top * (p * q) + low && 0 <= low < p * q
    ensures top == 0 && low * q == v * (p * q)
  {
    MulLess(v, q, p);
    MulMono(0, v, p);
    FlushTop(v, p, q);
    SameParts(x, p * q, top, low, 0, v * p);
  }

  lemma FlushTop(v: int, p: int, q: int)
    ensures v * p * q == v * (p * q) && q * p == p * q
  {
  }

  /** The binary part flush with the top of its bytes, under room for the decimal digits. */
  method Scratch(b: Big) returns (scratch: Big, w: nat, bits: nat)
    ensures var v := Meaning(b).magnitude;
      bits == BitLength(v) && Halfway(scratch.bytes, w, 0, v, bits) && v / Pow2(bits) == 0
  {
    ghost var v := Meaning(b).magnitude;
    var bytes := Compact(b.bytes);
    w := |bytes|;
    bits := Bits(bytes);
    RoomForDigits(bits);
    bytes := Resize(bytes, (bits + 4 * (bits / 3 + 1)) / 8 + 1);
    scratch := Big(bytes, b.positive);
    var shift := 0;
    assert Pow2(0) == 1;
    if bits % 8 != 0 {
      shift := 8 - bits % 8;
      scratch := ShiftLeft(scratch, shift);
    }
    FlushShift(bits);
    assert Value(scratch.bytes) == v * Pow2(shift);
    StartHalfway(scratch.bytes, w, v, bits);
  }

  lemma RoomForDigits(bits: nat)
    requires bits >= 1
    ensures BytesFor(bits) <= (bits + 4 * (bits / 3 + 1)) / 8 + 1
  {
  }

  lemma FlushShift(bits: nat)
    requires bits >= 1
    ensures 8 * BytesFor(bits) - bits == if bits % 8 != 0 then 8 - bits % 8 else 0
  {
  }

  /** One round: shift a bit of v into the decimal digits, which double. */
  lemma ShiftDigits(x: nat, v: nat, left: nat)
    requires AllDecimal(x) && FromBcd(x) == v / Pow2(left + 1)
    ensures var y := 2 * Dabbled(x) + NextBit(v, left);
      AllDecimal(y) && FromBcd(y) == v / Pow2(left)
  {
    NextBitOf(v, left);
    DoubleDabble(x, NextBit(v, left));
  }

  /** One bit shifted in, with the decimal digits x still to be dabbled. */
  method ShiftIn(scratch0: Big, w: nat, ghost x: nat, ghost v: nat, ghost left: nat) returns (scratch: Big, ghost y: nat)
    requires AllDecimal(x) && FromBcd(x) == v / Pow2(left + 1) && Halfway(scratch0.bytes, w, Dabbled(x), v, left + 1)
    ensures AllDecimal(y) && FromBcd(y) == v / Pow2(left) && Halfway(scratch.bytes, w, y, v, left)
  {
    scratch := ShiftLeft(scratch0, 1);
    assert Pow2(1) == 2 * Pow2(0);
    ShiftHalfway(scratch0.bytes, scratch.bytes, w, Dabbled(x), v, left);
    ShiftDigits(x, v, left);
    y := 2 * Dabbled(x) + NextBit(v, left);
  }

  method Print(b: Big) returns (out: string)
    ensures out == PrintSpec(Meaning(b))
  {
    var scratch, w, bits := Scratch(b);
    ghost var v, x: nat := Meaning(b).magnitude, 0;
    var bit := bits;
    while bit > 0
      invariant 0 <= bit <= bits
      invariant AllDecimal(x) && FromBcd(x) == v / Pow2(bit)
      invariant Halfway(scratch.bytes, w, if bit == 0 then x else Dabbled(x), v, bit)
    {
      scratch, x := ShiftIn(scratch, w, x, v, bit - 1);
      bit := bit - 1;
      if bit == 0 {
        // no dabble on the final shift
        break;
      }
      var dabbled := DabbleTop(scratch.bytes, w, x);
      scratch := Big(dabbled, scratch.positive);
    }
    assert Pow2(0) == 1;
    out := PrintNibbles(scratch.bytes[..|scratch.bytes| - w], !b.positive);
    HexDigitsNumeral(x);
    FromBcdAtMost(x);
  }
}

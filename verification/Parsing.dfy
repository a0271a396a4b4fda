/** Reading a big integer from decimal text: the string constructor of core/src/bigint.cpp. */
module Parsing {
  import opened ByteType
  import opened ModArith
  import opened Magnitude
  import opened PowerOfTwo
  import opened Shifts
  import opened BigInt
  import opened Decimal
  import opened Printing

  predicate IsSign(c: char) { c == '+' || c == '-' }

  /** Where the digits start. */
  function DigitsStart(str: string): (i: nat)
    ensures i <= |str|
  {
    if str != "" && IsSign(str[0]) then 1 else 0
  }

  /** Where the digits end: at the first other character. */
  ghost function DigitsEnd(str: string, i: nat): (e: nat)
    requires i <= |str|
    ensures i <= e <= |str| && AllDigits(str[i..e]) && (e < |str| ==> !IsDigit(str[e]))
    decreases |str| - i
  {
    if i < |str| && IsDigit(str[i]) then
      var e := DigitsEnd(str, i + 1);
      assert str[i..e] == [str[i]] + str[i + 1..e];
      e
    else i
  }

  ghost function ParseSpec(str: string): Signed {
    var i := DigitsStart(str);
    Signed(NumeralValue(str[i..DigitsEnd(str, i)]), str == "" || str[0] != '-')
  }

  // ----- Reading back what is printed -----

  lemma {:induction false} DigitsEndAll(str: string, i: nat)
    requires i <= |str| && forall k :: i <= k < |str| ==> IsDigit(str[k])
    ensures DigitsEnd(str, i) == |str|
    decreases |str| - i
  {
    if i < |str| {
      DigitsEndAll(str, i + 1);
    }
  }

  lemma SignedStart(sign: string, n: string)
    requires |n| >= 1 && IsDigit(n[0]) && (sign == "" || sign == "-")
    ensures DigitsStart(sign + n) == |sign| && ((sign + n)[0] == '-' <==> sign != "")
    ensures (sign + n)[|sign|..|sign + n|] == n
  {
    assert (sign + n)[0] == if sign == "" then n[0] else '-';
  }

  /** A digit string behind an optional sign is read as its number. */
  lemma ParseDigits(sign: string, n: string)
    requires AllDigits(n) && |n| >= 1 && (sign == "" || sign == "-")
    ensures ParseSpec(sign + n) == Signed(NumeralValue(n), sign == "")
  {
    hide NumeralValue, DigitsEnd, DigitsStart, IsDigit;
    SignedStart(sign, n);
    DigitsBehind(sign, n);
    DigitsEndAll(sign + n, |sign|);
  }

  lemma DigitsBehind(sign: string, n: string)
    requires AllDigits(n)
    ensures forall k :: |sign| <= k < |sign + n| ==> IsDigit((sign + n)[k])
  {
    forall k | |sign| <= k < |sign + n|
      ensures IsDigit((sign + n)[k])
    {
      assert (sign + n)[k] == n[k - |sign|];
    }
  }

  /** Parsing the printed form gives the number back; only a negative zero loses its sign. */
  lemma RoundTrip(s: Signed)
    ensures ParseSpec(PrintSpec(s)) == s <==> s.positive || s.magnitude != 0
  {
    var n := Numeral(s.magnitude);
    NumeralReads(s.magnitude);
    var sign := if s.positive || s.magnitude == 0 then "" else "-";
    assert PrintSpec(s) == sign + n;
    ParseDigits(sign, n);
  }

  // ----- Packing digits into half bytes -----

  /** v * 16^k */
  ghost function Hex(v: int, k: nat): int {
    if k == 0 then v else 16 * Hex(v, k - 1)
  }

  lemma {:induction false} HexAdd(v: int, w: int, k: nat)
    ensures Hex(v + w, k) == Hex(v, k) + Hex(w, k)
  {
    if k != 0 {
      HexAdd(v, w, k - 1);
    }
  }

  lemma {:induction false} HexIsScale(v: int, k: nat)
    ensures Hex(v, 2 * k) == Scale(v, k)
  {
    if k != 0 {
      HexIsScale(v, k - 1);
      assert Hex(v, 2 * k) == 16 * Hex(v, 2 * k - 1) == 16 * (16 * Hex(v, 2 * k - 2));
    }
  }

  lemma {:induction false} HexUp(v: int, k: nat)
    ensures Hex(16 * v, k) == Hex(v, k + 1)
  {
    if k != 0 {
      HexUp(v, k - 1);
    }
  }

  /** The number a digit string spells in base sixteen. */
  ghost function BcdValue(s: string): nat
    requires AllDigits(s)
  {
    if |s| == 0 then 0 else 16 * BcdValue(s[..|s| - 1]) + DigitOf(s[|s| - 1])
  }

  lemma {:induction false} BcdIsDecimal(s: string)
    requires AllDigits(s)
    ensures AllDecimal(BcdValue(s)) && FromBcd(BcdValue(s)) == NumeralValue(s)
    ensures BcdValue(s) < Hex(1, |s|)
  {
    if |s| != 0 {
      BcdIsDecimal(s[..|s| - 1]);
      HexSplit(BcdValue(s[..|s| - 1]), DigitOf(s[|s| - 1]));
    }
  }

  /** One digit written to half byte n of a buffer that was clear from there on. */
  lemma PackStep(s: seq<byte>, n: nat, d: nat, b: byte, h: int)
    requires n / 2 < |s| && d < 10 && Value(s) == Hex(h, 2 * |s| - n)
    requires b as int == s[n / 2] as int + (if n % 2 == 0 then 16 * d else d)
    ensures Value(s[n / 2 := b]) == Hex(16 * h + d, 2 * |s| - n - 1)
  {
    var i := n / 2;
    var k := |s| - 1 - i;
    LowValueUpdate(s, i, b, |s|);
    HexUp(h, 2 * |s| - n - 1);
    HexAdd(16 * h, d, 2 * |s| - n - 1);
    HexIsScale(d, k);
    HexIsScale(16 * d, k);
    HexUp(d, 2 * k);
  }

  /** n digits that spell h are packed, and the rest of the buffer is clear. */
  ghost predicate Packed(s: seq<byte>, n: nat, h: int) {
    && n <= 2 * |s| && Value(s) == Hex(h, 2 * |s| - n)
    && (forall k :: (n + 1) / 2 <= k < |s| ==> s[k] == 0)
    && (n % 2 == 1 ==> s[n / 2] as int % 16 == 0)
  }

  /** Writes one digit; its half byte is clear, so | is +. */
  method PackDigit(a: array<byte>, n: nat, digit: nat, ghost h: int)
    requires digit < 10 && n < 2 * a.Length && Packed(a[..], n, h)
    modifies a
    ensures Packed(a[..], n + 1, 16 * h + digit)
  {
    ghost var before := a[..];
    a[n / 2] := if n % 2 == 0 then 16 * digit else a[n / 2] as int + digit;
    assert a[..] == before[n / 2 := a[n / 2]];
    PackStep(before, n, digit, a[n / 2], h);
  }

  lemma BcdNext(str: string, i: nat, k: nat)
    requires i <= k < |str| && AllDigits(str[i..k]) && IsDigit(str[k])
    ensures AllDigits(str[i..k + 1]) && BcdValue(str[i..k + 1]) == 16 * BcdValue(str[i..k]) + DigitOf(str[k])
  {
    var t := str[i..k + 1];
    assert t[..|t| - 1] == str[i..k] && t[|t| - 1] == str[k];
  }

  /** Copies the digits from start on into half bytes from the top. */
  method PackDigits(str: string, start: nat) returns (packed: Bytes, bcd: nat)
    requires start <= |str|
    ensures bcd == DigitsEnd(str, start) - start && |packed| == |str| + 1
    ensures Value(packed) == Hex(BcdValue(str[start..start + bcd]), 2 * |packed| - bcd)
  {
    var a := new byte[|str| + 1](_ => 0);
    ZeroHex(2 * a.Length);
    AllZero(a[..], 0);
    bcd := 0;
    assert str[start..start] == "";
    assert Packed(a[..], 0, BcdValue(str[start..start]));
    hide Packed, BcdValue, Hex, Value, DigitsEnd;
    while start + bcd < |str| && IsDigit(str[start + bcd])
      invariant start + bcd <= |str|
      invariant AllDigits(str[start..start + bcd])
      invariant Packed(a[..], bcd, BcdValue(str[start..start + bcd]))
    {
      BcdNext(str, start, start + bcd);
      PackDigit(a, bcd, DigitOf(str[start + bcd]), BcdValue(str[start..start + bcd]));
      bcd := bcd + 1;
    }
    packed := a[..];
    DigitsEndAt(str, start, start + bcd);
    PackedValue(packed, bcd, BcdValue(str[start..start + bcd]));
  }

  /** The run of digits is the one that ends where no digit follows. */
  lemma {:induction false} DigitsEndAt(str: string, i: nat, e: nat)
    requires i <= e <= |str| && AllDigits(str[i..e]) && (e < |str| ==> !IsDigit(str[e]))
    ensures DigitsEnd(str, i) == e
    decreases e - i
  {
    if i < e {
      assert str[i] == str[i..e][0] && str[i + 1..e] == str[i..e][1..];
      DigitsEndAt(str, i + 1, e);
    }
  }

  lemma PackedValue(s: seq<byte>, n: nat, h: int)
    requires Packed(s, n, h)
    ensures n <= 2 * |s| && Value(s) == Hex(h, 2 * |s| - n)
  {
  }

  lemma {:induction false} ZeroHex(k: nat)
    ensures Hex(0, k) == 0
  {
    if k != 0 {
      ZeroHex(k - 1);
    }
  }

  // ----- Reverse double dabble -----

  /** After some shifts: the top holds the digits of what is left of v, and the bits shifted out
      of them are flush with the top of the low part. */
  ghost predicate Draining(s: seq<byte>, w: nat, x: int, v: nat, done: nat) {
    && w <= |s| && Value(Top(s, w)) == x
    && Value(Low(s, w)) * Pow2(done) == (v % Pow2(done)) * Scale(1, w)
  }

  lemma EvenLow(low: int, r: int, done: nat, w: nat)
    requires done < 8 * w && low * Pow2(done) == r * Scale(1, w)
    ensures low % 2 == 0 && Scale(1, w) % 2 == 0 && low == r * Pow2(8 * w - done)
  {
    var rest := 8 * w - done;
    ScaleIsPow2(w);
    Pow2Add(rest, done);
    Regroup(r, Pow2(rest), Pow2(done));
    SameFactor(low, r * Pow2(rest), Pow2(done));
    EvenPower(1, 8 * w);
    EvenPower(r, rest);
  }

  lemma Regroup(r: int, a: int, b: int)
    ensures r * (a * b) == (r * a) * b
  {
  }

  lemma EvenPower(r: int, n: nat)
    requires n >= 1
    ensures r * Pow2(n) % 2 == 0
  {
    TwiceProduct(r, Pow2(n - 1));
  }

  lemma TwiceProduct(r: int, p: int)
    ensures r * (2 * p) == 2 * (r * p) && r * (2 * p) % 2 == 0
  {
  }

  lemma SameFactor(x: int, y: int, m: int)
    requires m > 0 && x * m == y * m
    ensures x == y
  {
    if x < y {
      MulLess(x, y, m);
    } else if x > y {
      MulLess(y, x, m);
    }
  }

  /** Halving the buffer halves the digits and drops their lowest bit into the low part. */
  lemma ShiftDraining(s: seq<byte>, u: seq<byte>, w: nat, x: nat, v: nat, done: nat)
    requires Draining(s, w, x, v, done) && |u| == |s| && Value(u) == Value(s) / 2 && done < 8 * w
    requires x % 2 == v / Pow2(done) % 2
    ensures Draining(u, w, x / 2, v, done + 1)
  {
    TopLow(s, w);
    TopLow(u, w);
    NextBitOf(v, done);
    HalveAgainBit(v, done);
    var unit, low, bit, r := Scale(1, w), Value(Low(s, w)), x % 2, v % Pow2(done);
    EvenLow(low, r, done, w);
    var half := (bit * unit + low) / 2;
    HalfParts(x / 2, bit, low, unit, half);
    DrainedParts(low, half, bit, unit, r, Pow2(done));
    hide Value, Scale, NextBit;
    SameParts(Value(u), unit, Value(Top(u, w)), Value(Low(u, w)), x / 2, half);
    assert Pow2(done + 1) == 2 * Pow2(done);
  }

  /** The next bit is the lowest of the quotient. */
  lemma HalveAgainBit(v: nat, n: nat)
    ensures v / Pow2(n) % 2 == NextBit(v, n)
  {
    NextBitOf(v, n);
  }

  lemma HalfParts(h: int, bit: int, low: int, unit: int, half: int)
    requires 0 <= bit <= 1 && 0 <= low < unit && unit % 2 == 0 && low % 2 == 0
    requires half == (bit * unit + low) / 2
    ensures 2 * half == bit * unit + low && 0 <= half < unit
    ensures ((2 * h + bit) * unit + low) / 2 == h * unit + half
  {
    assert bit * unit == if bit == 1 then unit else 0;
    assert (2 * h + bit) * unit == 2 * (h * unit) + bit * unit;
  }

  lemma DrainedParts(low: int, half: int, bit: int, unit: int, r: int, p: int)
    requires 2 * half == bit * unit + low && low * p == r * unit
    ensures half * (2 * p) == (r + bit * p) * unit
  {
    assert half * (2 * p) == (2 * half) * p;
    assert (bit * unit + low) * p == bit * (unit * p) + low * p;
    assert (r + bit * p) * unit == r * unit + bit * (unit * p);
  }

  /** The reverse dabble loop over the bytes of the top. */
  method UndabbleTop(s: Bytes, binary: nat) returns (t: Bytes)
    requires binary <= |s|
    ensures |t| == |s| && Low(t, |s| - binary) == Low(s, |s| - binary)
    ensures Value(Top(s, |s| - binary)) >= 0
    ensures Value(Top(t, |s| - binary)) == Undabbled(Value(Top(s, |s| - binary)))
  {
    var a := new byte[|s|](i requires 0 <= i < |s| => s[i]);
    for index := 0 to binary
      invariant forall k :: 0 <= k < index ==> a[k] == DabbleDownByte(s[k])
      invariant forall k :: index <= k < |s| ==> a[k] == s[k]
    {
      a[index] := DabbleDownByte(a[index]);
    }
    t := a[..];
    ghost var w := |s| - binary;
    ValueRange(Top(s, w));
    UndabbledBytes(Top(s, w), Top(t, w));
  }

  /** One round: a bit of v out of the decimal digits, which halve. */
  method Drain(number: Big, binary: nat, ghost x: nat, ghost v: nat, ghost done: nat) returns (result: Big)
    requires binary <= |number.bytes| && done < 8 * (|number.bytes| - binary)
    requires Draining(number.bytes, |number.bytes| - binary, x, v, done) && AllDecimal(x) && FromBcd(x) == v / Pow2(done)
    ensures |result.bytes| == |number.bytes| && result.positive == number.positive
    ensures
      var y := Undabbled(x / 2);
      Draining(result.bytes, |number.bytes| - binary, y, v, done + 1) && AllDecimal(y) && FromBcd(y) == v / Pow2(done + 1)
  {
    assert Pow2(1) == 2 * Pow2(0);
    HalveDabble(x);
    HalveAgain(v, done);
    var shifted := ShiftRight(number, 1);
    ghost var w := |number.bytes| - binary;
    ShiftDraining(number.bytes, shifted.bytes, w, x, v, done);
    var bytes := UndabbleTop(shifted.bytes, binary);
    result := Big(bytes, number.positive);
  }

  /** The packed digits against the top of the buffer, once aligned to a byte. */
  lemma StartDraining(s: Bytes, binary: nat, h: nat, v: nat)
    requires binary <= |s| && Value(s) == Scale(h, |s| - binary)
    ensures Draining(s, |s| - binary, h, v, 0)
  {
    var w := |s| - binary;
    TopLow(s, w);
    ScaleTimes(h, w);
    assert Pow2(0) == 1;
    SameParts(Value(s), Scale(1, w), Value(Top(s, w)), Value(Low(s, w)), h, 0);
  }

  /** With every bit out, the digits are gone. */
  lemma Drained(bcd: nat, h: nat, v: nat, x: nat)
    requires v == FromBcd(h) && h < Hex(1, bcd) && FromBcd(x) == v / Pow2(4 * bcd)
    ensures x == 0 && v % Pow2(4 * bcd) == v
  {
    FromBcdAtMost(h);
    HexIsPow2(bcd);
    ModUnique(v, 0, v, Pow2(4 * bcd));
    FromBcdAtMost(x);
  }

  lemma {:induction false} HexIsPow2(k: nat)
    ensures Hex(1, k) == Pow2(4 * k)
  {
    if k != 0 {
      HexIsPow2(k - 1);
      assert Pow2(4 * k - 2) == 2 * Pow2(4 * k - 3) && Pow2(4 * k) == 2 * Pow2(4 * k - 1);
    }
  }

  /** Moves an odd number of digits down by half a byte. */
  method Align(packed: Bytes, bcd: nat, positive: bool, ghost h: nat) returns (number: Big)
    requires bcd < |packed| && Value(packed) == Hex(h, 2 * |packed| - bcd)
    ensures number.positive == positive && |number.bytes| == |packed|
    ensures Value(number.bytes) == Scale(h, |packed| - (bcd + 1) / 2)
  {
    number := Big(packed, positive);
    ghost var w := |packed| - (bcd + 1) / 2;
    HexIsScale(h, w);
    if bcd % 2 == 1 {
      number := ShiftRight(number, 4);
      assert Hex(h, 2 * w + 1) == 16 * Hex(h, 2 * w);
      Pow2Small();
    }
  }

  method Parse(str: string) returns (result: Big)
    requires str != ""
    ensures Meaning(result) == ParseSpec(str)
    ensures |result.bytes| == BytesFor(BitLength(Meaning(result).magnitude))
  {
    var positive := true;
    var start := 0;
    if IsSign(str[0]) {
      if str[0] == '-' {
        positive := false;
      }
      start := 1;
    }
    var packed, bcd := PackDigits(str, start);
    ghost var digits := str[start..start + bcd];
    ghost var h, v := BcdValue(digits), NumeralValue(digits);
    BcdIsDecimal(digits);
    result := Align(packed, bcd, positive, h);
    var binary := (bcd + 1) / 2;
    var size := |packed|;
    result := DrainAll(result, binary, bcd, h, v);
    var bytes := Compact(result.bytes);
    result := Big(bytes, positive);
  }

  /** Every bit of the digits moved into the binary part, which is then shifted down. */
  method DrainAll(number: Big, binary: nat, bcd: nat, ghost h: nat, ghost v: nat) returns (result: Big)
    requires binary == (bcd + 1) / 2 && bcd < |number.bytes| && Value(number.bytes) == Scale(h, |number.bytes| - binary)
    requires AllDecimal(h) && FromBcd(h) == v && h < Hex(1, bcd)
    ensures Value(result.bytes) == v
  {
    result := number;
    var size := |number.bytes|;
    ghost var x, w := h, size - binary;
    StartDraining(number.bytes, binary, h, v);
    assert Pow2(0) == 1;
    for done := 0 to bcd * 4
      invariant |result.bytes| == size
      invariant Draining(result.bytes, w, x, v, done) && AllDecimal(x) && FromBcd(x) == v / Pow2(done)
    {
      result := Drain(result, binary, x, v, done);
      x := Undabbled(x / 2);
    }
    Drained(bcd, h, v, x);
    TopLow(result.bytes, w);
    ghost var low := Value(result.bytes);
    result := ShiftRight(result, (size - binary) * 8 - bcd * 4);
    EvenLow(low, v, 4 * bcd, w);
    ModUnique(v * Pow2(8 * w - 4 * bcd), v, 0, Pow2(8 * w - 4 * bcd));
  }
}

/** Decimal text of big integers: the double-dabble printer and the reverse double-dabble
    constructor of core/src/bigint.cpp. */
module Decimal {
  import opened ByteType
  import opened ModArith
  import opened Magnitude
  import opened PowerOfTwo
  import opened Shifts
  import opened BigInt

  // ----- Numerals -----

  function DigitChar(d: nat): char
    requires d < 10
  {
    '0' + d as char
  }

  predicate IsDigit(c: char) {
    '0' <= c <= '9'
  }

  function DigitOf(c: char): (d: nat)
    requires IsDigit(c)
    ensures d < 10
  {
    (c - '0') as int
  }

  const DIGITS := "0123456789"

  lemma DigitsAre(c: char)
    ensures IsDigit(c) <==> c in DIGITS
    ensures IsDigit(c) ==> DIGITS[DigitOf(c)] == c == DigitChar(DigitOf(c))
  {
    if IsDigit(c) {
      assert DIGITS[DigitOf(c)] == c;
    }
  }

  /** The minimal decimal numeral. */
  ghost function Numeral(v: nat): string {
    if v < 10 then [DigitChar(v)] else Numeral(v / 10) + [DigitChar(v % 10)]
  }

  ghost predicate AllDigits(s: string) {
    forall i :: 0 <= i < |s| ==> IsDigit(s[i])
  }

  /** The number a digit string spells. */
  ghost function NumeralValue(s: string): nat
    requires AllDigits(s)
  {
    if |s| == 0 then 0 else 10 * NumeralValue(s[..|s| - 1]) + DigitOf(s[|s| - 1])
  }

  lemma {:induction false} NumeralReads(v: nat)
    ensures AllDigits(Numeral(v)) && NumeralValue(Numeral(v)) == v
    ensures |Numeral(v)| >= 1 && (v != 0 ==> Numeral(v)[0] != '0')
  {
    var s := Numeral(v);
    if v < 10 {
      assert s[..0] == [] && NumeralValue([]) == 0;
    } else {
      NumeralReads(v / 10);
      assert s[..|s| - 1] == Numeral(v / 10);
    }
  }

  // ----- Binary-coded decimal: decimal digits as the hexadecimal digits of a number -----

  ghost predicate AllDecimal(x: nat) {
    x == 0 || (x % 16 <= 9 && AllDecimal(x / 16))
  }

  /** The number the hexadecimal digits spell in base ten. */
  ghost function FromBcd(x: nat): nat {
    if x == 0 then 0 else 10 * FromBcd(x / 16) + x % 16
  }

  /** Three more on every digit above four. */
  function DabbleUp(d: nat): nat { if d > 4 then d + 3 else d }

  ghost function Dabbled(x: nat): nat {
    if x == 0 then 0 else 16 * Dabbled(x / 16) + DabbleUp(x % 16)
  }

  /** Three less on every digit from eight up. */
  function DabbleDown(d: nat): nat { if d >= 8 then d - 3 else d }

  ghost function Undabbled(x: nat): nat {
    if x == 0 then 0 else 16 * Undabbled(x / 16) + DabbleDown(x % 16)
  }

  lemma HexSplit(h: nat, d: nat)
    requires d < 16
    ensures (16 * h + d) / 16 == h && (16 * h + d) % 16 == d
  {
  }

  /** Doubling a dabbled number doubles the decimal one, bringing in a bit. */
  lemma {:induction false} DoubleDabble(x: nat, bit: nat)
    requires AllDecimal(x) && bit <= 1
    ensures AllDecimal(2 * Dabbled(x) + bit) && FromBcd(2 * Dabbled(x) + bit) == 2 * FromBcd(x) + bit
  {
    if x == 0 {
      assert FromBcd(bit) == bit;
      assert AllDecimal(bit);
    } else {
      var h, d := x / 16, x % 16;
      var carry := if d > 4 then 1 else 0;
      var low := 2 * d + bit - 10 * carry;
      DoubleDabble(h, carry);
      HexSplit(2 * Dabbled(h) + carry, low);
      assert 2 * Dabbled(x) + bit == 16 * (2 * Dabbled(h) + carry) + low;
    }
  }

  /** Halving and undabbling halves the decimal number; the bit dropped is its lowest. */
  lemma {:induction false} HalveDabble(x: nat)
    requires AllDecimal(x)
    ensures AllDecimal(Undabbled(x / 2)) && FromBcd(Undabbled(x / 2)) == FromBcd(x) / 2
    ensures x % 2 == FromBcd(x) % 2
  {
    if x != 0 {
      var h, d := x / 16, x % 16;
      HalveDabble(h);
      var y := x / 2;
      var e := 8 * (h % 2) + d / 2;
      assert y == 16 * (h / 2) + e;
      HexSplit(h / 2, e);
      HexSplit(Undabbled(h / 2), DabbleDown(e));
      if y != 0 {
        assert Undabbled(y) == 16 * Undabbled(h / 2) + DabbleDown(e);
      }
      assert DabbleDown(e) == 5 * (h % 2) + d / 2;
    }
  }

  lemma {:induction false} FromBcdAtMost(x: nat)
    ensures FromBcd(x) <= x
    ensures FromBcd(x) == 0 ==> x == 0
  {
    if x != 0 {
      FromBcdAtMost(x / 16);
    }
  }

  /** One byte holds two digits. */
  function DabbleUpByte(b: byte): nat {
    var hi := if b as int / 16 > 4 then b as int + 0x30 else b as int;
    if b as int % 16 > 4 then hi + 0x03 else hi
  }

  function DabbleDownByte(b: byte): byte {
    var hi := if b as int / 16 >= 8 then b as int - 0x30 else b as int;
    if b as int % 16 >= 8 then hi - 0x03 else hi
  }

  lemma DabbledByte(x: nat, b: byte)
    ensures Dabbled(256 * x + b) == 256 * Dabbled(x) + DabbleUpByte(b)
  {
    HexSplit(16 * x + b as int / 16, b as int % 16);
    HexSplit(x, b as int / 16);
    assert 256 * x + b == 16 * (16 * x + b as int / 16) + b as int % 16;
    if 16 * x + b as int / 16 != 0 {
      assert Dabbled(16 * x + b as int / 16) == 16 * Dabbled(x) + DabbleUp(b as int / 16);
    }
  }

  lemma UndabbledByte(x: nat, b: byte)
    ensures Undabbled(256 * x + b) == 256 * Undabbled(x) + DabbleDownByte(b)
  {
    HexSplit(16 * x + b as int / 16, b as int % 16);
    HexSplit(x, b as int / 16);
    assert 256 * x + b == 16 * (16 * x + b as int / 16) + b as int % 16;
    if 16 * x + b as int / 16 != 0 {
      assert Undabbled(16 * x + b as int / 16) == 16 * Undabbled(x) + DabbleDown(b as int / 16);
    }
  }

  /** Decimal digits stay within a byte when dabbled. */
  lemma DecimalByte(x: nat, b: byte)
    requires AllDecimal(256 * x + b)
    ensures DabbleUpByte(b) < 256 && AllDecimal(x)
  {
    HexSplit(16 * x + b as int / 16, b as int % 16);
    HexSplit(x, b as int / 16);
    assert 256 * x + b == 16 * (16 * x + b as int / 16) + b as int % 16;
  }

  /** Dabbling every byte dabbles the number. */
  lemma {:induction false} DabbledBytes(s: seq<byte>, t: seq<byte>)
    requires |s| == |t| && Value(s) >= 0 && forall k :: 0 <= k < |s| ==> t[k] as int == DabbleUpByte(s[k])
    ensures Value(t) == Dabbled(Value(s))
  {
    if |s| != 0 {
      var n := |s| - 1;
      assert s == s[..n] + [s[n]] && t == t[..n] + [t[n]];
      ValueRange(s[..n]);
      ValueAppend(s[..n], s[n]);
      ValueAppend(t[..n], t[n]);
      DabbledBytes(s[..n], t[..n]);
      DabbledByte(Value(s[..n]), s[n]);
    }
  }

  lemma {:induction false} UndabbledBytes(s: seq<byte>, t: seq<byte>)
    requires |s| == |t| && Value(s) >= 0 && forall k :: 0 <= k < |s| ==> t[k] == DabbleDownByte(s[k])
    ensures Value(t) == Undabbled(Value(s))
  {
    if |s| != 0 {
      var n := |s| - 1;
      assert s == s[..n] + [s[n]] && t == t[..n] + [t[n]];
      ValueRange(s[..n]);
      ValueAppend(s[..n], s[n]);
      ValueAppend(t[..n], t[n]);
      UndabbledBytes(s[..n], t[..n]);
      UndabbledByte(Value(s[..n]), s[n]);
    }
  }

  lemma {:induction false} DecimalBytes(s: seq<byte>)
    requires Value(s) >= 0 && AllDecimal(Value(s))
    ensures forall k :: 0 <= k < |s| ==> DabbleUpByte(s[k]) < 256
  {
    if |s| != 0 {
      var n := |s| - 1;
      assert s == s[..n] + [s[n]];
      ValueRange(s[..n]);
      ValueAppend(s[..n], s[n]);
      DecimalByte(Value(s[..n]), s[n]);
      DecimalBytes(s[..n]);
    }
  }
}

/** Bit-serial long division of core/src/bigint.cpp. */
module Division {
  import opened ByteType
  import opened ModArith
  import opened Magnitude
  import opened PowerOfTwo
  import opened Shifts
  import opened BigInt

  /** The leading bits of the dividend before any is brought down: how many bits stay behind. */
  function BitsBehind(dividendBits: nat, divisorBits: nat): nat
    requires 1 <= divisorBits <= dividendBits
  {
    8 * (BytesFor(dividendBits) - BytesFor(divisorBits)) + (dividendBits - divisorBits) % 8
  }

  lemma BehindEnough(m: nat, n: nat)
    requires 1 <= n <= m
    ensures BitsBehind(m, n) >= m - n
  {
  }

  /** The register holds the copied prefix only when the divisor's bits do not end on a byte: the
      index (divisor bits) / 8 is that of the register's last byte otherwise, and one past it
      when they do. The prefix here always has the bytes of the register. */
  lemma PrefixIndex(divisorBits: nat)
    requires divisorBits >= 1
    ensures divisorBits / 8 == BytesFor(divisorBits) - 1 <==> divisorBits % 8 != 0
  {
  }

  /** The bytes from the first significant one, as many as the divisor has. */
  method CopyPrefix(dividend: Bytes, dividendBits: nat, divisorBits: nat) returns (prefix: Bytes, end: nat)
    requires Value(dividend) >= 0 && dividendBits == BitLength(Value(dividend)) && 1 <= divisorBits <= dividendBits
    ensures |prefix| == BytesFor(divisorBits) && end < |dividend|
    ensures end == |dividend| - 1 - (BytesFor(dividendBits) - BytesFor(divisorBits))
    ensures Value(prefix) == Value(dividend) / Pow2(8 * (|dividend| - 1 - end))
  {
    HoldsBits(dividend);
    var sidx := |dividend| - BytesFor(dividendBits);
    end := sidx + BytesFor(divisorBits) - 1;
    var register := new byte[BytesFor(divisorBits)](_ => 0);
    var src := sidx;
    while src <= end
      invariant sidx <= src <= end + 1
      invariant forall k :: 0 <= k < src - sidx ==> register[k] == dividend[sidx + k]
    {
      register[src - sidx] := dividend[src];
      src := src + 1;
    }
    prefix := register[..];
    PrefixValue(dividend, sidx, end, prefix);
  }

  lemma PrefixValue(s: Bytes, sidx: nat, end: nat, prefix: seq<byte>)
    requires sidx <= end < |s| && prefix == s[sidx..end + 1] && LowValue(s, |s| - sidx) == Value(s)
    ensures Value(prefix) == Value(s) / Pow2(8 * (|s| - 1 - end))
  {
    var sig, low := s[sidx..], s[end + 1..];
    ValueTail(s, |s| - sidx);
    assert sig == prefix + low;
    ValueConcat(prefix, low);
    ScaleTimes(Value(prefix), |low|);
    ScaleIsPow2(|low|);
    ValueRange(low);
    ModUnique(Value(s), Value(prefix), Value(low), Pow2(8 * |low|));
  }

  /** bytes with the lowest bit of an even value set. */
  lemma SetLowBit(s: Bytes)
    requires Value(s) % 2 == 0
    ensures s[|s| - 1] as int + 1 < 256
    ensures Value(s[|s| - 1 := s[|s| - 1] as int + 1]) == Value(s) + 1
  {
    var front, last := s[..|s| - 1], s[|s| - 1];
    assert s == front + [last];
    hide Value;
    ValueAppend(front, last);
    EvenLast(Value(s), Value(front), last);
    var t := s[|s| - 1 := last as int + 1];
    assert t == front + [last as int + 1];
    ValueAppend(front, last as int + 1);
  }

  lemma EvenLast(v: int, front: int, last: int)
    requires v == 256 * front + last && v % 2 == 0 && last < 256
    ensures last < 255
  {
    assert v - last == 2 * (128 * front);
  }

  /** Before a subtraction: the bits brought down so far are twice the quotient times the divisor
      plus the remainder, which is less than two divisors. */
  ghost predicate BroughtDown(value: int, divisor: int, behind: nat, quotient: int, remainder: int) {
    && value / Pow2(behind) == 2 * quotient * divisor + remainder
    && 0 <= remainder < 2 * divisor
  }

  lemma StartBroughtDown(v: nat, d: nat, m: nat, n: nat)
    requires d >= 1 && d <= v && m == BitLength(v) && n == BitLength(d) && n <= m
    ensures BroughtDown(v, d, BitsBehind(m, n), 0, v / Pow2(BitsBehind(m, n)))
  {
    var t := BitsBehind(m, n);
    BitLengthRange(v);
    BitLengthRange(d);
    BehindEnough(m, n);
    Pow2Grows(m, n + t);
    Pow2Add(n, t);
    DivBelow(v, Pow2(n), Pow2(t));
    assert Pow2(n) == 2 * Pow2(n - 1);
  }

  /** After a subtraction, bringing down the next bit restores the relation. */
  lemma BringDown(v: nat, d: nat, behind: nat, quotient: int, remainder: int, bit: int)
    requires behind >= 1 && v / Pow2(behind) == quotient * d + remainder && 0 <= remainder < d
    requires bit == v / Pow2(behind - 1) % 2
    ensures BroughtDown(v, d, behind - 1, quotient, 2 * remainder + bit)
  {
    HalveAgain(v, behind - 1);
    var x := v / Pow2(behind - 1);
    assert x == 2 * (x / 2) + x % 2;
    assert 2 * (quotient * d) == 2 * quotient * d;
  }

  /** One digit of the quotient: shift it in and subtract the divisor if it goes. */
  method DivideStep(quotient0: Big, remainder0: Big, divisor: Big, ghost value: nat, ghost behind: nat)
    returns (quotient: Big, remainder: Big)
    requires quotient0.positive && remainder0.positive && divisor.positive
    requires BroughtDown(value, Value(divisor.bytes), behind, Value(quotient0.bytes), Value(remainder0.bytes))
    ensures quotient.positive && remainder.positive
    ensures value / Pow2(behind) == Value(quotient.bytes) * Value(divisor.bytes) + Value(remainder.bytes)
    ensures 0 <= Value(remainder.bytes) < Value(divisor.bytes)
  {
    assert Pow2(1) == 2 * Pow2(0);
    quotient := ShiftLeft(quotient0, 1);
    remainder := remainder0;
    ghost var q, d, r := Value(quotient0.bytes), Value(divisor.bytes), Value(remainder0.bytes);
    var order := Cmp(remainder, divisor);
    if order != Less {
      var b := quotient.bytes;
      SetLowBit(b);
      quotient := Big(b[|b| - 1 := b[|b| - 1] as int + 1], true);
      remainder := Subtract(remainder, divisor);
      assert Value(remainder.bytes) == Meaning(remainder).magnitude;
      assert (2 * q + 1) * d + (r - d) == 2 * q * d + r;
    }
  }

  /** The next bit of the dividend, at the end of the remainder. */
  method AppendBit(remainder0: Big, one: bool) returns (remainder: Big)
    requires remainder0.positive
    ensures remainder.positive
    ensures Value(remainder.bytes) == 2 * Value(remainder0.bytes) + if one then 1 else 0
  {
    assert Pow2(1) == 2 * Pow2(0);
    remainder := ShiftLeft(remainder0, 1);
    if one {
      var b := remainder.bytes;
      SetLowBit(b);
      remainder := Big(b[|b| - 1 := b[|b| - 1] as int + 1], true);
    }
  }

  method LongDivideModulo(dividend: Big, divisor: Big) returns (ok: bool, quotient: Big, remainder: Big)
    requires dividend.positive && divisor.positive
    ensures ok <==> Meaning(divisor).magnitude != 0
    ensures ok ==> quotient.positive && remainder.positive
    ensures ok ==>
      && Meaning(dividend).magnitude == Meaning(quotient).magnitude * Meaning(divisor).magnitude + Meaning(remainder).magnitude
      && Meaning(remainder).magnitude < Meaning(divisor).magnitude
  {
    SingleByte(0);
    quotient, remainder := Big([0], true), Big([0], true);
    var zero := Cmp(divisor, Big([0], true));
    if zero == Equal {
      return false, quotient, remainder;
    }
    ok := true;
    var order := AbsCmp(divisor.bytes, dividend.bytes);
    if order == Greater {
      remainder := dividend;
      return;
    }
    quotient, remainder := DivideLarger(dividend, divisor);
  }

  /** The leading bits of the dividend as the first remainder; bit is the position, in byte src of the
      dividend, of the last bit taken. */
  method FirstRemainder(dividend: Big, m: nat, n: nat) returns (remainder: Big, src: nat, bit: nat)
    requires Value(dividend.bytes) >= 1 && m == BitLength(Value(dividend.bytes)) && 1 <= n <= m
    ensures remainder.positive && src < |dividend.bytes| && bit < 8
    ensures 8 * (|dividend.bytes| - 1 - src) + bit == BitsBehind(m, n)
    ensures Value(remainder.bytes) == Value(dividend.bytes) / Pow2(BitsBehind(m, n))
  {
    hide LowValue, Scale, Pow2, BitLength;
    var prefix;
    prefix, src := CopyPrefix(dividend.bytes, m, n);
    bit := (m - n) % 8;
    remainder := Big(prefix, true);
    remainder := ShiftRight(remainder, bit);
    DivPowers(Value(dividend.bytes), |dividend.bytes| - 1 - src, bit, BitsBehind(m, n));
  }

  /** The empty quotient and the first remainder. */
  method StartDivision(dividend: Big, divisor: Big) returns (quotient: Big, remainder: Big, src: nat, bit: nat)
    requires 1 <= Value(divisor.bytes) <= Value(dividend.bytes)
    ensures quotient.positive && remainder.positive && src < |dividend.bytes| && bit < 8
    ensures BroughtDown(Value(dividend.bytes), Value(divisor.bytes), 8 * (|dividend.bytes| - 1 - src) + bit,
                        Value(quotient.bytes), Value(remainder.bytes))
  {
    hide BroughtDown, LowValue, Scale, Pow2, BitsBehind;
    ghost var v, d := Value(dividend.bytes), Value(divisor.bytes);
    var m := Bits(dividend.bytes);
    var n := Bits(divisor.bytes);
    BitLengthMono(d, v);
    SingleByte(0);
    var room := Resize([0], BytesFor(m));
    quotient := Big(room, true);
    remainder, src, bit := FirstRemainder(dividend, m, n);
    StartBroughtDown(v, d, m, n);
  }

  /** Brings the bit at the given position of the dividend down to the remainder. */
  method NextBit(dividend: Bytes, src: nat, bit: nat, remainder0: Big, ghost d: nat, ghost quotient: int)
    returns (remainder: Big)
    requires src < |dividend| && bit < 8 && remainder0.positive && Value(dividend) >= 0
    requires Value(dividend) / Pow2(8 * (|dividend| - 1 - src) + bit + 1) == quotient * d + Value(remainder0.bytes)
    requires 0 <= Value(remainder0.bytes) < d
    ensures remainder.positive
    ensures BroughtDown(Value(dividend), d, 8 * (|dividend| - 1 - src) + bit, quotient, Value(remainder.bytes))
  {
    hide LowValue, Scale, Pow2, BroughtDown, Value;
    ghost var n := 8 * (|dividend| - 1 - src) + bit;
    BitTest(dividend, n);
    var one := dividend[src] as int / Power(bit) % 2 == 1;
    assert Digit(dividend, n / 8) == dividend[src];
    BringDown(Value(dividend), d, n + 1, quotient, Value(remainder0.bytes), if one then 1 else 0);
    remainder := AppendBit(remainder0, one);
  }

  /** The division proper, when the dividend is at least the divisor. */
  method DivideLarger(dividend: Big, divisor: Big) returns (quotient: Big, remainder: Big)
    requires dividend.positive && divisor.positive
    requires 1 <= Value(divisor.bytes) <= Value(dividend.bytes)
    ensures quotient.positive && remainder.positive
    ensures Value(dividend.bytes) == Value(quotient.bytes) * Value(divisor.bytes) + Value(remainder.bytes)
    ensures 0 <= Value(remainder.bytes) < Value(divisor.bytes)
  {
    ghost var v, d := Value(dividend.bytes), Value(divisor.bytes);
    var src, bit;
    quotient, remainder, src, bit := StartDivision(dividend, divisor);
    var end := |dividend.bytes| - 1;
    while true
      invariant src <= end && bit < 8 && quotient.positive && remainder.positive
      invariant BroughtDown(v, d, 8 * (end - src) + bit, Value(quotient.bytes), Value(remainder.bytes))
      decreases 8 * (end - src) + bit
    {
      quotient, remainder := DivideStep(quotient, remainder, divisor, v, 8 * (end - src) + bit);
      // the mask is 1 << bit
      if bit == 0 {
        src := src + 1;
        if src > end {
          break;
        }
        bit := 7;
      } else {
        bit := bit - 1;
      }
      remainder := NextBit(dividend.bytes, src, bit, remainder, d, Value(quotient.bytes));
    }
    assert Pow2(0) == 1;
  }

  /** Signs are put aside for the division; the remainder is never negative. */
  method DivideModulo(lhs: Big, rhs: Big) returns (ok: bool, quotient: Big, remainder: Big)
    ensures ok <==> ToInt(Meaning(rhs)) != 0
    ensures ok ==> DividesAs(Meaning(lhs), Meaning(rhs), Meaning(quotient), Meaning(remainder))
  {
    ok, quotient, remainder := LongDivideModulo(Big(lhs.bytes, true), Big(rhs.bytes, true));
    if ok {
      quotient := Big(quotient.bytes, lhs.positive == rhs.positive);
    }
  }

  ghost predicate DividesAs(a: Signed, b: Signed, q: Signed, r: Signed) {
    && a.magnitude == q.magnitude * b.magnitude + r.magnitude && r.magnitude < b.magnitude
    && r.positive && q.positive == (a.positive == b.positive)
  }

  /** The result is determined: no other quotient and remainder satisfy the relation. */
  lemma DivisionUnique(a: Signed, b: Signed, q: Signed, r: Signed)
    requires DividesAs(a, b, q, r)
    ensures q.magnitude == a.magnitude / b.magnitude && r.magnitude == a.magnitude % b.magnitude
  {
    ModUnique(a.magnitude, q.magnitude, r.magnitude, b.magnitude);
  }

  /** Quotient and remainder recombine to the dividend unless it is negative and not a multiple. */
  lemma RecombinesExactly(a: Signed, b: Signed, q: Signed, r: Signed)
    requires DividesAs(a, b, q, r)
    ensures ToInt(a) == ToInt(q) * ToInt(b) + ToInt(r) <==> a.positive || a.magnitude % b.magnitude == 0
  {
    SignedProduct(q, b);
    DivisionUnique(a, b, q, r);
  }

  /** -7 divided by 2 is -3, and the remainder is 1. */
  lemma NegativeDividendMisses(q: Signed, r: Signed)
    requires DividesAs(Signed(7, false), Signed(2, true), q, r)
    ensures q == Signed(3, false) && r == Signed(1, true)
    ensures ToInt(q) * 2 + ToInt(r) == -5
  {
    DivisionUnique(Signed(7, false), Signed(2, true), q, r);
  }

  /** A quotient is the negative zero exactly when the signs differ and the divisor is the larger. */
  lemma QuotientNegativeZeroExactly(a: Signed, b: Signed, q: Signed, r: Signed)
    requires DividesAs(a, b, q, r)
    ensures q == Signed(0, false) <==> a.positive != b.positive && a.magnitude < b.magnitude
  {
    if q.magnitude > 0 {
      MulMono(1, q.magnitude, b.magnitude);
    }
  }
}

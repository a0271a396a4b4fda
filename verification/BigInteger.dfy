/** The big integer object of core/src/bigint.cpp, whose operators replace its bytes and its sign. */
module BigInteger {
  import opened ByteType
  import opened Magnitude
  import opened PowerOfTwo
  import opened BigInt
  import opened Division

  class Integer {
    var value: Magnitude.Bytes
    var positive: bool

    ghost function Sign(): Signed
      reads this
    {
      Meaning(Big(value, positive))
    }

    constructor (b: Big)
      ensures value == b.bytes && positive == b.positive
    {
      value, positive := b.bytes, b.positive;
    }

    function Current(): Big
      reads this
    {
      Big(value, positive)
    }

    method Assign(b: Big)
      modifies this
      ensures Current() == b
    {
      value, positive := b.bytes, b.positive;
    }

    /** Drops leading zero bytes. */
    method DropZeros()
      modifies `value
      ensures Sign() == old(Sign()) && |value| == BytesFor(BitLength(Sign().magnitude))
    {
      value := Compact(value);
    }

    /** Plus: exact unless both are negative and the magnitudes do not fit. */
    method AddAssign(rhs: Big)
      modifies this
      ensures Sign() == AddSpec(old(Sign()), Meaning(rhs))
    {
      hide AddSpec, Value;
      var sum := Add(Current(), rhs);
      Assign(sum);
    }

    method SubtractAssign(rhs: Big)
      modifies this
      ensures Sign() == SubtractSpec(old(Sign()), Meaning(rhs))
    {
      hide SubtractSpec, Value;
      var difference := Subtract(Current(), rhs);
      Assign(difference);
    }

    method MultiplyAssign(rhs: Big)
      modifies this
      ensures Sign() == MultiplySpec(old(Sign()), Meaning(rhs))
    {
      hide MultiplySpec, Value;
      var product := Multiply(Current(), rhs);
      Assign(product);
    }

    /** The quotient; false, and nothing changed, where the code throws on a zero divisor. */
    method DivideAssign(rhs: Big) returns (ok: bool)
      modifies this
      ensures ok <==> ToInt(Meaning(rhs)) != 0
      ensures ok ==> Meaning(rhs).magnitude > 0
      ensures ok ==> Sign() == Signed(old(Sign()).magnitude / Meaning(rhs).magnitude, old(positive) == rhs.positive)
      ensures !ok ==> unchanged(this)
    {
      hide Value;
      var quotient, remainder;
      ok, quotient, remainder := DivideModulo(Current(), rhs);
      if ok {
        DivisionUnique(Sign(), Meaning(rhs), Meaning(quotient), Meaning(remainder));
        Assign(quotient);
      }
    }

    /** The remainder, which is never negative. */
    method ModuloAssign(rhs: Big) returns (ok: bool)
      modifies this
      ensures ok <==> ToInt(Meaning(rhs)) != 0
      ensures ok ==> Meaning(rhs).magnitude > 0
      ensures ok ==> Sign() == Signed(old(Sign()).magnitude % Meaning(rhs).magnitude, true)
      ensures !ok ==> unchanged(this)
    {
      hide Value;
      var quotient, remainder;
      ok, quotient, remainder := DivideModulo(Current(), rhs);
      if ok {
        DivisionUnique(Sign(), Meaning(rhs), Meaning(quotient), Meaning(remainder));
        Assign(remainder);
      }
    }

    method ShiftLeftAssign(pos: nat)
      modifies this
      ensures positive == old(positive) && Sign().magnitude == old(Sign()).magnitude * Pow2(pos)
    {
      hide Value;
      var shifted := ShiftLeft(Current(), pos);
      Assign(shifted);
    }

    method ShiftRightAssign(pos: nat)
      requires pos <= 8 * |value|
      modifies this
      ensures positive == old(positive) && |value| == old(|value|)
      ensures Sign().magnitude == old(Sign()).magnitude / Pow2(pos)
    {
      hide Value;
      var shifted := ShiftRight(Current(), pos);
      Assign(shifted);
    }
  }

  /** Adding and subtracting again leads back, to the very sign and magnitude, from x >= 0 and y >= 0. */
  lemma AddThenSubtract(x: Signed, y: Signed)
    requires x.positive && y.positive
    ensures SubtractSpec(AddSpec(x, y), y) == x
  {
    AdderExactly(x, y);
    hide AdderMagnitude;
  }

  /** Dividing and recombining leads back from x >= 0. */
  lemma DivideThenRecombine(x: Signed, y: Signed, q: Signed, r: Signed)
    requires x.positive && y.positive && DividesAs(x, y, q, r)
    ensures AddSpec(MultiplySpec(q, y), r) == x
  {
    MultiplyPositive(q, y);
    AdderExactly(MultiplySpec(q, y), r);
    hide AdderMagnitude, MultiplySpec;
  }
}

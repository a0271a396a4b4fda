/** Blocks of bytes as polynomials over the field of two elements: the first bit of the first byte is
    the constant coefficient, section 6.3 of NIST SP 800-38D. */
module BlockBits {
  import opened ByteType
  import opened ByteXor
  import opened TwosComplement
  import opened ModArith
  import opened PowerOfTwo
  import opened BinaryPolynomial
  import M = Magnitude
  import BigInt
  import Shifts
  import Counter

  /** The bit that the mask 1 << (7 - i % 8) selects in byte i / 8. */
  predicate Bit(s: Bytes, i: nat)
    requires i < 8 * |s|
  {
    s[i / 8] as int / M.Power(7 - i % 8) % 2 == 1
  }

  function Bits(s: Bytes): (p: Poly)
    ensures |p| == 8 * |s|
  {
    seq(8 * |s|, i requires 0 <= i < 8 * |s| => Bit(s, i))
  }

  lemma BitValue(s: Bytes, i: nat)
    requires i < 8 * |s|
    ensures Bit(s, i) <==> M.Value(s) / Pow2(8 * |s| - 1 - i) % 2 == 1
  {
    var n := 8 * |s| - 1 - i;
    assert n / 8 == |s| - 1 - i / 8 && n % 8 == 7 - i % 8;
    BigInt.BitTest(s, n);
  }

  // ----- Exclusive or is the sum -----

  lemma {:induction false} XorBit(x: int, y: int, n: nat, j: nat)
    requires j < n
    ensures (Xor(x, y, n) / Pow2(j) % 2 == 1) <==> (x / Pow2(j) % 2 == 1) != (y / Pow2(j) % 2 == 1)
    decreases n
  {
    XorHalf(x, y, n);
    if j == 0 {
      assert Pow2(0) == 1;
    } else {
      hide Xor;
      XorBit(x / 2, y / 2, n - 1, j - 1);
      HalfFirst(x, j);
      HalfFirst(y, j);
      HalfFirst(Xor(x, y, n), j);
    }
  }

  lemma XorHalf(x: int, y: int, n: nat)
    requires n > 0
    ensures Xor(x, y, n) / 2 == Xor(x / 2, y / 2, n - 1)
    ensures (Xor(x, y, n) % 2 == 1) <==> (x % 2 == 1) != (y % 2 == 1)
  {
  }

  lemma HalfFirst(x: int, j: nat)
    requires j > 0
    ensures x / 2 / Pow2(j - 1) == x / Pow2(j)
  {
    DivDiv(x, 2, Pow2(j - 1));
  }

  lemma XorBits(s: Bytes, t: Bytes)
    requires |s| == |t|
    ensures Bits(XorBytes(s, t)) == Sum(Bits(s), Bits(t))
  {
    forall i | 0 <= i < 8 * |s|
      ensures Bit(XorBytes(s, t), i) == (Bit(s, i) != Bit(t, i))
    {
      XorBit(s[i / 8], t[i / 8], 8, 7 - i % 8);
    }
  }

  // ----- Shifting right moves up -----

  lemma HalfValue(v: int, n: nat)
    ensures v / 2 / Pow2(n) == v / Pow2(n + 1)
  {
    HalfFirst(v, n + 1);
  }

  lemma ShiftedBit(s: Bytes, t: Bytes, i: nat)
    requires |t| == |s| && M.Value(t) == M.Value(s) / 2 && i < 8 * |s|
    ensures Bit(t, i) == (i > 0 && Bit(s, i - 1))
  {
    hide Bit;
    var n := 8 * |s| - 1 - i;
    BitValue(t, i);
    HalfValue(M.Value(s), n);
    if i > 0 {
      BitValue(s, i - 1);
    } else {
      M.LowValueRange(s, |s|);
      M.ScaleIsPow2(|s|);
      ModUnique(M.Value(s), 0, M.Value(s), Pow2(8 * |s|));
    }
  }

  /** Blocks with the same bits are the same. */
  lemma SameBits(s: Bytes, t: Bytes)
    requires Bits(s) == Bits(t)
    ensures s == t
  {
    assert |Bits(s)| == |Bits(t)|;
    forall i | 0 <= i < |s|
      ensures s[i] == t[i]
    {
      forall j: nat | j < 8
        ensures IntBit(s[i], j) == IntBit(t[i], j)
      {
        ByteBit(s, i, 7 - j);
        ByteBit(t, i, 7 - j);
      }
      SameInt(s[i], t[i], 8);
    }
  }

  /** Bit j of a number. */
  ghost predicate IntBit(x: int, j: nat) {
    x / Pow2(j) % 2 == 1
  }

  lemma ByteBit(s: Bytes, i: nat, j: nat)
    requires i < |s| && j < 8
    ensures IntBit(s[i], 7 - j) == Bits(s)[8 * i + j]
  {
    assert (8 * i + j) / 8 == i && (8 * i + j) % 8 == j;
  }

  lemma {:induction false} SameInt(x: int, y: int, n: nat)
    requires 0 <= x < Pow2(n) && 0 <= y < Pow2(n)
    requires forall j: nat :: j < n ==> IntBit(x, j) == IntBit(y, j)
    ensures x == y
  {
    if n != 0 {
      forall j: nat | j < n - 1
        ensures IntBit(x / 2, j) == IntBit(y / 2, j)
      {
        HalfFirst(x, j + 1);
        HalfFirst(y, j + 1);
        assert IntBit(x, j + 1) == IntBit(y, j + 1);
      }
      SameInt(x / 2, y / 2, n - 1);
      assert IntBit(x, 0) == IntBit(y, 0);
    }
  }
}

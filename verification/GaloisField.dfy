/** The multiplication of blocks in crypto/src/block_cipher.cpp: products of polynomials modulo
    x^128 + x^7 + x^2 + x + 1, section 6.3 of NIST SP 800-38D. */
module GaloisField {
  import opened ByteType
  import opened ByteXor
  import opened BinaryPolynomial
  import opened BlockBits
  import opened BufferShift
  import M = Magnitude
  import S = Shifts
  import PowerOfTwo
  import Counter

  type Block = b: Bytes | |b| == 16 witness seq(16, _ => 0)

  /** The modulus. */
  function Modulus(): (g: Poly)
    ensures |g| == 129 && g[128]
  {
    seq(129, i => i == 0 || i == 1 || i == 2 || i == 7 || i == 128)
  }

  function Zero(): Block { seq(16, _ => 0) }

  /** What the modulus leaves of x^128. */
  function Reduction(): Block { seq(16, i => if i == 0 then 0xe1 else 0) }

  /** One place to the right, by one bit across the bytes. */
  function Halved(v: Block): (r: Block)
    ensures M.Value(r) == M.Value(v) / 2
  {
    var r := seq(16, i requires 0 <= i < 16 => S.DownByte(v, i, 1));
    S.ShiftedDownValue(v, r, 1);
    assert M.Power(1) == 2;
    r
  }

  /** Times x. */
  function Doubled(v: Block): Block {
    if Bit(v, 127) then XorBytes(Halved(v), Reduction()) else Halved(v)
  }

  /** The product in the field. */
  function Times(x: Block, y: Block): Block {
    TimesFrom(x, Bits(y), Zero())
  }

  function TimesFrom(v: Block, bits: Poly, z: Block): Block
    decreases |bits|
  {
    if |bits| == 0 then z
    else TimesFrom(Doubled(v), bits[1..], if bits[0] then XorBytes(z, v) else z)
  }

  // ----- The product is the product of polynomials, reduced -----

  lemma ReductionBits(i: nat)
    requires i < 128
    ensures Bit(Reduction(), i) == Modulus()[i]
  {
    if i < 8 {
      assert M.Power(0) == 1 && M.Power(1) == 2 && M.Power(2) == 4 && M.Power(3) == 8;
      assert M.Power(4) == 16 && M.Power(5) == 32 && M.Power(6) == 64 && M.Power(7) == 128;
      assert i == 0 || i == 1 || i == 2 || i == 3 || i == 4 || i == 5 || i == 6 || i == 7;
    } else {
      assert 0 as int / M.Power(7 - i % 8) == 0;
    }
  }

  lemma DoubledBit(v: Block, i: nat)
    requires i < 128
    ensures Bit(Doubled(v), i) == ((i > 0 && Bit(v, i - 1)) != (Bit(v, 127) && Modulus()[i]))
  {
    hide Bit, Modulus;
    ShiftedBit(v, Halved(v), i);
    XorBits(Halved(v), Reduction());
    ReductionBits(i);
    assert Bits(XorBytes(Halved(v), Reduction()))[i] == (Bits(Halved(v))[i] != Bits(Reduction())[i]);
  }

  lemma DoubledMoves(v: Block)
    ensures MovedOnce(Bits(v), Modulus(), Bits(Doubled(v)), 128)
  {
    hide Bit;
    var b, b' := Bits(v), Bits(Doubled(v));
    forall k {:trigger Coef(b', k)}
      ensures Coef(b', k) == (Coef(b, k - 1) != (b[127] && Coef(Modulus(), k)))
    {
      if 0 <= k < 128 {
        DoubledBit(v, k);
      } else if k == 128 {
        assert Modulus()[128];
      }
    }
  }

  /** The loop: what is done so far is the product with the low coefficients. */
  ghost predicate Partial(x: Block, y: Block, i: nat, v: Block, z: Block, q: Poly, c: Poly)
    requires i <= 128
  {
    && |q| == |c| == i
    && Moved(Bits(x), i, Modulus(), q, Bits(v))
    && Remainder(Bits(y)[..i], Bits(x), Modulus(), c, Bits(z))
  }

  lemma PartialStep(x: Block, y: Block, i: nat, v: Block, z: Block, q: Poly, c: Poly) returns (q': Poly, c': Poly)
    requires i < 128 && Partial(x, y, i, v, z, q, c)
    ensures Partial(x, y, i + 1, Doubled(v), if Bit(y, i) then XorBytes(z, v) else z, q', c')
  {
    hide Bit, Modulus, Moved, Remainder, Times;
    DoubledMoves(v);
    MoveStep(Bits(x), i, Modulus(), q, Bits(v), Bits(Doubled(v)), 128);
    XorBits(z, v);
    AddStep(Bits(y)[..i], Bit(y, i), Bits(x), Modulus(), q, Bits(v), c, Bits(z));
    assert Bits(y)[..i + 1] == Bits(y)[..i] + [Bit(y, i)];
    q' := [Bits(v)[127]] + q;
    c' := (if Bit(y, i) then Sum(c, q) else c) + [false];
  }

  lemma {:induction false} TimesFromRemainder(x: Block, y: Block, i: nat, v: Block, z: Block, q: Poly, c: Poly) returns (c': Poly)
    requires i <= 128 && Partial(x, y, i, v, z, q, c)
    ensures |c'| == 128 && Remainder(Bits(y), Bits(x), Modulus(), c', Bits(TimesFrom(v, Bits(y)[i..], z)))
    decreases 128 - i
  {
    if i == 128 {
      assert Bits(y)[..128] == Bits(y);
      c' := c;
    } else {
      hide Partial, Doubled, Bits, Bit, Modulus, Remainder;
      var q1, c1 := PartialStep(x, y, i, v, z, q, c);
      BitsStep(y, i);
      c' := TimesFromRemainder(x, y, i + 1, Doubled(v), if Bit(y, i) then XorBytes(z, v) else z, q1, c1);
    }
  }

  lemma BitsStep(y: Block, i: nat)
    requires i < 128
    ensures Bits(y)[i..][0] == Bit(y, i) && Bits(y)[i..][1..] == Bits(y)[i + 1..]
  {
  }

  lemma ZeroBits(k: int)
    ensures !Coef(Bits(Zero()), k)
  {
    if 0 <= k < 128 {
      assert 0 as int / M.Power(7 - k % 8) == 0;
    }
  }

  lemma PartialStart(x: Block, y: Block)
    ensures Partial(x, y, 0, x, Zero(), [], [])
  {
    hide Bit;
    forall k {:trigger ProductCoef([], Bits(x), k)}
      ensures ProductCoef([], Bits(x), k) == (ProductCoef([], Modulus(), k) != Coef(Bits(Zero()), k))
    {
      ZeroBits(k);
    }
    assert Bits(y)[..0] == [];
  }

  /** y * x == c * modulus + product, and the product has degree below 128. */
  lemma TimesIsRemainder(x: Block, y: Block) returns (c: Poly)
    ensures |c| == 128 && Remainder(Bits(y), Bits(x), Modulus(), c, Bits(Times(x, y)))
  {
    PartialStart(x, y);
    assert Bits(y)[0..] == Bits(y);
    c := TimesFromRemainder(x, y, 0, x, Zero(), [], []);
  }

  /** The product is the only block that is congruent to the product of the polynomials. */
  lemma TimesExactly(x: Block, y: Block, z: Block)
    ensures z == Times(x, y)
      <==> exists c: Poly :: |c| == 128 && Remainder(Bits(y), Bits(x), Modulus(), c, Bits(z))
  {
    hide Bit, Modulus, Remainder;
    var c := TimesIsRemainder(x, y);
    if c' : Poly :| |c'| == 128 && Remainder(Bits(y), Bits(x), Modulus(), c', Bits(z)) {
      RemainderUnique(Bits(y), Bits(x), c, Bits(Times(x, y)), c', Bits(z), Modulus(), 128);
      SameBits(z, Times(x, y));
    }
  }

  lemma TimesCommutes(x: Block, y: Block)
    ensures Times(x, y) == Times(y, x)
  {
    hide Bit, Modulus, Remainder;
    var c := TimesIsRemainder(x, y);
    RemainderCommutes(Bits(y), Bits(x), Modulus(), c, Bits(Times(x, y)));
    TimesExactly(y, x, Times(x, y));
  }

  /** Linear in the second factor, and with the law before it in the first. */
  lemma TimesDistributes(x: Block, y: Block, z: Block)
    ensures Times(x, XorBytes(y, z)) == XorBytes(Times(x, y), Times(x, z))
    ensures Times(XorBytes(y, z), x) == XorBytes(Times(y, x), Times(z, x))
  {
    hide Bit, Modulus, Remainder;
    var c := TimesIsRemainder(x, y);
    var c' := TimesIsRemainder(x, z);
    RemainderOfSum(Bits(y), Bits(z), Bits(x), Modulus(), c, Bits(Times(x, y)), c', Bits(Times(x, z)));
    XorBits(y, z);
    XorBits(Times(x, y), Times(x, z));
    TimesExactly(x, XorBytes(y, z), XorBytes(Times(x, y), Times(x, z)));
    TimesCommutes(x, y);
    TimesCommutes(x, z);
    TimesCommutes(x, XorBytes(y, z));
  }

  // ----- The loop of the code -----

  /** Multiplies in place: z gathers, v is doubled. */
  method Mult(x: Block, y: Block) returns (result: Block)
    ensures result == Times(x, y)
  {
    hide Times, TimesFrom, Bit, Halved;
    var r := new byte[16](i => if i == 0 then 0xe1 else 0);
    var z := new byte[16](_ => 0);
    var v := new byte[16](i requires 0 <= i < 16 => x[i]);
    assert v[..] == x && z[..] == Zero() && r[..] == Reduction();
    TimesStart(x, y);
    for i := 0 to 128
      invariant z.Length == v.Length == 16 && r[..] == Reduction()
      invariant TimesFrom(v[..], Bits(y)[i..], z[..]) == Times(x, y)
    {
      ghost var v0, z0 := v[..], z[..];
      TimesStep(v0, y, i, z0);
      if y[i / 8] as int / M.Power(7 - i % 8) % 2 == 1 {
        var added := XorInPlace(z, v[..]);
      }
      DoubleInPlace(v, r[..]);
    }
    TimesEnd(v[..], y, z[..]);
    result := z[..];
  }

  lemma TimesStart(x: Block, y: Block)
    ensures TimesFrom(x, Bits(y)[0..], Zero()) == Times(x, y)
  {
    assert Bits(y)[0..] == Bits(y);
  }

  lemma TimesStep(v: Block, y: Block, i: nat, z: Block)
    requires i < 128
    ensures (y[i / 8] as int / M.Power(7 - i % 8) % 2 == 1) == Bit(y, i)
    ensures TimesFrom(v, Bits(y)[i..], z)
         == TimesFrom(Doubled(v), Bits(y)[i + 1..], if Bit(y, i) then XorBytes(z, v) else z)
  {
    BitsStep(y, i);
  }

  lemma TimesEnd(v: Block, y: Block, z: Block)
    ensures TimesFrom(v, Bits(y)[128..], z) == z
  {
  }

  /** Shifts right and adds the reduction when a bit falls out. */
  method DoubleInPlace(v: array<byte>, r: Bytes)
    requires v.Length == 16 && r == Reduction()
    modifies v
    ensures v[..] == Doubled(old(v[..]))
  {
    hide M.Value;
    ghost var s: Block := v[..];
    var carry := v[15] % 2 == 1;
    LastBit(s);
    ShiftRight(v, 1);
    assert PowerOfTwo.Pow2(1) == 2;
    SameValue(v[..], Halved(s));
    if carry {
      var reduced := XorInPlace(v, r);
    }
  }

  lemma LastBit(s: Block)
    ensures Bit(s, 127) <==> s[15] % 2 == 1
  {
    assert M.Power(0) == 1;
  }

  lemma SameValue(s: Block, t: Block)
    requires M.Value(s) == M.Value(t)
    ensures s == t
  {
    Counter.SameLowBytes(s, t, 16);
  }
}

/** Inversion by Fermat's little theorem, as in crypto/src/x25519.cpp: x to the power p - 2. */
module Inversion {
  import opened ModArith
  import opened FieldElement
  import opened ConditionalSwap
  import opened PowerOfTwo

  /** x^n in the field. */
  ghost function FPow(x: int, n: nat): (r: int)
    ensures 0 <= r < P
    decreases n
  {
    if n == 0 then 1 else FMul(x, FPow(x, n - 1))
  }

  lemma FMulAssoc(a: int, b: int, c: int)
    ensures FMul(FMul(a, b), c) == FMul(a, FMul(b, c)) == (a * b * c) % P
  {
    FMulReduced(a * b, c);
    FMulReduced(b * c, a);
    assert a * (b * c) == a * b * c && b * c * a == a * (b * c);
    assert FMul(b, c) * a == a * FMul(b, c);
  }

  /** Reducing a factor first changes nothing. */
  lemma FMulReduced(a: int, b: int)
    ensures FMul(a % P, b) == (a * b) % P
  {
    ModMul(a, b, P);
    ModMul(a % P, b, P);
    ModWitness(a % P, 0, P);
    ModIdempotent(a, P);
  }

  lemma ModIdempotent(a: int, m: int)
    requires m > 0
    ensures (a % m) % m == a % m
  {
  }

  lemma {:induction false} FPowAdd(x: int, m: nat, n: nat)
    ensures FMul(FPow(x, m), FPow(x, n)) == FPow(x, m + n)
  {
    if m == 0 {
      assert FMul(1, FPow(x, n)) == FPow(x, n) % P;
    } else {
      FPowAdd(x, m - 1, n);
      FMulAssoc(x, FPow(x, m - 1), FPow(x, n));
    }
  }

  /** The exponent reached once the iterations from 253 down to i are done: the square
      doubles it, and every iteration but 4 and 2 adds one. */
  ghost function Exponent(i: nat): (e: nat)
    requires i <= 254
    decreases 254 - i
  {
    if i == 254 then 1 else 2 * Exponent(i + 1) + (if i == 2 || i == 4 then 0 else 1)
  }

  lemma {:induction false} ExponentOnes(i: nat)
    requires 5 <= i <= 254
    ensures Exponent(i) == Pow2(255 - i) - 1
    decreases 254 - i
  {
    if i < 254 {
      ExponentOnes(i + 1);
    }
  }

  lemma Pow2By64(n: nat)
    ensures Pow2(n + 64) == 0x1_0000_0000_0000_0000 * Pow2(n)
  {
    Pow2By16(n);
    Pow2By16(n + 16);
    Pow2By16(n + 32);
    Pow2By16(n + 48);
  }

  lemma Pow2At58()
    ensures Pow2(58) == 0x400_0000_0000_0000
  {
    SmallPowers();
    hide Pow2;
    Pow2By8(2);
    Pow2By16(10);
    Pow2By16(26);
    Pow2By16(42);
  }

  lemma SmallPowers()
    ensures Pow2(2) == 4
  {
  }

  lemma Pow2At250()
    ensures 32 * Pow2(250) == P + 19
  {
    hide Pow2;
    Pow2At58();
    Pow2By64(58);
    Pow2By64(122);
    Pow2By64(186);
    assert Pow2(122) == 0x400_0000_0000_0000_0000_0000_0000_0000;
    assert Pow2(186) == 0x400_0000_0000_0000_0000_0000_0000_0000_0000_0000_0000_0000;
  }

  /** After the last iteration the exponent is p - 2. */
  lemma ExponentFinal()
    ensures Exponent(0) == P - 2
  {
    ExponentOnes(5);
    Pow2At250();
    hide Pow2;
    assert Exponent(4) == 2 * Exponent(5);
    assert Exponent(3) == 2 * Exponent(4) + 1;
    assert Exponent(2) == 2 * Exponent(3);
    assert Exponent(1) == 2 * Exponent(2) + 1;
  }

  /** One iteration: square, then multiply unless the exponent bit is clear. */
  method PowerStep(result: array<int64>, rhs: array<int64>, i: nat, ghost x: int) returns (next: array<int64>)
    requires result.Length == rhs.Length == 16 && i < 254
    requires Within(result[..], LIMB_LIMIT) && Within(rhs[..], LIMB_LIMIT)
    requires Fe(rhs[..]) == x && Fe(result[..]) == FPow(x, Exponent(i + 1))
    ensures fresh(next) && next.Length == 16 && Reduced(next[..])
    ensures Fe(next[..]) == FPow(x, Exponent(i))
  {
    FPowAdd(x, Exponent(i + 1), Exponent(i + 1));
    next := Mul(result, result);
    if i != 2 && i != 4 {
      next := Mul(next, rhs);
      FMulCommutes(FPow(x, 2 * Exponent(i + 1)), x);
    }
  }

  method Inverse(rhs: array<int64>) returns (result: array<int64>)
    requires rhs.Length == 16 && Within(rhs[..], LIMB_LIMIT)
    ensures fresh(result) && result.Length == 16 && Reduced(result[..])
    ensures Fe(result[..]) == FPow(Fe(rhs[..]), P - 2)
  {
    ghost var x := Fe(rhs[..]);
    result := rhs;
    var i := 253;
    assert FMul(x, 1) == x;
    while i >= 0
      invariant -1 <= i <= 253
      invariant Within(rhs[..], LIMB_LIMIT) && Fe(rhs[..]) == x
      invariant i == 253 ==> result == rhs
      invariant i < 253 ==> fresh(result) && result.Length == 16 && Reduced(result[..])
      invariant Fe(result[..]) == FPow(x, Exponent(i + 1))
    {
      result := PowerStep(result, rhs, i, x);
      i := i - 1;
    }
    ExponentFinal();
  }

  lemma FMulCommutes(a: int, b: int)
    ensures FMul(a, b) == FMul(b, a)
  {
  }
}

/** Words of any number of bits as integers, in two's complement: the bits of a number are its remainder
    by two and those of its floored half, also below zero. Exclusive or and the masks of all zeros and all
    ones are defined bit by bit on that, and hold of bytes, which have no sign, as of 64-bit limbs, which
    have one. */
module TwosComplement {
  import opened PowerOfTwo

  /** x fits in n value bits and a sign bit. */
  ghost predicate Fits(x: int, n: nat)
    decreases n
  {
    if n == 0 then x == 0 || x == -1 else Fits(x / 2, n - 1)
  }

  /** Bitwise exclusive or of two words of n value bits and a sign bit. */
  function Xor(x: int, y: int, n: nat): int
    decreases n
  {
    if n == 0 then (if x == y then 0 else -1)
    else 2 * Xor(x / 2, y / 2, n - 1) + (if x % 2 == y % 2 then 0 else 1)
  }

  /** Bitwise and. */
  function And(x: int, y: int, n: nat): int
    decreases n
  {
    if n == 0 then (if x == -1 && y == -1 then -1 else 0)
    else 2 * And(x / 2, y / 2, n - 1) + (if x % 2 == 1 && y % 2 == 1 then 1 else 0)
  }

  lemma {:induction false} XorCancels(x: int, y: int, n: nat)
    requires Fits(x, n) && Fits(y, n)
    ensures Fits(Xor(x, y, n), n)
    ensures Xor(x, Xor(x, y, n), n) == y && Xor(y, Xor(x, y, n), n) == x
    decreases n
  {
    if n != 0 {
      var z := Xor(x, y, n);
      XorCancels(x / 2, y / 2, n - 1);
      XorHalf(x, y, n);
      XorHalf(x, z, n);
      XorHalf(y, z, n);
      hide Xor;
    }
  }

  /** The halves and the lowest bits of an exclusive or. */
  lemma XorHalf(x: int, y: int, n: nat)
    requires n > 0
    ensures Xor(x, y, n) == 2 * Xor(x / 2, y / 2, n - 1) + (if x % 2 == y % 2 then 0 else 1)
    ensures Xor(x, y, n) / 2 == Xor(x / 2, y / 2, n - 1)
    ensures Xor(x, y, n) % 2 == if x % 2 == y % 2 then 0 else 1
  {
  }

  lemma {:induction false} XorZero(x: int, n: nat)
    requires Fits(x, n)
    ensures Xor(x, 0, n) == x
    decreases n
  {
    if n != 0 {
      XorZero(x / 2, n - 1);
    }
  }

  /** Masking with all zeros clears a word, masking with all ones keeps it. */
  lemma {:induction false} AndMask(y: int, n: nat)
    requires Fits(y, n)
    ensures And(0, y, n) == 0 && And(-1, y, n) == y
    decreases n
  {
    if n != 0 {
      AndMask(y / 2, n - 1);
    }
  }

  lemma {:induction false} FitsRange(x: int, n: nat)
    ensures Fits(x, n) <==> -Pow2(n) <= x < Pow2(n)
    decreases n
  {
    if n != 0 {
      FitsRange(x / 2, n - 1);
    }
  }
}

/** The column matrices of AES and their inverse, sections 5.1.3 and 5.3.3 of FIPS 197. Every product
    with a small constant is a sum of doublings, and doubling is linear, so the product of both matrices is a
    sum of doublings of single bytes, in which all cancels but the byte of the same row. */
module AesMix {
  import opened AesTables
  import opened AesField

  function Sum3(p: bv8, q: bv8, r: bv8): bv8 { p ^ q ^ r }

  function Sum4(p: bv8, q: bv8, r: bv8, s: bv8): bv8 { p ^ q ^ r ^ s }

  /** One row of the forward matrix: 2, 3, 1, 1. */
  function Mix(a: bv8, b: bv8, c: bv8, d: bv8): bv8 {
    Sum4(Multiply(2, a), Multiply(3, b), c, d)
  }

  /** One row of the inverse matrix: 14, 11, 13, 9. */
  function Unmix(a: bv8, b: bv8, c: bv8, d: bv8): bv8 {
    Sum4(Multiply(14, a), Multiply(11, b), Multiply(13, c), Multiply(9, d))
  }

  /** Doubled k times. Lemmas about one doubling take k as a parameter, since the verifier unfolds a
      recursion over a literal. */
  function Doubled(k: nat, x: bv8): bv8 {
    if k == 0 then x else Twice(Doubled(k - 1, x))
  }

  function Sum5(p: bv8, q: bv8, r: bv8, s: bv8, t: bv8): bv8 {
    Add(Add(Add(p, q), Add(r, s)), t)
  }

  lemma {:induction false} DoubledSum(k: nat, p: bv8, q: bv8, r: bv8, s: bv8, t: bv8)
    ensures Doubled(k, Sum5(p, q, r, s, t)) == Sum5(Doubled(k, p), Doubled(k, q), Doubled(k, r), Doubled(k, s), Doubled(k, t))
  {
    hide Add, Twice, Sum5;
    if k != 0 {
      DoubledSum(k - 1, p, q, r, s, t);
      TwiceSum5(Doubled(k - 1, p), Doubled(k - 1, q), Doubled(k - 1, r), Doubled(k - 1, s), Doubled(k - 1, t));
    }
  }

  lemma TwiceSum5(p: bv8, q: bv8, r: bv8, s: bv8, t: bv8)
    ensures Twice(Sum5(p, q, r, s, t)) == Sum5(Twice(p), Twice(q), Twice(r), Twice(s), Twice(t))
  {
    hide Add, Twice;
    TwiceSum(p, q);
    TwiceSum(r, s);
    TwiceSum(Add(p, q), Add(r, s));
    TwiceSum(Add(Add(p, q), Add(r, s)), t);
  }

  lemma LogSumCommutes(i: bv8, j: bv8)
    ensures LogSum(i, j) == LogSum(j, i)
  {
  }

  lemma MultiplyCommutes(x: bv8, y: bv8)
    ensures Multiply(x, y) == Multiply(y, x)
  {
    LogSumCommutes(Log(x), Log(y));
    hide Log, Alog, LogSum;
  }

  /** Multiplying by a number of four bits adds up doublings. */
  lemma MultiplySmall(c: bv8, x: bv8, n: nat)
    requires c < 16 && n == BITS
    ensures Multiply(c, x) == Nibble(c, x, Doubled(n - 7, x), Doubled(n - 6, x), Doubled(n - 5, x))
  {
    MultiplyCommutes(c, x);
    TablesAgreeIn(x, c, n);
    NibbleHalves(c);
    hide Multiply, Twice, Half, Selected, ShiftAdd;
    var d1, d2, d3 := Twice(x), Twice(Twice(x)), Twice(Twice(Twice(x)));
    var m1 := Selected(c, 0, x);
    var m2 := Selected(c >> 1, m1, d1);
    var m3 := Selected(c >> 2, m2, d2);
    var m4 := Selected(c >> 3, m3, d3);
    BitStep(x, c, 0, n, c >> 1, m1);
    BitStep(d1, c >> 1, m1, n - 1, c >> 2, m2);
    BitStep(d2, c >> 2, m2, n - 2, c >> 3, m3);
    BitStep(d3, c >> 3, m3, n - 3, 0, m4);
    RestIsZero(Twice(d3), m4, n - 4);
    NibbleSum(c, x, d1, d2, d3);
    DoubledSteps(x, n - 7);
  }

  /** The sum of the values that the low four bits select. */
  function Nibble(c: bv8, x: bv8, d1: bv8, d2: bv8, d3: bv8): bv8 {
    (if c & 1 == 1 then x else 0) ^ (if c & 2 == 2 then d1 else 0)
    ^ (if c & 4 == 4 then d2 else 0) ^ (if c & 8 == 8 then d3 else 0)
  }

  lemma DoubledSteps(x: bv8, n: nat)
    requires n == 1
    ensures Doubled(n, x) == Twice(x) && Doubled(n + 1, x) == Twice(Twice(x)) && Doubled(n + 2, x) == Twice(Twice(Twice(x)))
  {
    hide Twice;
    assert Doubled(n - 1, x) == x;
    assert Doubled(n + 1, x) == Twice(Doubled(n, x));
  }

  lemma NibbleHalves(c: bv8)
    requires c < 16
    ensures Half(c) == c >> 1 && Half(c >> 1) == c >> 2 && Half(c >> 2) == c >> 3 && Half(c >> 3) == 0
  {
  }

  lemma NibbleSum(c: bv8, x: bv8, d1: bv8, d2: bv8, d3: bv8)
    requires c < 16
    ensures Selected(c >> 3, Selected(c >> 2, Selected(c >> 1, Selected(c, 0, x), d1), d2), d3) == Nibble(c, x, d1, d2, d3)
  {
    NibbleBits(c);
    hide Odd, Selected;
    SelectedAdds(c, c & 1 == 1, 0, x);
    SelectedAdds(c >> 1, c & 2 == 2, Selected(c, 0, x), d1);
    SelectedAdds(c >> 2, c & 4 == 4, Selected(c >> 1, Selected(c, 0, x), d1), d2);
    SelectedAdds(c >> 3, c & 8 == 8, Selected(c >> 2, Selected(c >> 1, Selected(c, 0, x), d1), d2), d3);
  }

  lemma NibbleBits(c: bv8)
    ensures Odd(c) == (c & 1 == 1) && Odd(c >> 1) == (c & 2 == 2)
    ensures Odd(c >> 2) == (c & 4 == 4) && Odd(c >> 3) == (c & 8 == 8)
  {
  }

  lemma SelectedAdds(y: bv8, b: bool, m: bv8, x: bv8)
    requires Odd(y) == b
    ensures Selected(y, m, x) == m ^ (if b then x else 0)
  {
    hide Odd;
  }

  lemma {:induction false} RestIsZero(x: bv8, m: bv8, n: nat)
    ensures ShiftAdd(x, 0, m, n) == m
    decreases n
  {
    hide Twice;
    if n != 0 {
      ZeroBits();
      RestIsZero(Twice(x), m, n - 1);
    }
  }

  // ----- The matrices are inverse to each other -----

  lemma MixIs(a: bv8, b: bv8, c: bv8, d: bv8, k: nat)
    requires k == 1
    ensures Mix(a, b, c, d) == Sum5(Doubled(k, a), Doubled(k, b), b, c, d)
  {
    hide Sum4, Sum5, Multiply, Doubled, Nibble;
    MultiplySmall(2, a, k + 7);
    MultiplySmall(3, b, k + 7);
    Nibble2(a, Doubled(k, a), Doubled(k + 1, a), Doubled(k + 2, a));
    Nibble3(b, Doubled(k, b), Doubled(k + 1, b), Doubled(k + 2, b));
    MixTerms(Doubled(k, a), Doubled(k, b), b, c, d);
  }

  lemma MixTerms(a1: bv8, b1: bv8, b: bv8, c: bv8, d: bv8)
    ensures Sum4(a1, b ^ b1, c, d) == Sum5(a1, b1, b, c, d)
  {
  }

  lemma Nibble2(x: bv8, d1: bv8, d2: bv8, d3: bv8)
    ensures Nibble(2, x, d1, d2, d3) == d1
  {
  }

  lemma Nibble3(x: bv8, d1: bv8, d2: bv8, d3: bv8)
    ensures Nibble(3, x, d1, d2, d3) == x ^ d1
  {
  }

  lemma Nibble14(x: bv8, d1: bv8, d2: bv8, d3: bv8)
    ensures Nibble(14, x, d1, d2, d3) == Sum3(d1, d2, d3)
  {
  }

  lemma Nibble11(x: bv8, d1: bv8, d2: bv8, d3: bv8)
    ensures Nibble(11, x, d1, d2, d3) == Sum3(x, d1, d3)
  {
  }

  lemma Nibble13(x: bv8, d1: bv8, d2: bv8, d3: bv8)
    ensures Nibble(13, x, d1, d2, d3) == Sum3(x, d2, d3)
  {
  }

  lemma Nibble9(x: bv8, d1: bv8, d2: bv8, d3: bv8)
    ensures Nibble(9, x, d1, d2, d3) == Add(x, d3)
  {
  }

  lemma MultiplyRow(x: bv8, k: nat)
    requires k == 1
    ensures Multiply(14, x) == Sum3(Doubled(k, x), Doubled(k + 1, x), Doubled(k + 2, x))
    ensures Multiply(11, x) == Sum3(x, Doubled(k, x), Doubled(k + 2, x))
    ensures Multiply(13, x) == Sum3(x, Doubled(k + 1, x), Doubled(k + 2, x))
    ensures Multiply(9, x) == Add(x, Doubled(k + 2, x))
  {
    hide Multiply, Doubled, Nibble, Sum3, Add;
    MultiplySmall(14, x, k + 7);
    MultiplySmall(11, x, k + 7);
    MultiplySmall(13, x, k + 7);
    MultiplySmall(9, x, k + 7);
    Nibble14(x, Doubled(k, x), Doubled(k + 1, x), Doubled(k + 2, x));
    Nibble11(x, Doubled(k, x), Doubled(k + 1, x), Doubled(k + 2, x));
    Nibble13(x, Doubled(k, x), Doubled(k + 1, x), Doubled(k + 2, x));
    Nibble9(x, Doubled(k, x), Doubled(k + 1, x), Doubled(k + 2, x));
  }

  /** A row of the inverse matrix in doublings: 14 = 8 + 4 + 2, 11 = 8 + 2 + 1, 13 = 8 + 4 + 1, 9 = 8 + 1. */
  lemma UnmixIs(p: bv8, q: bv8, r: bv8, s: bv8, k: nat)
    requires k == 1
    ensures Unmix(p, q, r, s) == Weighted(Doubled(k, p), Doubled(k + 1, p), Doubled(k + 2, p),
      q, Doubled(k, q), Doubled(k + 2, q), r, Doubled(k + 1, r), Doubled(k + 2, r), s, Doubled(k + 2, s))
  {
    MultiplyRow(p, k);
    MultiplyRow(q, k);
    MultiplyRow(r, k);
    MultiplyRow(s, k);
    hide Sum3, Sum4, Add, Multiply, Doubled, Weighted;
    WeightedIs(Doubled(k, p), Doubled(k + 1, p), Doubled(k + 2, p),
      q, Doubled(k, q), Doubled(k + 2, q), r, Doubled(k + 1, r), Doubled(k + 2, r), s, Doubled(k + 2, s));
  }

  function Weighted(p1: bv8, p2: bv8, p3: bv8, q0: bv8, q1: bv8, q3: bv8, r0: bv8, r2: bv8, r3: bv8, s0: bv8, s3: bv8): bv8 {
    p1 ^ p2 ^ p3 ^ q0 ^ q1 ^ q3 ^ r0 ^ r2 ^ r3 ^ s0 ^ s3
  }

  lemma WeightedRaw(p1: bv8, p2: bv8, p3: bv8, q0: bv8, q1: bv8, q3: bv8, r0: bv8, r2: bv8, r3: bv8, s0: bv8, s3: bv8)
    ensures Sum4(p1 ^ p2 ^ p3, q0 ^ q1 ^ q3, r0 ^ r2 ^ r3, s0 ^ s3)
      == p1 ^ p2 ^ p3 ^ q0 ^ q1 ^ q3 ^ r0 ^ r2 ^ r3 ^ s0 ^ s3
  {
  }

  lemma Sum3Is(p: bv8, q: bv8, r: bv8)
    ensures Sum3(p, q, r) == p ^ q ^ r
  {
  }

  lemma WeightedIs(p1: bv8, p2: bv8, p3: bv8, q0: bv8, q1: bv8, q3: bv8, r0: bv8, r2: bv8, r3: bv8, s0: bv8, s3: bv8)
    ensures Sum4(Sum3(p1, p2, p3), Sum3(q0, q1, q3), Sum3(r0, r2, r3), Add(s0, s3))
      == Weighted(p1, p2, p3, q0, q1, q3, r0, r2, r3, s0, s3)
  {
    hide Sum3, Sum4;
    WeightedRaw(p1, p2, p3, q0, q1, q3, r0, r2, r3, s0, s3);
    Sum3Is(p1, p2, p3);
    Sum3Is(q0, q1, q3);
    Sum3Is(r0, r2, r3);
  }

  /** A doubled row of the forward matrix. */
  lemma DoubledMix(j: nat, a: bv8, b: bv8, c: bv8, d: bv8, k: nat)
    requires k == 1
    ensures Doubled(j, Mix(a, b, c, d))
      == Sum5(Doubled(j + k, a), Doubled(j + k, b), Doubled(j, b), Doubled(j, c), Doubled(j, d))
  {
    MixIs(a, b, c, d, k);
    DoubledTwice(j, a, k);
    DoubledTwice(j, b, k);
    hide Mix, Sum5, Doubled;
    DoubledSum(j, Doubled(k, a), Doubled(k, b), b, c, d);
  }

  lemma Sum5Is(p: bv8, q: bv8, r: bv8, s: bv8, t: bv8)
    ensures Sum5(p, q, r, s, t) == p ^ q ^ r ^ s ^ t
  {
  }

  lemma {:induction false} DoubledTwice(j: nat, x: bv8, k: nat)
    ensures Doubled(j, Doubled(k, x)) == Doubled(j + k, x)
  {
    hide Twice;
    if j != 0 {
      DoubledTwice(j - 1, x, k);
    }
  }

  /** The product of the matrices is the identity: all other terms cancel. */
  lemma Cancelled(a0: bv8, a1: bv8, a2: bv8, a3: bv8, a4: bv8, b0: bv8, b1: bv8, b2: bv8, b3: bv8, b4: bv8,
                  c0: bv8, c1: bv8, c2: bv8, c3: bv8, c4: bv8, d0: bv8, d1: bv8, d2: bv8, d3: bv8, d4: bv8)
    ensures Weighted(a2 ^ b2 ^ b1 ^ c1 ^ d1, a3 ^ b3 ^ b2 ^ c2 ^ d2, a4 ^ b4 ^ b3 ^ c3 ^ d3,
      b1 ^ c1 ^ c0 ^ d0 ^ a0, b2 ^ c2 ^ c1 ^ d1 ^ a1, b4 ^ c4 ^ c3 ^ d3 ^ a3,
      c1 ^ d1 ^ d0 ^ a0 ^ b0, c3 ^ d3 ^ d2 ^ a2 ^ b2, c4 ^ d4 ^ d3 ^ a3 ^ b3,
      d1 ^ a1 ^ a0 ^ b0 ^ c0, d4 ^ a4 ^ a3 ^ b3 ^ c3) == a0
  {
  }

  lemma CancelledSums(a0: bv8, a1: bv8, a2: bv8, a3: bv8, a4: bv8, b0: bv8, b1: bv8, b2: bv8, b3: bv8, b4: bv8,
                      c0: bv8, c1: bv8, c2: bv8, c3: bv8, c4: bv8, d0: bv8, d1: bv8, d2: bv8, d3: bv8, d4: bv8)
    ensures Weighted(Sum5(a2, b2, b1, c1, d1), Sum5(a3, b3, b2, c2, d2), Sum5(a4, b4, b3, c3, d3),
      Sum5(b1, c1, c0, d0, a0), Sum5(b2, c2, c1, d1, a1), Sum5(b4, c4, c3, d3, a3),
      Sum5(c1, d1, d0, a0, b0), Sum5(c3, d3, d2, a2, b2), Sum5(c4, d4, d3, a3, b3),
      Sum5(d1, a1, a0, b0, c0), Sum5(d4, a4, a3, b3, c3)) == a0
  {
    hide Sum5, Weighted;
    Sum5Is(a2, b2, b1, c1, d1);
    Sum5Is(a3, b3, b2, c2, d2);
    Sum5Is(a4, b4, b3, c3, d3);
    Sum5Is(b1, c1, c0, d0, a0);
    Sum5Is(b2, c2, c1, d1, a1);
    Sum5Is(b4, c4, c3, d3, a3);
    Sum5Is(c1, d1, d0, a0, b0);
    Sum5Is(c3, d3, d2, a2, b2);
    Sum5Is(c4, d4, d3, a3, b3);
    Sum5Is(d1, a1, a0, b0, c0);
    Sum5Is(d4, a4, a3, b3, c3);
    Cancelled(a0, a1, a2, a3, a4, b0, b1, b2, b3, b4, c0, c1, c2, c3, c4, d0, d1, d2, d3, d4);
  }

  /** The first row of the inverse matrix gives back the first byte of a column. */
  lemma UnmixMix(a: bv8, b: bv8, c: bv8, d: bv8)
    ensures Unmix(Mix(a, b, c, d), Mix(b, c, d, a), Mix(c, d, a, b), Mix(d, a, b, c)) == a
  {
    hide Mix, Unmix;
    UnmixMixOnce(a, b, c, d, 1);
  }

  lemma UnmixMixOnce(a: bv8, b: bv8, c: bv8, d: bv8, k: nat)
    requires k == 1
    ensures Unmix(Mix(a, b, c, d), Mix(b, c, d, a), Mix(c, d, a, b), Mix(d, a, b, c)) == a
  {
    hide Mix, Unmix, Weighted, Twice, Sum5;
    DoubledNone(a, k - 1);
    DoubledNone(b, k - 1);
    DoubledNone(c, k - 1);
    DoubledNone(d, k - 1);
    DoubledNone(Mix(b, c, d, a), k - 1);
    DoubledNone(Mix(c, d, a, b), k - 1);
    DoubledNone(Mix(d, a, b, c), k - 1);
    hide Doubled;
    UnmixIs(Mix(a, b, c, d), Mix(b, c, d, a), Mix(c, d, a, b), Mix(d, a, b, c), k);
    DoubledMix(k, a, b, c, d, k);
    DoubledMix(k + 1, a, b, c, d, k);
    DoubledMix(k + 2, a, b, c, d, k);
    DoubledMix(k - 1, b, c, d, a, k);
    DoubledMix(k, b, c, d, a, k);
    DoubledMix(k + 2, b, c, d, a, k);
    DoubledMix(k - 1, c, d, a, b, k);
    DoubledMix(k + 1, c, d, a, b, k);
    DoubledMix(k + 2, c, d, a, b, k);
    DoubledMix(k - 1, d, a, b, c, k);
    DoubledMix(k + 2, d, a, b, c, k);
    CancelledSums(Doubled(k - 1, a), Doubled(k, a), Doubled(k + 1, a), Doubled(k + 2, a), Doubled(k + 3, a),
      Doubled(k - 1, b), Doubled(k, b), Doubled(k + 1, b), Doubled(k + 2, b), Doubled(k + 3, b),
      Doubled(k - 1, c), Doubled(k, c), Doubled(k + 1, c), Doubled(k + 2, c), Doubled(k + 3, c),
      Doubled(k - 1, d), Doubled(k, d), Doubled(k + 1, d), Doubled(k + 2, d), Doubled(k + 3, d));
  }

  lemma DoubledNone(x: bv8, n: nat)
    requires n == 0
    ensures Doubled(n, x) == x
  {
  }
}

/** Polynomials over the field of two elements, lowest coefficient first. */
module BinaryPolynomial {

  type Poly = seq<bool>

  predicate Coef(p: Poly, k: int) {
    0 <= k < |p| && p[k]
  }

  /** Coefficient k of the product: the sum of p_i q_(k-i). */
  predicate ProductCoef(p: Poly, q: Poly, k: int) {
    |p| != 0 && ((p[0] && Coef(q, k)) != ProductCoef(p[1..], q, k - 1))
  }

  /** Coefficient-wise sum of polynomials of one length. */
  function Sum(p: Poly, q: Poly): (r: Poly)
    requires |p| == |q|
    ensures |r| == |p|
  {
    seq(|p|, i requires 0 <= i < |p| => p[i] != q[i])
  }

  lemma {:induction false} ProductOfSum(p: Poly, q: Poly, r: Poly, k: int)
    requires |p| == |q|
    ensures ProductCoef(Sum(p, q), r, k) == (ProductCoef(p, r, k) != ProductCoef(q, r, k))
  {
    if |p| != 0 {
      assert Sum(p, q)[1..] == Sum(p[1..], q[1..]);
      ProductOfSum(p[1..], q[1..], r, k - 1);
    }
  }

  lemma {:induction false} ProductWithSum(p: Poly, q: Poly, r: Poly, k: int)
    requires |q| == |r|
    ensures ProductCoef(p, Sum(q, r), k) == (ProductCoef(p, q, k) != ProductCoef(p, r, k))
  {
    if |p| != 0 {
      ProductWithSum(p[1..], q, r, k - 1);
    }
  }

  /** A further coefficient adds q moved up to its place. */
  lemma {:induction false} ProductAppend(p: Poly, b: bool, q: Poly, k: int)
    ensures ProductCoef(p + [b], q, k) == (ProductCoef(p, q, k) != (b && Coef(q, k - |p|)))
  {
    if |p| == 0 {
      assert ProductCoef((p + [b])[1..], q, k - 1) == false;
    } else {
      assert (p + [b])[1..] == p[1..] + [b];
      ProductAppend(p[1..], b, q, k - 1);
    }
  }

  lemma {:induction false} ProductByNothing(p: Poly, k: int)
    ensures !ProductCoef(p, [], k)
  {
    if |p| != 0 {
      ProductByNothing(p[1..], k - 1);
    }
  }

  /** The second factor coefficient by coefficient. */
  lemma {:induction false} ProductPrepend(p: Poly, b: bool, q: Poly, k: int)
    ensures ProductCoef(p, [b] + q, k) == ((b && Coef(p, k)) != ProductCoef(p, q, k - 1))
  {
    if |p| != 0 {
      ProductPrepend(p[1..], b, q, k - 1);
      assert Coef([b] + q, k) == if k == 0 then b else Coef(q, k - 1);
      assert Coef(p, k) == if k == 0 then p[0] else Coef(p[1..], k - 1);
      if k <= 0 {
        ProductNegative(p[1..], q, k - 2);
        ProductNegative(p, q, k - 1);
      }
    }
  }

  lemma {:induction false} ProductNegative(p: Poly, q: Poly, k: int)
    requires k < 0
    ensures !ProductCoef(p, q, k)
  {
    if |p| != 0 {
      ProductNegative(p[1..], q, k - 1);
    }
  }

  lemma {:induction false} ProductCommutes(p: Poly, q: Poly, k: int)
    ensures ProductCoef(p, q, k) == ProductCoef(q, p, k)
  {
    if |p| == 0 {
      ProductByNothing(q, k);
    } else {
      ProductCommutes(p[1..], q, k - 1);
      ProductPrepend(q, p[0], p[1..], k);
      assert p == [p[0]] + p[1..];
    }
  }

  lemma {:induction false} ProductDegree(p: Poly, q: Poly, k: int)
    requires |p| != 0 && |q| != 0 && k >= |p| + |q| - 1
    ensures !ProductCoef(p, q, k)
  {
    if |p| > 1 {
      ProductDegree(p[1..], q, k - 1);
    } else {
      assert p[1..] == [];
    }
  }

  // ----- Division with remainder -----

  /** p * x == c * g + r, coefficient by coefficient. */
  ghost predicate Remainder(p: Poly, x: Poly, g: Poly, c: Poly, r: Poly) {
    forall k {:trigger ProductCoef(p, x, k)} :: ProductCoef(p, x, k) == (ProductCoef(c, g, k) != Coef(r, k))
  }

  /** A nonzero multiple of g, whose degree is n, has a coefficient at n or above. */
  lemma {:induction false} MultipleIsLarge(c: Poly, g: Poly, n: nat) returns (k: nat)
    requires |g| == n + 1 && g[n] && exists i :: 0 <= i < |c| && c[i]
    ensures k >= n && ProductCoef(c, g, k)
  {
    var last := |c| - 1;
    var low := c[..last];
    assert c == low + [c[last]];
    if c[last] {
      k := last + n;
      ProductAppend(low, true, g, k);
      if |low| != 0 {
        ProductDegree(low, g, k);
      }
    } else {
      var i :| 0 <= i < |c| && c[i];
      assert low[i];
      k := MultipleIsLarge(low, g, n);
      ProductAppend(low, false, g, k);
    }
  }

  lemma HighCoefs(p: Poly, x: Poly, c: Poly, r: Poly, c': Poly, r': Poly, g: Poly, k: nat)
    requires Remainder(p, x, g, c, r) && Remainder(p, x, g, c', r') && k >= |r| && k >= |r'|
    ensures ProductCoef(c, g, k) == ProductCoef(c', g, k)
  {
    assert ProductCoef(p, x, k) == (ProductCoef(c, g, k) != Coef(r, k));
  }

  /** Quotients of one length and remainders below the degree of g are the only ones. */
  lemma RemainderUnique(p: Poly, x: Poly, c: Poly, r: Poly, c': Poly, r': Poly, g: Poly, n: nat)
    requires |g| == n + 1 && g[n] && |c| == |c'| && |r| == |r'| == n
    requires Remainder(p, x, g, c, r) && Remainder(p, x, g, c', r')
    ensures r == r'
  {
    var d := Sum(c, c');
    if i :| 0 <= i < |c| && c[i] != c'[i] {
      assert d[i];
      var k := MultipleIsLarge(d, g, n);
      ProductOfSum(c, c', g, k);
      HighCoefs(p, x, c, r, c', r', g, k);
      assert false;
    }
    assert c == c';
    forall k | 0 <= k < n
      ensures r[k] == r'[k]
    {
      assert ProductCoef(p, x, k) == (ProductCoef(c, g, k) != Coef(r, k));
    }
  }

  /** Remainders add up in either factor. */
  lemma RemainderOfSum(p: Poly, q: Poly, x: Poly, g: Poly, c: Poly, r: Poly, c': Poly, r': Poly)
    requires |p| == |q| && |c| == |c'| && |r| == |r'|
    requires Remainder(p, x, g, c, r) && Remainder(q, x, g, c', r')
    ensures Remainder(Sum(p, q), x, g, Sum(c, c'), Sum(r, r'))
  {
    forall k {:trigger ProductCoef(Sum(p, q), x, k)}
      ensures ProductCoef(Sum(p, q), x, k) == (ProductCoef(Sum(c, c'), g, k) != Coef(Sum(r, r'), k))
    {
      ProductOfSum(p, q, x, k);
      ProductOfSum(c, c', g, k);
      assert Coef(Sum(r, r'), k) == (Coef(r, k) != Coef(r', k));
    }
  }

  lemma RemainderCommutes(p: Poly, x: Poly, g: Poly, c: Poly, r: Poly)
    requires Remainder(p, x, g, c, r)
    ensures Remainder(x, p, g, c, r)
  {
    forall k {:trigger ProductCoef(x, p, k)}
      ensures ProductCoef(x, p, k) == (ProductCoef(c, g, k) != Coef(r, k))
    {
      ProductCommutes(p, x, k);
    }
  }

  // ----- The product bit by bit, the second factor doubled as it goes -----

  /** The second factor moved up by i places: x * X^i == c * g + v. */
  ghost predicate Moved(x: Poly, i: nat, g: Poly, c: Poly, v: Poly) {
    forall k {:trigger Coef(v, k)} :: Coef(x, k - i) == (ProductCoef(c, g, k) != Coef(v, k))
  }

  /** v moved up once and reduced. */
  ghost predicate MovedOnce(v: Poly, g: Poly, v': Poly, n: nat)
    requires |v| == n > 0
  {
    forall k {:trigger Coef(v', k)} :: Coef(v', k) == (Coef(v, k - 1) != (v[n - 1] && Coef(g, k)))
  }

  lemma MoveStep(x: Poly, i: nat, g: Poly, c: Poly, v: Poly, v': Poly, n: nat)
    requires |v| == n > 0 && Moved(x, i, g, c, v) && MovedOnce(v, g, v', n)
    ensures Moved(x, i + 1, g, [v[n - 1]] + c, v')
  {
    forall k {:trigger Coef(v', k)}
      ensures Coef(x, k - (i + 1)) == (ProductCoef([v[n - 1]] + c, g, k) != Coef(v', k))
    {
      assert ([v[n - 1]] + c)[1..] == c;
      assert Coef(x, (k - 1) - i) == (ProductCoef(c, g, k - 1) != Coef(v, k - 1));
    }
  }

  /** Adding the moved factor when the next coefficient is set. */
  lemma AddStep(p: Poly, b: bool, x: Poly, g: Poly, c: Poly, v: Poly, c': Poly, z: Poly)
    requires |c'| == |c| == |p| && |z| == |v| && Moved(x, |p|, g, c, v) && Remainder(p, x, g, c', z)
    ensures Remainder(p + [b], x, g, (if b then Sum(c', c) else c') + [false], if b then Sum(z, v) else z)
  {
    var c1 := if b then Sum(c', c) else c';
    var z1 := if b then Sum(z, v) else z;
    forall k {:trigger ProductCoef(p + [b], x, k)}
      ensures ProductCoef(p + [b], x, k) == (ProductCoef(c1 + [false], g, k) != Coef(z1, k))
    {
      ProductAppend(p, b, x, k);
      ProductAppend(c1, false, g, k);
      assert Coef(x, k - |p|) == (ProductCoef(c, g, k) != Coef(v, k));
      if b {
        ProductOfSum(c', c, g, k);
        assert Coef(z1, k) == (Coef(z, k) != Coef(v, k));
      }
    }
  }
}

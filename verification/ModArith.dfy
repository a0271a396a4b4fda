/** Residues of integer sums, differences and products, for any positive modulus. Numbers that differ by a
    multiple of the modulus leave the same residue, quotient and remainder are determined, and so sums,
    differences and products may be reduced at any point; products of two unknowns are kept out of other
    modules, which use these lemmas instead. */
module ModArith {

  /** x and y leave the same residue exactly when they differ by a multiple of m. */
  lemma ModWitness(x: int, k: int, m: int)
    requires m > 0
    ensures (x + k * m) % m == x % m
  {
    var q := x / m;
    var y := x + k * m;
    assert y == (q + k) * m + x % m;
    ModUnique(y, q + k, x % m, m);
  }

  /** Quotient and remainder are the only pair with 0 <= r < m and x == q * m + r. */
  lemma ModUnique(x: int, q: int, r: int, m: int)
    requires m > 0 && 0 <= r < m && x == q * m + r
    ensures x / m == q && x % m == r
  {
    var q', r' := x / m, x % m;
    assert x == q' * m + r';
    assert (q - q') * m == r' - r;
    if q > q' {
      MulMono(1, q - q', m);
      assert false;
    }
    if q < q' {
      MulMono(1, q' - q, m);
      assert false;
    }
  }

  lemma MulMono(a: int, b: int, m: int)
    requires a <= b && 0 <= m
    ensures a * m <= b * m
  {
  }

  lemma MulLess(a: int, b: int, m: int)
    requires a < b && 0 < m
    ensures a * m < b * m
  {
  }

  lemma ModAdd(x: int, y: int, m: int)
    requires m > 0
    ensures (x % m + y % m) % m == (x + y) % m
  {
    assert x + y == (x % m + y % m) + (x / m + y / m) * m;
    ModWitness(x % m + y % m, x / m + y / m, m);
  }

  lemma ModSub(x: int, y: int, m: int)
    requires m > 0
    ensures (x % m - y % m) % m == (x - y) % m
  {
    assert x - y == (x % m - y % m) + (x / m - y / m) * m;
    ModWitness(x % m - y % m, x / m - y / m, m);
  }

  /** Reducing one factor first changes nothing. */
  lemma ModMulLeft(x: int, y: int, m: int)
    requires m > 0
    ensures ((x % m) * y) % m == (x * y) % m
  {
    var q, r := x / m, x % m;
    assert x * y == r * y + (q * y) * m by {
      assert x == q * m + r;
      assert (q * m + r) * y == r * y + (q * y) * m;
    }
    ModWitness(r * y, q * y, m);
  }

  lemma ModMul(x: int, y: int, m: int)
    requires m > 0
    ensures ((x % m) * (y % m)) % m == (x * y) % m
  {
    ModMulLeft(x, y % m, m);
    ModMulLeft(y, x, m);
    assert x * (y % m) == (y % m) * x && x * y == y * x;
  }

  /** Counting on within a block. */
  lemma ModNext(n: nat, more: nat, size: nat)
    requires size > 0 && n % size + more <= size
    ensures (n + more) % size == if n % size + more == size then 0 else n % size + more
  {
    var q, r := n / size, n % size;
    if r + more == size {
      assert n + more == (q + 1) * size + 0;
      ModUnique(n + more, q + 1, 0, size);
    } else {
      ModUnique(n + more, q, r + more, size);
    }
  }

  lemma DivBelow(x: int, m: int, w: int)
    requires 0 <= x < m * w && w > 0
    ensures 0 <= x / w < m
  {
    var q := x / w;
    if q >= m {
      MulMono(m, q, w);
    }
  }

  lemma DivDiv(v: int, a: int, b: int)
    requires a > 0 && b > 0
    ensures a * b > 0 && v / a / b == v / (a * b)
  {
    MulMono(1, a, b);
    var q, r := v / a, v % a;
    var q', r' := q / b, q % b;
    Nested(v, a, b, q', r', r);
    RemainderBelow(a, b, r', r);
    ModUnique(v, q', a * r' + r, a * b);
  }

  lemma Nested(v: int, a: int, b: int, q': int, r': int, r: int)
    requires v == a * (b * q' + r') + r
    ensures v == q' * (a * b) + (a * r' + r)
  {
    assert a * (b * q') == q' * (a * b);
    assert a * (b * q' + r') == a * (b * q') + a * r';
  }

  lemma RemainderBelow(a: int, b: int, r': int, r: int)
    requires 0 <= r < a && 0 <= r' < b
    ensures 0 <= a * r' + r < a * b
  {
    MulMono(r' + 1, b, a);
    MulMono(0, r', a);
    assert (r' + 1) * a == a * r' + a && b * a == a * b;
  }
}

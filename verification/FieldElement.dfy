/** The field element of crypto/src/x25519.cpp: lazily carried limbs. */
module FieldElement {
  import opened ModArith

  /** C++ int64_t: every operation on it is checked to stay in range. */
  newtype int64 = x: int | -0x8000_0000_0000_0000 <= x < 0x8000_0000_0000_0000

  /** The prime 2^255 - 19. */
  const P: int := 0x7fffffffffffffffffffffffffffffffffffffffffffffffffffffffffffffed

  // ----- The represented value -----

  /** v * 65536^k */
  ghost function Shifted(v: int, k: nat): int {
    if k == 0 then v else 65536 * Shifted(v, k - 1)
  }

  /** The integer a limb sequence stands for: radix 2^16, least significant limb first. */
  ghost function Val(s: seq<int64>): int {
    if |s| == 0 then 0 else s[0] as int + 65536 * Val(s[1..])
  }

  /** The represented element of GF(2^255 - 19), as its representative in [0, P). */
  ghost function Fe(s: seq<int64>): (r: int)
    ensures 0 <= r < P
  {
    Val(s) % P
  }

  ghost function FAdd(a: int, b: int): int { (a + b) % P }

  ghost function FSub(a: int, b: int): int { (a - b) % P }

  ghost function FMul(a: int, b: int): int { (a * b) % P }

  lemma {:induction false} ShiftedAdd(v: int, w: int, k: nat)
    ensures Shifted(v + w, k) == Shifted(v, k) + Shifted(w, k)
  {
    if k != 0 {
      ShiftedAdd(v, w, k - 1);
    }
  }

  lemma {:induction false} ShiftedTwice(v: int, j: nat, k: nat)
    ensures Shifted(Shifted(v, j), k) == Shifted(v, j + k)
  {
    if k != 0 {
      ShiftedTwice(v, j, k - 1);
    }
  }

  lemma ShiftedByFour(v: int, k: nat)
    ensures Shifted(v, k + 4) == 0x1_0000_0000_0000_0000 * Shifted(v, k)
  {
    assert Shifted(v, k + 1) == 65536 * Shifted(v, k);
    assert Shifted(v, k + 2) == 65536 * Shifted(v, k + 1);
    assert Shifted(v, k + 3) == 65536 * Shifted(v, k + 2);
  }

  /** Moving up sixteen limbs multiplies by 2^256, which is 38 more than twice p. */
  lemma ShiftedBySixteen(v: int)
    ensures Shifted(v, 16) == 38 * v + v * (2 * P)
  {
    ShiftedByFour(v, 0);
    ShiftedByFour(v, 4);
    ShiftedByFour(v, 8);
    ShiftedByFour(v, 12);
  }

  /** Replacing limb k moves the value by the difference at that place. */
  lemma {:induction false} ValUpdate(s: seq<int64>, k: nat, y: int64)
    requires k < |s|
    ensures Val(s[k := y]) == Val(s) + Shifted(y as int - s[k] as int, k)
  {
    if k == 0 {
      assert s[k := y][1..] == s[1..];
    } else {
      assert s[k := y][1..] == s[1..][k - 1 := y];
      ValUpdate(s[1..], k - 1, y);
    }
  }

  lemma {:induction false} ValConcat(s: seq<int64>, t: seq<int64>)
    ensures Val(s + t) == Val(s) + Shifted(Val(t), |s|)
  {
    if |s| == 0 {
      assert s + t == t;
    } else {
      assert (s + t)[1..] == s[1..] + t;
      ValConcat(s[1..], t);
    }
  }

  lemma {:induction false} ValZero(s: seq<int64>)
    requires forall i :: 0 <= i < |s| ==> s[i] == 0
    ensures Val(s) == 0
  {
    if |s| != 0 {
      ValZero(s[1..]);
    }
  }

  /** Canonical limbs bound the value. */
  lemma {:induction false} ValCanonicalRange(s: seq<int64>)
    requires forall i :: 0 <= i < |s| ==> 0 <= s[i] < 65536
    ensures 0 <= Val(s) < Shifted(1, |s|)
  {
    if |s| != 0 {
      ValCanonicalRange(s[1..]);
    }
  }

  // ----- carry -----

  /** The carry into limb i when the carries ripple up from limb 0. */
  ghost function CarryInto(s: seq<int64>, i: nat): int
    requires i <= |s|
  {
    if i == 0 then 0 else (s[i - 1] as int + CarryInto(s, i - 1)) / 65536
  }

  /** What is left at limb i once its carry has moved on: its low 16 bits. */
  ghost function LowLimb(s: seq<int64>, i: nat): (r: int)
    requires i < |s|
    ensures 0 <= r < 65536
  {
    s[i] as int + CarryInto(s, i) - 65536 * CarryInto(s, i + 1)
  }

  /** t is s after one carry pass: each limb keeps its low 16 bits and the carry out of
      the top limb comes back into limb 0 times 38. */
  ghost predicate Carried(s: seq<int64>, t: seq<int64>) {
    && |s| == |t| == 16
    && t[0] as int == LowLimb(s, 0) + 38 * CarryInto(s, 16)
    && forall i :: 1 <= i < 16 ==> t[i] as int == LowLimb(s, i)
  }

  ghost predicate Within(s: seq<int64>, b: int) {
    forall i :: 0 <= i < |s| ==> -b <= s[i] as int <= b
  }

  /** What every multiplication returns. */
  ghost predicate Reduced(s: seq<int64>) {
    && |s| == 16
    && -38 <= s[0] < 65536 + 38
    && forall i :: 1 <= i < 16 ==> 0 <= s[i] < 65536
  }

  ghost predicate Canonical(s: seq<int64>) {
    && |s| == 16
    && forall i :: 0 <= i < 16 ==> 0 <= s[i] < 65536
  }

  lemma {:induction false} CarryIntoBound(s: seq<int64>, i: nat, b: int, c: int)
    requires i <= |s| && Within(s, b) && 0 <= b <= 65535 * c
    ensures -c <= CarryInto(s, i) <= c
  {
    if i != 0 {
      CarryIntoBound(s, i - 1, b, c);
    }
  }

  /** The limbs from i on, plus the carry into i, keep their value across the pass. */
  lemma {:induction false} CarriedSuffix(s: seq<int64>, t: seq<int64>, i: nat)
    requires Carried(s, t) && 1 <= i <= 16
    ensures Val(t[i..]) + Shifted(CarryInto(s, 16), 16 - i) == Val(s[i..]) + CarryInto(s, i)
    decreases 16 - i
  {
    if i < 16 {
      CarriedSuffix(s, t, i + 1);
      assert t[i..][1..] == t[i + 1..] && s[i..][1..] == s[i + 1..];
    }
  }

  /** A carry pass subtracts 2p once for every unit carried out of the top limb. */
  lemma CarriedValue(s: seq<int64>, t: seq<int64>)
    requires Carried(s, t)
    ensures Val(t) == Val(s) - CarryInto(s, 16) * (2 * P)
  {
    var c := CarryInto(s, 16);
    CarriedSuffix(s, t, 1);
    ShiftedBySixteen(c);
    assert Shifted(c, 16) == 65536 * Shifted(c, 15);
  }

  lemma CarriedFe(s: seq<int64>, t: seq<int64>)
    requires Carried(s, t)
    ensures Fe(t) == Fe(s)
  {
    CarriedValue(s, t);
    ModWitness(Val(s), -2 * CarryInto(s, 16), P);
  }

  method Carry(e: array<int64>)
    requires e.Length == 16
    requires Within(e[..], 0x4000_0000_0000_0000)
    modifies e
    ensures Carried(old(e[..]), e[..])
  {
    ghost var s := e[..];
    for i := 0 to 16
      invariant forall k :: i < k < 16 ==> e[k] == s[k]
      invariant i < 16 ==> e[i] as int == s[i] as int + CarryInto(s, i)
      invariant forall k :: 1 <= k < i ==> e[k] as int == LowLimb(s, k)
      invariant 0 < i < 16 ==> e[0] as int == LowLimb(s, 0)
      invariant i == 16 ==> e[0] as int == LowLimb(s, 0) + 38 * CarryInto(s, 16)
    {
      CarryIntoBound(s, i + 1, 0x4000_0000_0000_0000, 0x4000_4000_4001);
      var carry := e[i] / 65536;
      assert carry as int == CarryInto(s, i + 1);
      e[i] := e[i] - carry * 65536;
      assert e[i] as int == LowLimb(s, i);
      if i < 15 {
        e[i + 1] := e[i + 1] + carry;
      } else {
        e[0] := e[0] + 38 * carry;
      }
    }
  }

  /** Two passes bring any limbs that fit comfortably in 64 bits down to Reduced. */
  lemma TwoCarries(s: seq<int64>, m: seq<int64>, t: seq<int64>)
    requires Within(s, 0x4000_0000_0000_0000) && Carried(s, m) && Carried(m, t)
    ensures Reduced(t)
  {
    CarryIntoBound(s, 16, 0x4000_0000_0000_0000, 0x4000_4000_4001);
    assert -0x8_0000_0000_0000 * 2 <= m[0] as int <= 0x8_0000_0000_0000 * 2;
    assert -0x10_0000_0000 <= CarryInto(m, 1) <= 0x10_0000_0000 by {
      assert CarryInto(m, 0) == 0;
    }
    assert -0x10_0001 <= CarryInto(m, 2) <= 0x10_0001;
    assert -17 <= CarryInto(m, 3) <= 17;
    UnitCarries(m, 4);
    UnitCarries(m, 16);
  }

  /** Once a carry into limb 3 is small, canonical limbs above pass on -1, 0 or 1. */
  lemma {:induction false} UnitCarries(m: seq<int64>, i: nat)
    requires |m| == 16 && 4 <= i <= 16 && -17 <= CarryInto(m, 3) <= 17
    requires forall k :: 1 <= k < 16 ==> 0 <= m[k] < 65536
    ensures -1 <= CarryInto(m, i) <= 1
  {
    if i > 4 {
      UnitCarries(m, i - 1);
    }
  }

  // ----- Addition and subtraction -----

  method Add(lhs: array<int64>, rhs: array<int64>) returns (result: array<int64>)
    requires lhs.Length == rhs.Length == 16
    requires Within(lhs[..], 0x4000_0000) && Within(rhs[..], 0x4000_0000)
    ensures fresh(result) && result.Length == 16
    ensures forall i :: 0 <= i < 16 ==> result[i] == lhs[i] + rhs[i]
    ensures Fe(result[..]) == FAdd(Fe(lhs[..]), Fe(rhs[..]))
  {
    result := new int64[16];
    for i := 0 to 16
      invariant forall k :: 0 <= k < i ==> result[k] == lhs[k] + rhs[k]
    {
      result[i] := lhs[i] + rhs[i];
    }
    ValCombine(lhs[..], rhs[..], result[..], 1);
    ModAdd(Val(lhs[..]), Val(rhs[..]), P);
  }

  method Sub(lhs: array<int64>, rhs: array<int64>) returns (result: array<int64>)
    requires lhs.Length == rhs.Length == 16
    requires Within(lhs[..], 0x4000_0000) && Within(rhs[..], 0x4000_0000)
    ensures fresh(result) && result.Length == 16
    ensures forall i :: 0 <= i < 16 ==> result[i] == lhs[i] - rhs[i]
    ensures Fe(result[..]) == FSub(Fe(lhs[..]), Fe(rhs[..]))
  {
    result := new int64[16];
    for i := 0 to 16
      invariant forall k :: 0 <= k < i ==> result[k] == lhs[k] - rhs[k]
    {
      result[i] := lhs[i] - rhs[i];
    }
    ValCombine(lhs[..], rhs[..], result[..], -1);
    ModSub(Val(lhs[..]), Val(rhs[..]), P);
  }

  /** Limb-wise a + c * b represents Val(a) + c * Val(b), for the three scales in use. */
  lemma {:induction false} ValCombine(a: seq<int64>, b: seq<int64>, t: seq<int64>, c: int)
    requires |a| == |b| == |t| && c in {1, -1, 38}
    requires forall i :: 0 <= i < |a| ==> t[i] as int == a[i] as int + c * b[i] as int
    ensures Val(t) == Val(a) + c * Val(b)
  {
    if |a| != 0 {
      ValCombine(a[1..], b[1..], t[1..], c);
    }
  }

  // ----- Multiplication -----

  lemma {:induction false} ShiftedScale(a: int, v: int, k: nat)
    ensures Shifted(a * v, k) == a * Shifted(v, k)
  {
    if k != 0 {
      ShiftedScale(a, v, k - 1);
      assert 65536 * (a * Shifted(v, k - 1)) == a * (65536 * Shifted(v, k - 1));
    }
  }

  /** The first i rows of the schoolbook product of s with the number v. */
  ghost function Rows(s: seq<int64>, v: int, i: nat): int
    requires i <= |s|
  {
    if i == 0 then 0 else Rows(s, v, i - 1) + Shifted(s[i - 1] as int * v, i - 1)
  }

  lemma {:induction false} RowsPrefix(s: seq<int64>, v: int, i: nat)
    requires i <= |s|
    ensures Rows(s, v, i) == Val(s[..i]) * v
  {
    if i != 0 {
      RowsPrefix(s, v, i - 1);
      ValPrefix(s, i - 1);
      ShiftedScale(v, s[i - 1] as int, i - 1);
    }
  }

  lemma ValPrefix(s: seq<int64>, i: nat)
    requires i < |s|
    ensures Val(s[..i + 1]) == Val(s[..i]) + Shifted(s[i] as int, i)
  {
    assert s[..i + 1] == s[..i] + [s[i]];
    ValConcat(s[..i], [s[i]]);
    assert Val([s[i]]) == s[i] as int + 65536 * Val([]);
  }

  /** Accumulating one limb product extends the current row by one limb. */
  lemma RowStep(p: seq<int64>, q: seq<int64>, x: int64, r: seq<int64>, i: nat, j: nat)
    requires j < |r| && i + j < |p| == |q|
    requires q == p[i + j := q[i + j]] && q[i + j] as int == p[i + j] as int + x as int * r[j] as int
    ensures Val(q) - Val(p) == Shifted(x as int * Val(r[..j + 1]), i) - Shifted(x as int * Val(r[..j]), i)
  {
    var d := x as int * r[j] as int;
    ValUpdate(p, i + j, q[i + j]);
    ValPrefix(r, j);
    ShiftedScale(x as int, r[j] as int, j);
    assert x as int * Val(r[..j + 1]) == x as int * Val(r[..j]) + Shifted(d, j);
    ShiftedAdd(x as int * Val(r[..j]), Shifted(d, j), i);
    ShiftedTwice(d, j, i);
  }

  /** 2^26: limbs this large still multiply without leaving 64 bits. */
  const LIMB_LIMIT: int := 0x400_0000

  lemma LimbProduct(x: int64, y: int64)
    requires -LIMB_LIMIT <= x as int <= LIMB_LIMIT && -LIMB_LIMIT <= y as int <= LIMB_LIMIT
    ensures -0x10_0000_0000_0000 <= x as int * y as int <= 0x10_0000_0000_0000
  {
    MulBound(x as int, y as int, LIMB_LIMIT);
  }

  lemma MulBound(x: int, y: int, b: int)
    requires -b <= x <= b && -b <= y <= b
    ensures -b * b <= x * y <= b * b
  {
    assert (b - x) * (b + y) >= 0 && (b + x) * (b - y) >= 0;
    assert (b - x) * (b - y) >= 0 && (b + x) * (b + y) >= 0;
  }

  /** The accumulation bound: one unit of 2^52 for every product already added. */
  ghost predicate Accumulated(p: seq<int64>, i: nat, j: nat) {
    && |p| == 31
    && forall k :: 0 <= k < 31 ==>
      var n := i + (if i <= k < i + j then 1 else 0);
      -0x10_0000_0000_0000 * n <= p[k] as int <= 0x10_0000_0000_0000 * n
  }

  method MultiplyRow(product: array<int64>, i: nat, x: int64, rhs: array<int64>)
    requires product.Length == 31 && rhs.Length == 16 && i < 16 && product != rhs
    requires -LIMB_LIMIT <= x as int <= LIMB_LIMIT && Within(rhs[..], LIMB_LIMIT)
    requires Accumulated(product[..], i, 0)
    modifies product
    ensures Accumulated(product[..], i + 1, 0)
    ensures Val(product[..]) == old(Val(product[..])) + Shifted(x as int * Val(rhs[..]), i)
  {
    ghost var r := rhs[..];
    assert Shifted(x as int * Val(r[..0]), i) == 0 by { ShiftedScale(0, 1, i); }
    for j := 0 to 16
      invariant rhs[..] == r
      invariant Accumulated(product[..], i, j)
      invariant Val(product[..]) == old(Val(product[..])) + Shifted(x as int * Val(r[..j]), i)
    {
      LimbProduct(x, rhs[j]);
      ghost var before := product[..];
      product[i + j] := product[i + j] + x * rhs[j];
      assert product[..] == before[i + j := product[i + j]];
      RowStep(before, product[..], x, r, i, j);
    }
    assert r[..16] == r;
  }

  ghost predicate Folded(p: seq<int64>, t: seq<int64>) {
    && |p| == 31 && |t| == 16 && t[15] == p[15]
    && forall i :: 0 <= i < 15 ==> t[i] as int == p[i] as int + 38 * p[i + 16] as int
  }

  lemma FoldWithin(p: seq<int64>, t: seq<int64>)
    requires Folded(p, t) && Accumulated(p, 16, 0)
    ensures Within(t, 0x4000_0000_0000_0000)
  {
    assert Within(p, 0x100_0000_0000_0000);
    forall i | 0 <= i < 16
      ensures -0x4000_0000_0000_0000 <= t[i] as int <= 0x4000_0000_0000_0000
    {
      if i < 15 {
        assert t[i] as int == p[i] as int + 38 * p[i + 16] as int;
      }
    }
  }

  /** Folding the upper fifteen limbs back in, 38 times. */
  lemma FoldValue(p: seq<int64>, t: seq<int64>)
    requires Folded(p, t)
    ensures Fe(t) == Fe(p)
  {
    var hi := p[16..];
    assert p == p[..16] + hi;
    ValConcat(p[..16], hi);
    ShiftedBySixteen(Val(hi));
    ValConcat(hi, [0]);
    assert Val([0]) == 0 + 65536 * Val([]);
    ShiftedScale(0, 1, 15);
    ValCombine(p[..16], hi + [0], t, 38);
    ModWitness(Val(t), 2 * Val(hi), P);
  }

  /** The schoolbook product of two elements, in 31 limbs. */
  method Products(lhs: array<int64>, rhs: array<int64>) returns (product: array<int64>)
    requires lhs.Length == rhs.Length == 16
    requires Within(lhs[..], LIMB_LIMIT) && Within(rhs[..], LIMB_LIMIT)
    ensures fresh(product) && product.Length == 31
    ensures Accumulated(product[..], 16, 0)
    ensures Val(product[..]) == Val(lhs[..]) * Val(rhs[..])
  {
    product := new int64[31](_ => 0);
    ghost var l, v := lhs[..], Val(rhs[..]);
    ValZero(product[..]);
    for i := 0 to 16
      invariant Accumulated(product[..], i, 0)
      invariant lhs[..] == l && Val(rhs[..]) == v && Within(rhs[..], LIMB_LIMIT)
      invariant Val(product[..]) == Rows(l, v, i)
    {
      MultiplyRow(product, i, lhs[i], rhs);
    }
    RowsPrefix(l, v, 16);
    assert l[..16] == l;
  }

  method Fold(product: array<int64>) returns (result: array<int64>)
    requires product.Length == 31 && Accumulated(product[..], 16, 0)
    modifies product
    ensures fresh(result) && result.Length == 16
    ensures Within(result[..], 0x4000_0000_0000_0000)
    ensures Fe(result[..]) == Fe(old(product[..]))
  {
    ghost var p := product[..];
    for i := 0 to 15
      invariant forall k :: 0 <= k < i ==> product[k] as int == p[k] as int + 38 * p[k + 16] as int
      invariant forall k :: i <= k < 31 ==> product[k] == p[k]
    {
      product[i] := product[i] + 38 * product[i + 16];
    }
    ghost var q := product[..];
    result := new int64[16];
    for i := 0 to 16
      invariant product[..] == q
      invariant forall k :: 0 <= k < i ==> result[k] == q[k]
    {
      result[i] := product[i];
    }
    assert Folded(p, result[..]);
    FoldWithin(p, result[..]);
    FoldValue(p, result[..]);
  }

  method Mul(lhs: array<int64>, rhs: array<int64>) returns (result: array<int64>)
    requires lhs.Length == rhs.Length == 16
    requires Within(lhs[..], LIMB_LIMIT) && Within(rhs[..], LIMB_LIMIT)
    ensures fresh(result) && result.Length == 16 && Reduced(result[..])
    ensures Fe(result[..]) == FMul(Fe(lhs[..]), Fe(rhs[..]))
  {
    var product := Products(lhs, rhs);
    ModMul(Val(lhs[..]), Val(rhs[..]), P);
    result := Fold(product);
    ghost var s := result[..];
    Carry(result);
    ghost var m := result[..];
    TwiceCarriable(s, m);
    Carry(result);
    TwoCarries(s, m, result[..]);
    CarriedFe(s, m);
    CarriedFe(m, result[..]);
  }

  lemma TwiceCarriable(s: seq<int64>, m: seq<int64>)
    requires Within(s, 0x4000_0000_0000_0000) && Carried(s, m)
    ensures Within(m, 0x4000_0000_0000_0000)
  {
    CarryIntoBound(s, 16, 0x4000_0000_0000_0000, 0x4000_4000_4001);
  }
}

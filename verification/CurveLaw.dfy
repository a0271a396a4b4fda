/** What one step of the ladder does on the curve v^2 = u^3 + 486662 u^2 + u of section 4.1 of RFC 7748, for
    u = x / z: it doubles one point, and adds two points whose difference is the base point. The laws are
    stated modulo 2^255 - 19 on the coordinates x and z, without the formulas of the step itself. */
module CurveLaw {
  import opened ModArith
  import opened FieldElement
  import opened Inversion
  import opened Ladder

  /** The coefficient of the curve. */
  const COEFFICIENT: int := 486662

  /** a stands for the integer A. */
  ghost predicate Is(a: int, A: int) { a % P == A % P }

  lemma IsSum(a: int, A: int, b: int, B: int)
    requires Is(a, A) && Is(b, B)
    ensures Is(FAdd(a, b), A + B) && Is(FSub(a, b), A - B)
  {
    ModAdd(a, b, P);
    ModAdd(A, B, P);
    ModSub(a, b, P);
    ModSub(A, B, P);
    ModIdempotent(a + b, P);
    ModIdempotent(a - b, P);
  }

  lemma IsProduct(a: int, A: int, b: int, B: int)
    requires Is(a, A) && Is(b, B)
    ensures Is(FMul(a, b), A * B)
  {
    ModMul(a, b, P);
    ModMul(A, B, P);
    ModIdempotent(a * b, P);
  }

  lemma IsReduced(a: int, b: int, A: int)
    requires Is(FMul(a, b), A)
    ensures FMul(a, b) == A % P
  {
    ModIdempotent(a * b, P);
  }

  // ----- Identities of integers -----

  lemma SumTimesDifference(x: int, z: int)
    ensures (x + z) * (x - z) == x * x - z * z
    ensures (x + z) * (x + z) == x * x + 2 * (x * z) + z * z
    ensures (x - z) * (x - z) == x * x - 2 * (x * z) + z * z
  {
  }

  lemma CrossProducts(x2: int, z2: int, x3: int, z3: int)
    ensures (x3 - z3) * (x2 + z2) + (x3 + z3) * (x2 - z2) == 2 * (x2 * x3 - z2 * z3)
    ensures (x3 - z3) * (x2 + z2) - (x3 + z3) * (x2 - z2) == -2 * (x2 * z3 - z2 * x3)
  {
    assert (x3 - z3) * (x2 + z2) == x3 * x2 + x3 * z2 - z3 * x2 - z3 * z2;
    assert (x3 + z3) * (x2 - z2) == x3 * x2 - x3 * z2 + z3 * x2 - z3 * z2;
  }

  lemma SquareProduct(a: int, b: int)
    ensures (a * a) * (b * b) == (a * b) * (a * b)
    ensures (2 * a) * (2 * a) == 4 * (a * a) && (-2 * a) * (-2 * a) == 4 * (a * a)
  {
    assert (a * a) * (b * b) == a * (a * (b * b)) == a * (b * (a * b)) == (a * b) * (a * b);
  }

  // ----- The law -----

  /** Doubling. */
  lemma Doubling(x1: int, s: Points)
    ensures
      var x, z, t := s.x2, s.z2, RfcStep(x1, s);
      && t.x2 == ((x * x - z * z) * (x * x - z * z)) % P
      && t.z2 == (4 * (x * z) * (x * x + COEFFICIENT * (x * z) + z * z)) % P
  {
    var x, z := s.x2, s.z2;
    SumTimesDifference(x, z);
    SquareProduct(x + z, x - z);
    var A, B := FAdd(x, z), FSub(x, z);
    IsSum(x, x, z, z);
    IsProduct(A, x + z, A, x + z);
    IsProduct(B, x - z, B, x - z);
    var AA, BB := FMul(A, A), FMul(B, B);
    var sum, difference := (x + z) * (x + z), (x - z) * (x - z);
    IsSum(AA, sum, BB, difference);
    var E := FSub(AA, BB);
    IsProduct(A24, A24, E, 4 * (x * z));
    IsSum(AA, sum, FMul(A24, E), A24 * (4 * (x * z)));
    IsProduct(AA, sum, BB, difference);
    IsProduct(E, 4 * (x * z), FAdd(AA, FMul(A24, E)), x * x + COEFFICIENT * (x * z) + z * z);
    IsReduced(AA, BB, sum * difference);
    IsReduced(E, FAdd(AA, FMul(A24, E)), 4 * (x * z) * (x * x + COEFFICIENT * (x * z) + z * z));
    hide Is, FMul, FAdd, FSub;
  }

  /** Adding two points whose difference has the coordinate x1. */
  lemma Addition(x1: int, s: Points)
    ensures
      var t := RfcStep(x1, s);
      var same, cross := s.x2 * s.x3 - s.z2 * s.z3, s.x2 * s.z3 - s.z2 * s.x3;
      t.x3 == (4 * (same * same)) % P && t.z3 == (4 * x1 * (cross * cross)) % P
  {
    var DA := FMul(FSub(s.x3, s.z3), FAdd(s.x2, s.z2));
    var CB := FMul(FAdd(s.x3, s.z3), FSub(s.x2, s.z2));
    Crossed(s.x2, s.z2, s.x3, s.z3, DA, CB);
    Squared(x1, FAdd(DA, CB), FSub(DA, CB), s.x2 * s.x3 - s.z2 * s.z3, s.x2 * s.z3 - s.z2 * s.x3);
    hide Is, FMul, FAdd, FSub;
  }

  lemma Crossed(x2: int, z2: int, x3: int, z3: int, DA: int, CB: int)
    requires DA == FMul(FSub(x3, z3), FAdd(x2, z2)) && CB == FMul(FAdd(x3, z3), FSub(x2, z2))
    ensures Is(FAdd(DA, CB), 2 * (x2 * x3 - z2 * z3)) && Is(FSub(DA, CB), -2 * (x2 * z3 - z2 * x3))
  {
    CrossProducts(x2, z2, x3, z3);
    IsItself(x2, z2);
    IsItself(x3, z3);
    hide Is, FMul, FAdd, FSub;
    IsSum(x2, x2, z2, z2);
    IsSum(x3, x3, z3, z3);
    IsProduct(FSub(x3, z3), x3 - z3, FAdd(x2, z2), x2 + z2);
    IsProduct(FAdd(x3, z3), x3 + z3, FSub(x2, z2), x2 - z2);
    IsSum(DA, (x3 - z3) * (x2 + z2), CB, (x3 + z3) * (x2 - z2));
  }

  lemma IsItself(a: int, b: int)
    ensures Is(a, a) && Is(b, b)
  {
  }

  lemma Squared(x1: int, sum: int, difference: int, same: int, cross: int)
    requires Is(sum, 2 * same) && Is(difference, -2 * cross)
    ensures FMul(sum, sum) == (4 * (same * same)) % P
    ensures FMul(x1, FMul(difference, difference)) == (4 * x1 * (cross * cross)) % P
  {
    IsItself(x1, x1);
    SquareProduct(same, cross);
    SquareProduct(cross, same);
    TimesFour(x1, cross * cross);
    hide Is, FMul;
    IsProduct(sum, 2 * same, sum, 2 * same);
    IsProduct(difference, -2 * cross, difference, -2 * cross);
    IsProduct(x1, x1, FMul(difference, difference), 4 * (cross * cross));
    IsReduced(sum, sum, 4 * (same * same));
    IsReduced(x1, FMul(difference, difference), x1 * (4 * (cross * cross)));
  }

  lemma TimesFour(x: int, y: int)
    ensures x * (4 * y) == 4 * x * y
  {
  }
}

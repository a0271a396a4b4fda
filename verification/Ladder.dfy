/** The Montgomery ladder of crypto/src/x25519.cpp against section 5 of RFC 7748. */
module Ladder {
  import opened ByteType
  import opened ModArith
  import opened FieldElement
  import opened ConditionalSwap
  import opened PowerOfTwo
  import opened Inversion
  import opened LittleEndian
  import opened Packing

  // ----- RFC 7748, section 5 -----

  /** (k >> t) & 1 */
  ghost function Bit(k: int, t: nat): (b: int)
    ensures 0 <= b <= 1
    decreases t
  {
    if t == 0 then k % 2 else Bit(k / 2, t - 1)
  }

  datatype Points = Points(x2: int, z2: int, x3: int, z3: int)

  ghost function CSwap(swap: int, s: Points): Points {
    if swap == 1 then Points(s.x3, s.z3, s.x2, s.z2) else s
  }

  const A24: int := 121665

  /** The arithmetic of one ladder iteration. */
  ghost function RfcStep(x1: int, s: Points): Points {
    var A := FAdd(s.x2, s.z2);
    var AA := FMul(A, A);
    var B := FSub(s.x2, s.z2);
    var BB := FMul(B, B);
    var E := FSub(AA, BB);
    var C := FAdd(s.x3, s.z3);
    var D := FSub(s.x3, s.z3);
    var DA := FMul(D, A);
    var CB := FMul(C, B);
    Points(FMul(AA, BB),
           FMul(E, FAdd(AA, FMul(A24, E))),
           FMul(FAdd(DA, CB), FAdd(DA, CB)),
           FMul(x1, FMul(FSub(DA, CB), FSub(DA, CB))))
  }

  /** The swap left pending once the iterations from 254 down to t are done. */
  ghost function RfcPending(k: int, t: nat): (swap: int)
    requires t <= 255
    ensures 0 <= swap <= 1
  {
    if t == 255 then 0 else Bit(k, t)
  }

  /** The four coordinates once the iterations from 254 down to t are done. */
  ghost function RfcLoop(k: int, x1: int, t: nat): Points
    requires t <= 255
    decreases 255 - t
  {
    if t == 255 then Points(1, 0, x1, 1)
    else RfcStep(x1, CSwap((RfcPending(k, t + 1) + Bit(k, t)) % 2, RfcLoop(k, x1, t + 1)))
  }

  ghost function RfcLadder(k: int, x1: int): int {
    var s := CSwap(RfcPending(k, 0), RfcLoop(k, x1, 0));
    FMul(s.x2, FPow(s.z2, P - 2))
  }

  /** decodeScalar25519: clear bits 0, 1, 2 of byte 0, clear bit 7 and set bit 6 of byte 31. */
  ghost function Clamp(k: seq<byte>): (r: seq<byte>)
    requires |k| == 32
    ensures |r| == 32
  {
    k[0 := k[0] - k[0] % 8][31 := k[31] % 64 + 64]
  }

  /** The function X25519 on byte strings, before its result is encoded. */
  ghost function RfcX25519(k: seq<byte>, u: seq<byte>): int
    requires |k| == |u| == 32
  {
    RfcLadder(LeVal(Clamp(k)), LeVal(u) % HALF_RANGE % P)
  }

  // ----- Scalar bits -----

  /** b * 2^w */
  ghost function ShiftBits(b: int, w: nat): int {
    if w == 0 then b else 2 * ShiftBits(b, w - 1)
  }

  lemma {:induction false} BitBelow(a: int, b: int, w: nat, t: nat)
    requires t < w
    ensures Bit(a + ShiftBits(b, w), t) == Bit(a, t)
    decreases t
  {
    assert (a + ShiftBits(b, w)) / 2 == a / 2 + ShiftBits(b, w - 1);
    if t != 0 {
      BitBelow(a / 2, b, w - 1, t - 1);
    }
  }

  lemma {:induction false} BitAbove(a: int, b: int, w: nat, t: nat)
    requires 0 <= a < Pow2(w)
    ensures Bit(a + ShiftBits(b, w), w + t) == Bit(b, t)
    decreases w
  {
    if w == 0 {
      assert a == 0;
    } else {
      assert (a + ShiftBits(b, w)) / 2 == a / 2 + ShiftBits(b, w - 1);
      BitAbove(a / 2, b, w - 1, t);
    }
  }

  lemma ShiftLimb(b: int)
    ensures ShiftBits(b, 16) == 65536 * b && Pow2(16) == 65536
  {
    Pow2By16(0);
    ShiftByte(b, 0);
    ShiftByte(b, 8);
  }

  lemma ShiftByte(b: int, n: nat)
    ensures ShiftBits(b, n + 8) == 256 * ShiftBits(b, n)
  {
    assert ShiftBits(b, n + 2) == 2 * ShiftBits(b, n + 1);
    assert ShiftBits(b, n + 4) == 2 * ShiftBits(b, n + 3);
    assert ShiftBits(b, n + 6) == 2 * ShiftBits(b, n + 5);
    assert ShiftBits(b, n + 8) == 2 * ShiftBits(b, n + 7);
  }

  /** The bits of the lowest limb, and those of the limbs above it. */
  lemma LowLimbBits(s: seq<int64>, t: nat)
    requires |s| >= 1 && 0 <= s[0] < 65536
    ensures t < 16 ==> Bit(Val(s), t) == Bit(s[0] as int, t)
    ensures t >= 16 ==> Bit(Val(s), t) == Bit(Val(s[1..]), t - 16)
  {
    var low, high := s[0] as int, Val(s[1..]);
    ShiftLimb(high);
    if t < 16 {
      BitBelow(low, high, 16, t);
    } else {
      BitAbove(low, high, 16, t - 16);
    }
  }

  /** Bit t of the value is bit t % 16 of limb t / 16. */
  lemma {:induction false} LimbBit(s: seq<int64>, t: nat)
    requires t / 16 < |s| && forall i :: 0 <= i < |s| ==> 0 <= s[i] < 65536
    ensures Bit(Val(s), t) == Bit(s[t / 16] as int, t % 16)
  {
    hide Val, Bit;
    LowLimbBits(s, t);
    if t >= 16 {
      LimbBit(s[1..], t - 16);
    }
  }

  /** x >> n for a non-negative x, then its lowest bit. */
  method ShiftedBit(x: int64, n: nat) returns (bit: int64)
    ensures bit as int == Bit(x as int, n)
  {
    var y := x;
    for i := 0 to n
      invariant Bit(x as int, n) == Bit(y as int, n - i)
    {
      y := y / 2;
    }
    bit := y % 2;
  }

  // ----- The ladder -----

  /** The coordinates held by the limb arrays a (x2), c (z2), b (x3) and d (z3). */
  ghost function Held(a: array<int64>, b: array<int64>, c: array<int64>, d: array<int64>): Points
    reads a, b, c, d
  {
    Points(Fe(a[..]), Fe(c[..]), Fe(b[..]), Fe(d[..]))
  }

  /** Squaring a difference does not depend on its order. */
  lemma SquareOfDifference(x: int, y: int)
    ensures FMul(FSub(x, y), FSub(x, y)) == FMul(FSub(y, x), FSub(y, x))
  {
    ModMul(x - y, x - y, P);
    ModMul(y - x, y - x, P);
    assert (x - y) * (x - y) == (y - x) * (y - x);
  }

  /** Sums and differences of products stay below 2^18, far under what a product can take. */
  ghost predicate Element(a: array<int64>)
    reads a
  {
    a.Length == 16 && Reduced(a[..])
  }

  method AddElements(x: array<int64>, y: array<int64>) returns (r: array<int64>)
    requires Element(x) && Element(y)
    ensures fresh(r) && r.Length == 16 && Within(r[..], 0x4_0000 - 1)
    ensures Fe(r[..]) == FAdd(Fe(x[..]), Fe(y[..]))
  {
    r := Add(x, y);
    SmallSum(x[..], y[..], r[..], 1);
  }

  method SubElements(x: array<int64>, y: array<int64>) returns (r: array<int64>)
    requires Element(x) && Element(y)
    ensures fresh(r) && r.Length == 16 && Within(r[..], 0x4_0000 - 1)
    ensures Fe(r[..]) == FSub(Fe(x[..]), Fe(y[..]))
  {
    r := Sub(x, y);
    SmallSum(x[..], y[..], r[..], -1);
  }

  lemma SmallSum(x: seq<int64>, y: seq<int64>, r: seq<int64>, sign: int)
    requires Reduced(x) && Reduced(y) && |r| == 16 && sign in {1, -1}
    requires forall i :: 0 <= i < 16 ==> r[i] as int == x[i] as int + sign * y[i] as int
    ensures Within(r, 0x4_0000 - 1)
  {
  }

  method MulElements(x: array<int64>, y: array<int64>) returns (r: array<int64>)
    requires x.Length == y.Length == 16 && Within(x[..], 0x4_0000 - 1) && Within(y[..], 0x4_0000 - 1)
    ensures fresh(r) && Element(r) && Within(r[..], 0x4_0000 - 1)
    ensures Fe(r[..]) == FMul(Fe(x[..]), Fe(y[..]))
  {
    r := Mul(x, y);
  }

  /** The first half of an iteration: AA, BB, and DA + CB, DA - CB (up to sign). */
  method StepProducts(a0: array<int64>, b0: array<int64>, c0: array<int64>, d0: array<int64>)
    returns (d: array<int64>, f: array<int64>, e: array<int64>, a: array<int64>)
    requires Element(a0) && Element(b0) && Element(c0) && Element(d0)
    ensures fresh(d) && fresh(f) && fresh(e) && fresh(a) && Element(d) && Element(f)
    ensures e.Length == a.Length == 16 && Within(e[..], 0x4_0000 - 1) && Within(a[..], 0x4_0000 - 1)
    ensures
      var A, B := FAdd(Fe(a0[..]), Fe(c0[..])), FSub(Fe(a0[..]), Fe(c0[..]));
      var DA := FMul(FSub(Fe(b0[..]), Fe(d0[..])), A);
      var CB := FMul(FAdd(Fe(b0[..]), Fe(d0[..])), B);
      && Fe(d[..]) == FMul(A, A) && Fe(f[..]) == FMul(B, B)
      && Fe(e[..]) == FAdd(CB, DA) && Fe(a[..]) == FSub(CB, DA)
  {
    var c, b;
    e := AddElements(a0, c0);
    a := SubElements(a0, c0);
    c := AddElements(b0, d0);
    b := SubElements(b0, d0);
    d := MulElements(e, e);
    f := MulElements(a, a);
    a := MulElements(c, a);
    c := MulElements(b, e);
    e := AddElements(a, c);
    a := SubElements(a, c);
  }

  /** One iteration between the two swaps. */
  method Step(a0: array<int64>, b0: array<int64>, c0: array<int64>, d0: array<int64>,
              x: array<int64>, s121665: array<int64>)
    returns (a: array<int64>, b: array<int64>, c: array<int64>, d: array<int64>)
    requires Element(a0) && Element(b0) && Element(c0) && Element(d0) && Element(x)
    requires Element(s121665) && Fe(s121665[..]) == A24
    ensures fresh(a) && fresh(b) && fresh(c) && fresh(d)
    ensures a != b && a != c && a != d && b != c && b != d && c != d
    ensures Element(a) && Element(b) && Element(c) && Element(d)
    ensures Held(a, b, c, d) == RfcStep(Fe(x[..]), old(Held(a0, b0, c0, d0)))
  {
    var f, e;
    d, f, e, a := StepProducts(a0, b0, c0, d0);
    ghost var AA, BB, S, D := Fe(d[..]), Fe(f[..]), Fe(e[..]), Fe(a[..]);
    b := MulElements(a, a);
    c := SubElements(d, f);
    a := MulElements(c, s121665);
    a := AddElements(a, d);
    c := MulElements(c, a);
    a := MulElements(d, f);
    d := MulElements(b, x);
    b := MulElements(e, e);
    StepAgrees(Fe(x[..]), old(Held(a0, b0, c0, d0)), Held(a, b, c, d), AA, BB, S, D);
  }

  /** The same formulas with the operands of sums and products in another order. */
  lemma StepAgrees(x1: int, s: Points, t: Points, AA: int, BB: int, S: int, D: int)
    requires AA == FMul(FAdd(s.x2, s.z2), FAdd(s.x2, s.z2))
    requires BB == FMul(FSub(s.x2, s.z2), FSub(s.x2, s.z2))
    requires
      var DA := FMul(FSub(s.x3, s.z3), FAdd(s.x2, s.z2));
      var CB := FMul(FAdd(s.x3, s.z3), FSub(s.x2, s.z2));
      S == FAdd(CB, DA) && D == FSub(CB, DA)
    requires t.x2 == FMul(AA, BB) && t.x3 == FMul(S, S) && t.z3 == FMul(FMul(D, D), x1)
    requires t.z2 == FMul(FSub(AA, BB), FAdd(FMul(FSub(AA, BB), A24), AA))
    ensures t == RfcStep(x1, s)
  {
    var DA := FMul(FSub(s.x3, s.z3), FAdd(s.x2, s.z2));
    var CB := FMul(FAdd(s.x3, s.z3), FSub(s.x2, s.z2));
    SquareOfDifference(CB, DA);
    hide FMul, FAdd, FSub;
    FMulCommutes(FMul(FSub(DA, CB), FSub(DA, CB)), x1);
    FMulCommutes(FSub(AA, BB), A24);
    FAddCommutes(DA, CB);
    FAddCommutes(FMul(A24, FSub(AA, BB)), AA);
  }

  lemma FAddCommutes(a: int, b: int)
    ensures FAdd(a, b) == FAdd(b, a)
  {
  }

  // ----- The whole scalar multiplication -----

  /** scalar[0] & 0xFFF8 and (scalar[15] & 0x7FFF) | 0x4000, on 16-bit limbs. */
  function ClampLow(x: int64): int64 { x - x % 8 }

  function ClampHigh(x: int64): int64 { x % 0x4000 + 0x4000 }

  ghost function ClampLimbs(s: seq<int64>): (r: seq<int64>)
    requires Canonical(s)
    ensures Canonical(r)
  {
    s[0 := ClampLow(s[0])][15 := ClampHigh(s[15])]
  }

  /** Clamping the top limb is clamping the last byte: bit 255 is already dropped from the limb. */
  lemma ClampHighAgrees(e: seq<int64>, k: seq<byte>)
    requires Canonical(e) && Unpacked(e, k)
    ensures FromBytes(e[15 := ClampHigh(e[15])], k[31 := k[31] % 64 + 64])
  {
  }

  /** Clamping the bottom limb is clamping the first byte. */
  lemma ClampLowAgrees(e: seq<int64>, k: seq<byte>)
    requires Canonical(e) && FromBytes(e, k)
    ensures FromBytes(e[0 := ClampLow(e[0])], k[0 := k[0] - k[0] % 8])
  {
  }

  /** Swap, step and swap back is one deferred-swap iteration. */
  lemma SwapsCompose(k: int, x1: int, t: nat, s: Points)
    requires t < 255 && s == CSwap(RfcPending(k, t + 1), RfcLoop(k, x1, t + 1))
    ensures RfcStep(x1, CSwap(Bit(k, t), s)) == RfcLoop(k, x1, t)
  {
  }

  /** Four coordinate arrays of their own beside the two constants of the loop. */
  ghost predicate Working(a: array<int64>, b: array<int64>, c: array<int64>, d: array<int64>,
                          x: array<int64>, s121665: array<int64>)
    reads a, b, c, d, x, s121665
  {
    && a != b && a != c && a != d && b != c && b != d && c != d
    && x !in {a, b, c, d} && s121665 !in {a, b, c, d}
    && Element(a) && Element(b) && Element(c) && Element(d) && Element(x)
    && Element(s121665) && Fe(s121665[..]) == A24
  }

  method Iteration(a: array<int64>, b: array<int64>, c: array<int64>, d: array<int64>,
                   x: array<int64>, s121665: array<int64>, bit: bool)
    returns (a': array<int64>, b': array<int64>, c': array<int64>, d': array<int64>)
    requires Working(a, b, c, d, x, s121665)
    modifies a, b, c, d
    ensures fresh(a') && fresh(b') && fresh(c') && fresh(d')
    ensures a' != b' && a' != c' && a' != d' && b' != c' && b' != d' && c' != d'
    ensures Element(a') && Element(b') && Element(c') && Element(d')
    ensures
      var n := if bit then 1 else 0;
      Held(a', b', c', d') == CSwap(n, RfcStep(Fe(x[..]), CSwap(n, old(Held(a, b, c, d)))))
  {
    Swap(a, b, bit);
    Swap(c, d, bit);
    a', b', c', d' := Step(a, b, c, d, x, s121665);
    label stepped:
    Swap(a', b', bit);
    Swap(c', d', bit);
    assert Held(a', b', c', d') == CSwap(if bit then 1 else 0, old@stepped(Held(a', b', c', d')));
  }

  method Copy(e: array<int64>) returns (r: array<int64>)
    requires e.Length == 16
    ensures fresh(r) && r.Length == 16 && r[..] == e[..]
  {
    r := new int64[16](i requires 0 <= i < 16 reads e => e[i]);
  }

  /** A small constant in limb 0 and limb 1. */
  method Constant(low: int64, high: int64) returns (r: array<int64>)
    requires 0 <= low < 65536 && 0 <= high < 65536
    ensures fresh(r) && Element(r) && Fe(r[..]) == low as int + 65536 * high as int
  {
    r := new int64[16](i => if i == 0 then low else if i == 1 then high else 0);
    ghost var s := r[..];
    ValZero(s[2..]);
    assert s[1..][1..] == s[2..];
    assert Val(s) == s[0] as int + 65536 * Val(s[1..]);
  }

  lemma CanonicalIsElement(s: seq<int64>)
    requires Canonical(s)
    ensures Reduced(s)
  {
  }

  method Clamped(s: array<int64>) returns (scalar: array<int64>)
    requires s.Length == 16 && Canonical(s[..])
    ensures fresh(scalar) && scalar.Length == 16 && scalar[..] == ClampLimbs(s[..])
  {
    scalar := Copy(s);
    scalar[0] := ClampLow(scalar[0]);
    scalar[15] := ClampHigh(scalar[15]);
  }

  method ScalarBit(scalar: array<int64>, i: nat) returns (bit: bool)
    requires scalar.Length == 16 && i < 255 && Canonical(scalar[..])
    ensures (if bit then 1 else 0) == Bit(Val(scalar[..]), i)
  {
    LimbBit(scalar[..], i);
    var b := ShiftedBit(scalar[i / 16], i % 16);
    bit := b == 1;
  }

  /** The iteration for scalar bit i. */
  method Round(a: array<int64>, b: array<int64>, c: array<int64>, d: array<int64>,
               x: array<int64>, s121665: array<int64>, scalar: array<int64>, i: nat)
    returns (a': array<int64>, b': array<int64>, c': array<int64>, d': array<int64>)
    requires i < 255 && scalar.Length == 16 && Canonical(scalar[..]) && scalar !in {a, b, c, d}
    requires Working(a, b, c, d, x, s121665)
    requires
      var k, x1 := Val(scalar[..]), Fe(x[..]);
      Held(a, b, c, d) == CSwap(RfcPending(k, i + 1), RfcLoop(k, x1, i + 1))
    modifies a, b, c, d
    ensures fresh({a', b', c', d'}) && Working(a', b', c', d', x, s121665)
    ensures Fe(x[..]) == old(Fe(x[..]))
    ensures
      var k, x1 := Val(scalar[..]), Fe(x[..]);
      Held(a', b', c', d') == CSwap(RfcPending(k, i), RfcLoop(k, x1, i))
  {
    var bit := ScalarBit(scalar, i);
    SwapsCompose(Val(scalar[..]), Fe(x[..]), i, Held(a, b, c, d));
    a', b', c', d' := Iteration(a, b, c, d, x, s121665, bit);
  }

  /** The variables before the first iteration: (1 : 0) and (x : 1). */
  method Start(point: array<int64>)
    returns (a: array<int64>, b: array<int64>, c: array<int64>, d: array<int64>, x: array<int64>, s121665: array<int64>)
    requires point.Length == 16 && Canonical(point[..])
    ensures fresh({a, b, c, d, x, s121665}) && Working(a, b, c, d, x, s121665)
    ensures Fe(x[..]) == Fe(point[..]) && Held(a, b, c, d) == Points(1, 0, Fe(point[..]), 1)
  {
    CanonicalIsElement(point[..]);
    s121665 := Constant(0xDB41, 0x0001);
    a := Constant(1, 0);
    d := Constant(1, 0);
    c := Constant(0, 0);
    b := Copy(point);
    x := Copy(point);
  }

  /** The 255 iterations. */
  method Climb(scalar: array<int64>, point: array<int64>)
    returns (a: array<int64>, b: array<int64>, c: array<int64>, d: array<int64>)
    requires scalar.Length == point.Length == 16 && Canonical(scalar[..]) && Canonical(point[..])
    ensures Element(a) && Element(c)
    ensures
      var k, x1 := Val(scalar[..]), Fe(point[..]);
      Held(a, b, c, d) == CSwap(RfcPending(k, 0), RfcLoop(k, x1, 0))
  {
    var x, s121665;
    a, b, c, d, x, s121665 := Start(point);
    ghost var k, x1 := Val(scalar[..]), Fe(point[..]);
    hide RfcStep, FPow;
    for n := 0 to 255
      invariant fresh({a, b, c, d})
      invariant Canonical(scalar[..]) && Val(scalar[..]) == k
      invariant Working(a, b, c, d, x, s121665) && Fe(x[..]) == x1
      invariant Held(a, b, c, d) == CSwap(RfcPending(k, 255 - n), RfcLoop(k, x1, 255 - n))
    {
      var i := 254 - n;
      a, b, c, d := Round(a, b, c, d, x, s121665, scalar, i);
    }
  }

  method Mult(s: array<int64>, point: array<int64>) returns (result: array<int64>)
    requires s.Length == point.Length == 16 && Canonical(s[..]) && Canonical(point[..])
    ensures fresh(result) && Element(result)
    ensures Fe(result[..]) == RfcLadder(Val(ClampLimbs(s[..])), Fe(point[..]))
  {
    var scalar := Clamped(s);
    var a, b, c, d := Climb(scalar, point);
    assert Held(a, b, c, d) == Points(Fe(a[..]), Fe(c[..]), Fe(b[..]), Fe(d[..]));
    c := Inverse(c);
    result := Mul(a, c);
  }

  /** The key-exchange function on buffers, through both conversions. */
  method X25519(private: seq<byte>, key: seq<byte>) returns (ok: bool, shared: seq<byte>)
    ensures ok <==> |private| == 32 && |key| == 32
    ensures ok ==> |shared| == 32 && LeVal(shared) == RfcX25519(private, key)
  {
    hide FromBytes, Unpacked, RfcLadder, Val, LeVal;
    shared := [];
    var ok1, s := Unpack(private);
    var ok2, point := Unpack(key);
    ok := ok1 && ok2;
    if ok {
      var result := Mult(s, point);
      shared := Pack(result);
      ClampHighAgrees(s[..], private);
      ClampLowAgrees(s[..][15 := ClampHigh(s[15])], private[31 := private[31] % 64 + 64]);
      assert ClampLimbs(s[..]) == s[..][15 := ClampHigh(s[15])][0 := ClampLow(s[0])];
      assert Clamp(private) == private[31 := private[31] % 64 + 64][0 := private[0] - private[0] % 8];
      FromBytesValue(ClampLimbs(s[..]), Clamp(private));
    }
  }
}

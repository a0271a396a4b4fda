/** The rounds of crypto/src/keccak.cpp, which change the lanes in place: theta column by column, rho along
    the walk of its offsets, pi along the same walk with one lane held back, and chi row by row. Each is proved
    equal to the step mapping of section 3.2 of FIPS 202, which takes every lane from the old state. */
module KeccakRounds {
  import opened KeccakPermutation

  /** Lane i, when the columns before x are mixed. */
  function ThetaAt(s: Lanes, i: nat, x: nat): bv64
    requires i < 25
  {
    if i % 5 < x then Xor(s[i], Mixing(s, i % 5)) else s[i]
  }

  ghost predicate ThetaDone(s: Lanes, t: Lanes, x: nat) {
    forall i :: 0 <= i < 25 ==> t[i] == ThetaAt(s, i, x)
  }

  ghost predicate ColumnMixed(t: Lanes, t': Lanes, x: nat, d: bv64) {
    forall i :: 0 <= i < 25 ==> t'[i] == if i % 5 == x then Xor(t[i], d) else t[i]
  }

  lemma ThetaStep(s: Lanes, t: Lanes, t': Lanes, x: nat)
    requires x < 5 && ThetaDone(s, t, x) && ColumnMixed(t, t', x, Mixing(s, x))
    ensures ThetaDone(s, t', x + 1)
  {
    hide Xor, Mixing;
    forall i | 0 <= i < 25
      ensures t'[i] == ThetaAt(s, i, x + 1)
    {
      assert t[i] == ThetaAt(s, i, x);
    }
  }

  method Parities(a: array<bv64>) returns (c: array<bv64>)
    requires a.Length == 25
    ensures fresh(c) && c.Length == 5 && forall k :: 0 <= k < 5 ==> c[k] == Parity(a[..], k)
  {
    hide Xor;
    c := new bv64[5];
    for x := 0 to 5
      invariant forall k :: 0 <= k < x ==> c[k] == Parity(a[..], k)
    {
      c[x] := Xor(Xor(Xor(Xor(a[x], a[5 + x]), a[10 + x]), a[15 + x]), a[20 + x]);
    }
  }

  method ThetaInPlace(a: array<bv64>)
    requires a.Length == 25
    modifies a
    ensures a[..] == Theta(old(a[..]))
  {
    hide Xor, Rotl, Parity;
    ghost var s := a[..];
    var c := Parities(a);
    assert ThetaDone(s, a[..], 0);
    for x := 0 to 5
      invariant forall k :: 0 <= k < 5 ==> c[k] == Parity(s, k)
      invariant ThetaDone(s, a[..], x)
    {
      hide ThetaDone, ColumnMixed;
      var d := Xor(c[(x + 4) % 5], Rotl(c[(x + 1) % 5], 1));
      ghost var t := a[..];
      MixColumn(a, x, d);
      ThetaStep(s, t, a[..], x);
    }
    hide Mixing;
    assert a[..] == Theta(s);
  }

  /** Adds d to one column. */
  method MixColumn(a: array<bv64>, x: nat, d: bv64)
    requires a.Length == 25 && x < 5
    modifies a
    ensures ColumnMixed(old(a[..]), a[..], x, d)
  {
    hide Xor;
    for y := 0 to 5
      invariant forall i :: 0 <= i < 25 ==> a[i] == if i % 5 == x && i / 5 < y then Xor(old(a[i]), d) else old(a[i])
    {
      assert (5 * y + x) % 5 == x && (5 * y + x) / 5 == y;
      a[5 * y + x] := Xor(a[5 * y + x], d);
    }
  }

  // ----- Rho and pi: one lane after the other along the walk -----

  /** When lane i is rotated: lane 0 never is. */
  function Visit(i: nat): nat
    requires i < 25
  {
    if i == 0 then 24 else if i == 1 then 0 else Arrival(i)
  }

  /** Lane i after the first t lanes of the walk. */
  function RhoAt(s: Lanes, i: nat, t: nat): bv64
    requires i < 25
  {
    if Visit(i) < t then Rotl(s[i], Offset(i)) else s[i]
  }

  lemma VisitWalk(i: nat, t: nat)
    requires i < 25 && t < 24
    ensures 1 <= Walk(t) < 25 && (Visit(i) == t <==> i == Walk(t))
  {
    WalkRange(t);
    assert Walk(0) == 1 && Arrival(1) == 24;
    if t > 0 {
      WalkArrival(t - 1);
    }
    if i > 1 {
      ArrivalWalk(i);
    }
    hide Walk, Arrival;
  }

  lemma RhoStep(s: Lanes, t: nat)
    requires t < 24
    ensures 1 <= Walk(t) < 25 && RhoAt(s, Walk(t), t) == s[Walk(t)]
    ensures RhoAt(s, Walk(t), t + 1) == Rotl(s[Walk(t)], Offset(Walk(t)))
    ensures forall i :: 0 <= i < 25 && i != Walk(t) ==> RhoAt(s, i, t + 1) == RhoAt(s, i, t)
  {
    VisitWalk(0, t);
    hide Visit, Rotl, Offset, Walk;
    VisitWalk(Walk(t), t);
    forall i | 0 <= i < 25 && i != Walk(t)
      ensures RhoAt(s, i, t + 1) == RhoAt(s, i, t)
    {
      VisitWalk(i, t);
    }
  }

  lemma RotlZero(x: bv64)
    ensures Rotl(x, 0) == x
  {
  }

  lemma RhoEnds(s: Lanes, i: nat)
    requires i < 25
    ensures RhoAt(s, i, 0) == s[i] && RhoAt(s, i, 24) == Rotl(s[i], Offset(i))
  {
    if i == 0 {
      RotlZero(s[0]);
      assert Offset(0) == 0;
    } else if i > 1 {
      ArrivalWalk(i);
      assert Walk(24) == 1;
    }
    hide Rotl;
  }

  ghost predicate RhoDone(s: Lanes, r: Lanes, t: nat) {
    forall i :: 0 <= i < 25 ==> r[i] == RhoAt(s, i, t)
  }

  lemma RhoUpdate(s: Lanes, r: Lanes, t: nat)
    requires t < 24 && RhoDone(s, r, t)
    ensures 1 <= Walk(t) < 25
    ensures RhoDone(s, r[Walk(t) := Rotl(r[Walk(t)], Offset(Walk(t)))], t + 1)
  {
    hide RhoAt, Rotl, Offset, Walk;
    RhoStep(s, t);
  }

  lemma RhoWhole(s: Lanes, r: Lanes)
    ensures RhoDone(s, s, 0) && (RhoDone(s, r, 24) ==> r == Rho(s))
  {
    hide RhoAt, Rotl, Offset;
    forall i | 0 <= i < 25
      ensures RhoAt(s, i, 0) == s[i] && RhoAt(s, i, 24) == Rotl(s[i], Offset(i))
    {
      RhoEnds(s, i);
    }
  }

  method RhoInPlace(a: array<bv64>)
    requires a.Length == 25
    modifies a
    ensures a[..] == Rho(old(a[..]))
  {
    ghost var s := a[..];
    var x, y := 1, 0;
    assert Walk(0) == 1;
    hide Rotl, Walk, Offset, RhoDone, Rho, Next;
    RhoWhole(s, s);
    for t := 0 to 24
      invariant 0 <= x < 5 && 0 <= y < 5 && 5 * y + x == Walk(t)
      invariant RhoDone(s, a[..], t)
    {
      RhoUpdate(s, a[..], t);
      OffsetWalk(t);
      WalkOn(x, y, t);
      ghost var r := a[..];
      a[5 * y + x] := Rotl(a[5 * y + x], ((t + 1) * (t + 2) / 2) % 64);
      assert a[..] == r[Walk(t) := Rotl(r[Walk(t)], Offset(Walk(t)))];
      var newY := (2 * x + 3 * y) % 5;
      x := y;
      y := newY;
    }
    RhoWhole(s, a[..]);
  }

  lemma NextLane(x: nat, y: nat)
    requires x < 5 && y < 5
    ensures Next(5 * y + x) == 5 * ((2 * x + 3 * y) % 5) + y && Source(5 * ((2 * x + 3 * y) % 5) + y) == 5 * y + x
  {
    assert (5 * y + x) % 5 == x && (5 * y + x) / 5 == y;
    var v := (2 * x + 3 * y) % 5;
    assert (5 * v + y) % 5 == y && (5 * v + y) / 5 == v;
    assert (y + 3 * v) % 5 == x;
  }

  lemma WalkOn(x: nat, y: nat, t: nat)
    requires x < 5 && y < 5 && t < 24 && 5 * y + x == Walk(t)
    ensures 0 <= (2 * x + 3 * y) % 5 < 5 && 5 * ((2 * x + 3 * y) % 5) + y == Walk(t + 1)
  {
    WalkStep(t);
    hide Walk;
    NextLane(x, y);
  }

  // ----- Pi -----

  /** Lane i, when the first t lanes of the walk were moved on. */
  function PiAt(s: Lanes, i: nat, t: nat): bv64
    requires i < 25
  {
    if i != 0 && Arrival(i) <= t then s[Source(i)] else s[i]
  }

  ghost predicate PiDone(s: Lanes, r: Lanes, t: nat) {
    forall i :: 0 <= i < 25 ==> r[i] == PiAt(s, i, t)
  }

  lemma ArrivalOnly(i: nat, t: nat)
    requires i < 25 && t < 24
    ensures 1 <= Walk(t + 1) < 25 && (i != 0 && Arrival(i) == t + 1 <==> i == Walk(t + 1))
  {
    WalkRange(t + 1);
    WalkArrival(t);
    if i != 0 {
      ArrivalWalk(i);
    }
    hide Walk, Arrival;
  }

  /** The lane the walk comes to is still the old one, and takes the lane the walk comes from. */
  lemma PiUpdate(s: Lanes, r: Lanes, t: nat)
    requires t < 24 && PiDone(s, r, t)
    ensures 1 <= Walk(t + 1) < 25 && Walk(t) < 25 && Source(Walk(t + 1)) == Walk(t)
    ensures r[Walk(t + 1)] == s[Walk(t + 1)]
    ensures PiDone(s, r[Walk(t + 1) := s[Walk(t)]], t + 1)
  {
    WalkStep(t);
    WalkRange(t);
    ArrivalOnly(0, t);
    hide Walk, Arrival;
    NextLane(Walk(t) % 5, Walk(t) / 5);
    hide Next, Source;
    ArrivalOnly(Walk(t + 1), t);
    var r' := r[Walk(t + 1) := s[Walk(t)]];
    forall i | 0 <= i < 25
      ensures r'[i] == PiAt(s, i, t + 1)
    {
      ArrivalOnly(i, t);
    }
  }

  lemma PiWhole(s: Lanes, r: Lanes)
    ensures PiDone(s, s, 0) && (PiDone(s, r, 24) ==> r == Pi(s))
  {
    forall i | 0 <= i < 25
      ensures PiAt(s, i, 0) == s[i] && PiAt(s, i, 24) == s[Source(i)]
    {
      if i == 0 {
        assert Source(0) == 0;
      } else {
        ArrivalWalk(i);
        hide Arrival, Walk, Source;
      }
    }
    hide PiAt;
  }

  /** Each lane is put where the walk goes next, with one lane held back. */
  method PiInPlace(a: array<bv64>)
    requires a.Length == 25
    modifies a
    ensures a[..] == Pi(old(a[..]))
  {
    ghost var s := a[..];
    var sx, sy := 1, 0;
    assert Walk(0) == 1;
    hide Walk, PiDone, Pi, Next, Source;
    PiWhole(s, s);
    var held := a[5 * sy + sx];
    for t := 0 to 24
      invariant 0 <= sx < 5 && 0 <= sy < 5 && 5 * sy + sx == Walk(t)
      invariant PiDone(s, a[..], t) && Walk(t) < 25 && held == s[Walk(t)]
    {
      ghost var r := a[..];
      WalkOn(sx, sy, t);
      PiUpdate(s, r, t);
      var tx := sy;
      var ty := (2 * sx + 3 * sy) % 5;
      var to := 5 * ty + tx;
      var next := a[to];
      a[to] := held;
      assert a[..] == r[to := held];
      held := next;
      sx := tx;
      sy := ty;
    }
    PiWhole(s, a[..]);
  }

  // ----- Chi, a row at a time -----

  method ChiRowInPlace(a: array<bv64>, y: nat)
    requires a.Length == 25 && y < 5
    modifies a
    ensures a[..] == old(a[..5 * y]) + ChiRow(old(a[5 * y..5 * y + 5])) + old(a[5 * y + 5..])
  {
    hide ChiAt, ChiRow;
    ghost var s, row := a[..], ChiRow(a[5 * y..5 * y + 5]);
    var c := a[5 * y..5 * y + 5];
    assert a[..] == s[..5 * y] + row[..0] + s[5 * y + 0..];
    for x := 0 to 5
      invariant a[..] == s[..5 * y] + row[..x] + s[5 * y + x..]
    {
      ghost var t := a[..];
      RowLane(c, x);
      PutNext(s, row, t, 5 * y, x);
      a[5 * y + x] := ChiAt(c, x);
      assert a[..] == t[5 * y + x := row[x]];
    }
    assert row[..5] == row;
  }

  lemma RowLane(c: seq<bv64>, x: nat)
    requires |c| == 5 && x < 5
    ensures ChiRow(c)[x] == ChiAt(c, x)
  {
    hide ChiAt;
  }

  lemma PutNext(s: Lanes, row: seq<bv64>, t: Lanes, at: nat, x: nat)
    requires at + 5 <= 25 && |row| == 5 && x < 5 && t == s[..at] + row[..x] + s[at + x..]
    ensures t[at + x := row[x]] == s[..at] + row[..x + 1] + s[at + x + 1..]
  {
  }

  method ChiInPlace(a: array<bv64>)
    requires a.Length == 25
    modifies a
    ensures a[..] == Chi(old(a[..]))
  {
    hide ChiRow, ChiRows;
    ghost var s := a[..];
    ChiStart(s, 0);
    for y := 0 to 5
      invariant a[..] == ChiRows(s, y) + s[5 * y..]
    {
      ChiStep(s, y + 1);
      assert (ChiRows(s, y) + s[5 * y..])[5 * y..5 * y + 5] == s[5 * y..5 * y + 5];
      ChiRowInPlace(a, y);
    }
    assert a[..] == ChiRows(s, |s| / 5);
  }

  lemma ChiStart(s: Lanes, y: nat)
    requires y == 0
    ensures s == ChiRows(s, y) + s[5 * y..]
  {
  }

  lemma ChiStep(s: Lanes, y: nat)
    requires 0 < y <= 5
    ensures ChiRows(s, y) == ChiRows(s, y - 1) + ChiRow(s[5 * y - 5..5 * y])
  {
  }

  // ----- All rounds -----

  function Round(s: Lanes, r: nat): Lanes
    requires r < 24
  {
    Iota(Chi(Pi(Rho(Theta(s)))), r)
  }

  const ROUNDS: nat := 24

  /** The first n rounds of the permutation, section 3.3 of FIPS 202. */
  function Rounds(s: Lanes, n: nat): Lanes
    requires n <= ROUNDS
  {
    if n == 0 then s else Round(Rounds(s, n - 1), n - 1)
  }

  method Permute(a: array<bv64>)
    requires a.Length == 25
    modifies a
    ensures a[..] == Rounds(old(a[..]), ROUNDS)
  {
    hide Theta, Rho, Pi, Chi, Xor, Rounds;
    ghost var s := a[..];
    NoRounds(s, 0);
    for r := 0 to ROUNDS
      invariant a[..] == Rounds(s, r)
    {
      RoundsStep(s, r);
      ThetaInPlace(a);
      RhoInPlace(a);
      PiInPlace(a);
      ChiInPlace(a);
      ghost var t := a[..];
      a[0] := Xor(a[0], RoundConstant(r));
      assert a[..] == Iota(t, r);
    }
  }

  lemma NoRounds(s: Lanes, n: nat)
    requires n == 0
    ensures Rounds(s, n) == s
  {
  }

  lemma RoundsStep(s: Lanes, r: nat)
    requires r < ROUNDS
    ensures Rounds(s, r + 1) == Round(Rounds(s, r), r)
  {
    hide Round;
  }
}

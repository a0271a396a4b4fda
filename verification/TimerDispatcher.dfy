/** The list of active timers of core/src/timer_dispatcher.cpp. */
module TimerDispatcher {
  import opened Timer

  ghost predicate Distinct(ts: seq<Timer>) {
    forall i, j :: 0 <= i < j < |ts| ==> ts[i] != ts[j]
  }

  ghost predicate Sorted(ts: seq<Timer>)
    reads ts
  {
    forall i, j :: 0 <= i < j < |ts| ==> ts[i].expiration <= ts[j].expiration
  }

  ghost predicate Active(ts: seq<Timer>)
    reads ts
  {
    forall i :: 0 <= i < |ts| ==> ts[i].kind != Unknown
  }

  ghost predicate AllValid(ts: seq<Timer>)
    reads ts
  {
    forall i :: 0 <= i < |ts| ==> ts[i].Valid()
  }

  /** Puts a timer into its place. */
  method InsertOrdered(ts: seq<Timer>, timer: Timer) returns (r: seq<Timer>)
    requires Sorted(ts)
    ensures Sorted(r) && multiset(r) == multiset(ts) + multiset{timer}
  {
    hide Sorted;
    var i := 0;
    while i < |ts| && ts[i].expiration <= timer.expiration
      invariant 0 <= i <= |ts| && forall k :: 0 <= k < i ==> ts[k].expiration <= timer.expiration
    {
      i := i + 1;
    }
    r := ts[..i] + [timer] + ts[i..];
    PlacedSorted(ts, i, timer);
    PlacedMembers(ts, i, timer);
  }

  lemma PlacedSorted(ts: seq<Timer>, i: nat, timer: Timer)
    requires Sorted(ts) && i <= |ts|
    requires forall k :: 0 <= k < i ==> ts[k].expiration <= timer.expiration
    requires i < |ts| ==> timer.expiration < ts[i].expiration
    ensures Sorted(ts[..i] + [timer] + ts[i..])
  {
  }

  lemma PlacedMembers(ts: seq<Timer>, i: nat, timer: Timer)
    requires i <= |ts|
    ensures multiset(ts[..i] + [timer] + ts[i..]) == multiset(ts) + multiset{timer}
  {
    assert ts == ts[..i] + ts[i..];
  }

  /** Any order by expiration will do; this one is by insertion. */
  method SortTimers(ts: seq<Timer>) returns (r: seq<Timer>)
    ensures Sorted(r) && multiset(r) == multiset(ts)
  {
    r := [];
    for i := 0 to |ts|
      invariant Sorted(r) && multiset(r) == multiset(ts[..i])
    {
      r := InsertOrdered(r, ts[i]);
      assert ts[..i + 1] == ts[..i] + [ts[i]];
    }
    assert ts[..|ts|] == ts;
  }

  lemma DistinctSame(ts: seq<Timer>, r: seq<Timer>)
    requires Distinct(ts) && multiset(r) == multiset(ts)
    ensures Distinct(r) && forall x :: x in r <==> x in ts
  {
    forall i, j | 0 <= i < j < |r|
      ensures r[i] != r[j]
    {
      if r[i] == r[j] {
        Twice(r, i, j);
        Once(ts, r[i]);
      }
    }
    forall x
      ensures x in r <==> x in ts
    {
      assert x in r <==> x in multiset(r);
    }
  }

  lemma Twice(r: seq<Timer>, i: nat, j: nat)
    requires i < j < |r| && r[i] == r[j]
    ensures multiset(r)[r[i]] >= 2
  {
    assert r == r[..i] + [r[i]] + r[i + 1..j] + [r[j]] + r[j + 1..];
  }

  lemma {:induction false} Once(ts: seq<Timer>, x: Timer)
    requires Distinct(ts)
    ensures multiset(ts)[x] <= 1
  {
    if |ts| != 0 {
      Once(ts[1..], x);
      assert ts == [ts[0]] + ts[1..];
      if ts[0] == x {
        assert x !in ts[1..];
      }
    }
  }

  /** The timer was due and fired. */
  twostate predicate FiredNow(x: Timer, t: int)
    reads x
  {
    && old(x.expiration) <= t && x.Valid()
    && Fired(old(x.kind), old(x.expiration), old(x.interval), t, x.kind, x.expiration)
  }

  twostate predicate NotDue(x: Timer, t: int)
    reads x
  {
    old(x.expiration) > t && unchanged(x)
  }

  /** Division that rounds towards zero. */
  function Truncated(x: int, n: int): int
    requires n > 0
  {
    if x >= 0 then x / n else -(-x / n)
  }

  class Dispatcher {
    var timers: seq<Timer>
    /** The timers whose expiration was published. */
    var fired: seq<Timer>
    /** How often the loop was told of a change. */
    var triggers: nat

    ghost predicate Valid()
      reads this, timers
    {
      Distinct(timers) && Sorted(timers) && Active(timers) && AllValid(timers)
    }

    constructor ()
      ensures Valid() && timers == [] && fired == [] && triggers == 0
    {
      timers, fired, triggers := [], [], 0;
    }

    method EraseInactive()
      requires Distinct(timers)
      modifies `timers
      ensures Distinct(timers) && Active(timers)
      ensures forall x :: x in timers <==> x in old(timers) && x.kind != Unknown
    {
      ghost var before := timers;
      var i := 0;
      while i < |timers|
        invariant 0 <= i <= |timers| && Distinct(timers)
        invariant forall k :: 0 <= k < i ==> timers[k].kind != Unknown
        invariant forall x :: x in timers ==> x in before
        invariant forall x :: x in before && x.kind != Unknown ==> x in timers
        decreases |timers| - i
      {
        if timers[i].kind == Unknown {
          ErasedMembers(timers, i);
          hide Distinct;
          timers := timers[..i] + timers[i + 1..];
        } else {
          i := i + 1;
        }
      }
    }

    /** Erases the timers that are not active, and orders the others by expiration. */
    method Sort()
      requires Distinct(timers) && AllValid(timers)
      modifies `timers
      ensures Valid()
      ensures forall x :: x in timers <==> x in old(timers) && x.kind != Unknown
    {
      hide Sorted;
      ghost var before := timers;
      EraseInactive();
      ghost var active := timers;
      timers := SortTimers(timers);
      DistinctSame(active, timers);
      hide Distinct;
      forall i | 0 <= i < |timers|
        ensures timers[i].kind != Unknown && timers[i].Valid()
      {
        assert timers[i] in active && timers[i] in before;
      }
    }

    method Insert(timer: Timer)
      requires Distinct(timers) && AllValid(timers) && timer !in timers && timer.Valid()
      modifies this
      ensures Valid() && triggers == old(triggers) + 1 && fired == old(fired)
      ensures forall x :: x in timers <==> (x in old(timers) || x == timer) && x.kind != Unknown
    {
      timers := timers + [timer];
      Sort();
      triggers := triggers + 1;
    }

    method Remove(timer: Timer)
      requires Distinct(timers) && AllValid(timers)
      modifies this
      ensures Valid() && triggers == old(triggers) + 1 && fired == old(fired)
      ensures forall x :: x in timers <==> x in old(timers) && x != timer && x.kind != Unknown
    {
      var pos := 0;
      while pos < |timers| && timers[pos] != timer
        invariant 0 <= pos <= |timers| && timer !in timers[..pos]
      {
        pos := pos + 1;
      }
      if pos != |timers| {
        ErasedMembers(timers, pos);
        timers := timers[..pos] + timers[pos + 1..];
      } else {
        assert timers[..pos] == timers;
      }
      Sort();
      triggers := triggers + 1;
    }

    /** Fires the timers at the front that are due. */
    method FireDue(t: int) returns (n: nat)
      requires Valid()
      modifies timers, `fired
      ensures n <= |timers| && fired == old(fired) + timers[..n]
      ensures forall i :: 0 <= i < n ==> FiredNow(timers[i], t)
      ensures forall i :: n <= i < |timers| ==> NotDue(timers[i], t)
    {
      n := 0;
      while n < |timers|
        modifies timers, `fired
        invariant 0 <= n <= |timers| && fired == old(fired) + timers[..n]
        invariant forall i :: 0 <= i < n ==> FiredNow(timers[i], t)
        invariant forall i :: n <= i < |timers| ==> unchanged(timers[i])
      {
        if timers[n].expiration > t {
          break;
        }
        hide Fired, Sorted;
        timers[n].OnExpired(t);
        fired := fired + [timers[n]];
        n := n + 1;
      }
    }

    /** Fires exactly the timers that are due, each once; the once-off ones are gone, the others stay. */
    method Dispatch(t: int)
      requires Valid()
      modifies this`timers, this`fired, timers
      ensures Valid() && old(fired) <= fired && Distinct(fired[|old(fired)|..])
      ensures forall x :: x in fired[|old(fired)|..] <==> x in old(timers) && old(x.expiration) <= t
      ensures forall x :: x in old(timers) ==> FiredNow(x, t) || NotDue(x, t)
      ensures forall x :: x in timers <==> x in old(timers) && !(old(x.expiration) <= t && old(x.kind) == OnceOff)
      ensures forall x :: x in timers ==> x.expiration >= t
    {
      hide Sorted;
      ghost var before, done := timers, fired;
      var n := FireDue(t);
      assert fired[|done|..] == before[..n];
      forall x | x in before
        ensures x in before[..n] <==> old(x.expiration) <= t
        ensures FiredNow(x, t) || NotDue(x, t)
        ensures x.kind != Unknown <==> !(old(x.expiration) <= t && old(x.kind) == OnceOff)
        ensures x.kind != Unknown ==> x.expiration >= t
      {
        var k :| 0 <= k < |before| && before[k] == x;
      }
      assert AllValid(timers);
      hide Fired;
      Sort();
    }

    /** The milliseconds until the first timer is due, rounded down; the most there are without timers. */
    method WaitDuration(epoch: int) returns (duration: nat)
      requires Valid()
      ensures timers == [] ==> duration == MAX_TIME
      ensures forall x :: x in timers ==> duration == 0 || epoch + duration * MILLISECOND <= x.expiration
      ensures timers != [] ==> exists x :: x in timers && x.expiration < epoch + (duration + 1) * MILLISECOND
    {
      if |timers| == 0 {
        return MAX_TIME;
      }
      var first := timers[0];
      assert first in timers;
      assert forall x :: x in timers ==> first.expiration <= x.expiration;
      var d := Truncated(first.expiration - epoch, MILLISECOND);
      if d < 0 {
        return 0;
      }
      return d;
    }
  }

  lemma ErasedMembers(ts: seq<Timer>, i: nat)
    requires Distinct(ts) && i < |ts|
    ensures Distinct(ts[..i] + ts[i + 1..])
    ensures forall x :: x in ts[..i] + ts[i + 1..] <==> x in ts && x != ts[i]
  {
    forall x
      ensures x in ts[..i] + ts[i + 1..] <==> x in ts && x != ts[i]
    {
      if x in ts && x != ts[i] {
        var k :| 0 <= k < |ts| && ts[k] == x;
        if k < i {
          assert ts[..i][k] == x;
        } else {
          assert ts[i + 1..][k - i - 1] == x;
        }
      }
    }
  }
}

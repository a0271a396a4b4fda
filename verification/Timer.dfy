/** The timers of core/src/timer.cpp. Times are in nanoseconds and intervals in milliseconds. A timer is stopped,
    once-off or periodic; it has an epoch, from which its times are counted, and an expiration, which is the
    time it is due, and which moves on by whole intervals when a periodic timer has expired. */
module Timer {
  import ModArith

  datatype Kind = Unknown | Periodic | OnceOff

  const MILLISECOND := 1_000_000

  /** The last time point there is. */
  const MAX_TIME := 0x7fff_ffff_ffff_ffff

  /** The least of the times e, e + step, e + 2 step and so on that is not before t. */
  ghost predicate CaughtUp(e: int, step: int, t: int, e': int) {
    e' >= t && (e' == e || (e' - step < t && e <= e' - step)) && Reached(e, step, e')
  }

  ghost predicate Reached(e: int, step: int, e': int) {
    exists n: nat :: e' == Later(e, n, step)
  }

  function Later(e: int, n: nat, step: int): int { e + n * step }

  lemma LaterStep(e: int, n: nat, step: int)
    ensures Later(e, n, step) + step == Later(e, n + 1, step)
  {
  }

  lemma LaterMono(e: int, m: nat, n: nat, step: int)
    requires m <= n && step >= 0
    ensures Later(e, m, step) <= Later(e, n, step)
  {
    assert m * step <= n * step;
  }

  /** A caught-up time comes before all the others that are not before t; the time itself stays when it
      is not before t. */
  lemma CaughtUpIsLeast(e: int, step: int, t: int, e': int, m: nat)
    requires step > 0 && CaughtUp(e, step, t, e') && Later(e, m, step) >= t
    ensures e' <= Later(e, m, step) && (e >= t ==> e' == e)
  {
    var n: nat :| e' == Later(e, n, step);
    if n > 0 {
      LaterStep(e, n - 1, step);
      if m < n {
        LaterMono(e, m, n - 1, step);
      }
      LaterMono(e, 0, n - 1, step);
    }
    if m >= n {
      LaterMono(e, n, m, step);
    }
  }

  /** Catching up leaves a timer due at t exactly when t is one of its times; the comment in the code
      speaks of the next point past t. */
  lemma StillDue(e: int, step: int, t: int, e': int)
    requires step > 0 && CaughtUp(e, step, t, e') && e <= t
    ensures e' <= t <==> (t - e) % step == 0
  {
    var n: nat :| e' == Later(e, n, step);
    if (t - e) % step == 0 {
      var m := (t - e) / step;
      assert t - e == step * m;
      assert Later(e, m, step) == t;
      CaughtUpIsLeast(e, step, t, e', m);
    }
    if e' <= t {
      assert t - e == n * step;
      MultipleMod(n, step);
    }
  }

  lemma MultipleMod(n: int, step: int)
    requires step > 0
    ensures n * step % step == 0
  {
    assert n * step == 0 + n * step;
    ModArith.ModWitness(0, n, step);
  }

  class Timer {
    var kind: Kind
    var interval: nat
    var epoch: int
    var expiration: int

    ghost predicate Valid()
      reads this
    {
      kind == Periodic ==> interval > 0
    }

    constructor ()
      ensures Valid() && kind == Unknown && expiration == MAX_TIME && interval == 0 && epoch == 0
    {
      kind, interval, epoch, expiration := Unknown, 0, 0, MAX_TIME;
    }

    /** Starts a periodic timer; false where the code throws. */
    method Start(interval: nat, epoch: int) returns (ok: bool)
      modifies this
      ensures ok == (interval != 0)
      ensures ok ==> Valid() && kind == Periodic && this.interval == interval && expiration == epoch + interval * MILLISECOND
      ensures !ok ==> unchanged(this)
    {
      if interval == 0 {
        return false;
      }
      kind, this.interval, this.epoch := Periodic, interval, epoch;
      expiration := this.epoch + this.interval * MILLISECOND;
      ok := true;
    }

    /** Starts a once-off timer. */
    method At(epoch: int)
      modifies this
      ensures Valid() && kind == OnceOff && interval == 0 && this.epoch == expiration == epoch
    {
      kind, interval := OnceOff, 0;
      this.epoch, expiration := epoch, epoch;
    }

    method Stop()
      modifies `kind, `expiration
      ensures Valid() && kind == Unknown && expiration == MAX_TIME
    {
      kind, expiration := Unknown, MAX_TIME;
    }

    /** The timer fires at a time: a periodic one moves on, a once-off one is over. */
    method OnExpired(t: int)
      requires Valid()
      modifies `kind, `expiration
      ensures Valid() && Fired(old(kind), old(expiration), interval, t, kind, expiration)
    {
      if kind == Periodic {
        ghost var e, n: nat := expiration, 0;
        assert expiration == Later(e, 0, interval * MILLISECOND);
        while expiration < t
          invariant kind == Periodic && e <= expiration && expiration == Later(e, n, interval * MILLISECOND)
          invariant expiration == e || (expiration - interval * MILLISECOND < t && e <= expiration - interval * MILLISECOND)
          decreases t - expiration
        {
          LaterStep(e, n, interval * MILLISECOND);
          expiration := expiration + interval * MILLISECOND;
          n := n + 1;
        }
        assert Reached(e, interval * MILLISECOND, expiration);
      } else if kind == OnceOff {
        kind := Unknown;
      }
    }
  }

  /** What firing at t does to a timer. */
  ghost predicate Fired(kind: Kind, e: int, interval: nat, t: int, kind': Kind, e': int) {
    match kind
    case Periodic => kind' == Periodic && CaughtUp(e, interval * MILLISECOND, t, e')
    case OnceOff => kind' == Unknown && e' == e
    case Unknown => kind' == Unknown && e' == e
  }
}

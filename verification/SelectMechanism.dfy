/** The operations of core/src/posix/select_mechanism.cpp on its list, each under the lock. */
module SelectMechanism {
  import opened SelectEvents
  import opened Wrappers

  /** What readiness is asked for. */
  function Asked(events: seq<Event>, write: bool): set<int> {
    set e | e in events && e.handle.Some? && (if write then e.writing else e.reading) :: e.handle.value
  }

  class Mechanism {
    /** The descriptor of the mechanism's own signal. */
    const own: int
    var events: seq<Event>
    /** Bytes in the pipe of the signal that were not read. */
    var bytes: nat
    /** The events handed to the workers. */
    var queue: seq<Event>

    constructor (own: int, selfEvent: Event, timersEvent: Event)
      requires selfEvent.handle == Some(own) && selfEvent.reading && timersEvent.topic != selfEvent.topic
      ensures this.own == own && events == [selfEvent, timersEvent] && bytes == 0 && queue == []
    {
      this.own, events, bytes, queue := own, [selfEvent, timersEvent], 0, [];
    }

    method Nop()
      modifies `bytes
      ensures bytes == old(bytes) + 1
    {
      bytes := bytes + 1;
    }

    /** The position of the first event of a topic, or the end. */
    method Find(topic: int) returns (i: nat)
      ensures i <= |events| && Erased(events, topic) == (if i < |events| then events[..i] + events[i + 1..] else events)
      ensures i < |events| ==> events[i].topic == topic
      ensures forall k :: 0 <= k < i ==> events[k].topic != topic
    {
      i := 0;
      assert events[..0] + Erased(events[0..], topic) == Erased(events, topic);
      while i < |events| && events[i].topic != topic
        invariant i <= |events| && events[..i] + Erased(events[i..], topic) == Erased(events, topic)
        invariant forall k :: 0 <= k < i ==> events[k].topic != topic
      {
        assert events[i..][1..] == events[i + 1..] && events[..i + 1] == events[..i] + [events[i]];
        i := i + 1;
      }
      if i < |events| {
        assert events[i..][1..] == events[i + 1..];
      } else {
        assert events[..i] == events && events[i..] == [];
      }
    }

    /** Replaces or adds an event, and wakes the loop. */
    method Add(e: Event)
      modifies `events, `bytes
      ensures events == Added(old(events), e) && bytes == old(bytes) + 1
    {
      var found := Find(e.topic);
      if found != |events| {
        events := events[..found] + events[found + 1..];
      }
      events := events + [e];
      Nop();
    }

    /** Takes an event away, and wakes the loop when there was one. */
    method Remove(topic: int)
      modifies `events, `bytes
      ensures events == Erased(old(events), topic)
      ensures bytes == old(bytes) + if HasTopic(old(events), topic) then 1 else 0
    {
      var found := Find(topic);
      if found != |events| {
        events := events[..found] + events[found + 1..];
        Nop();
      }
    }

    /** The descriptors to wait for, and the largest of them. */
    method Multiplex() returns (readfds: set<int>, writefds: set<int>, maxfd: int)
      ensures readfds == Asked(events, false) && writefds == Asked(events, true)
      ensures forall h :: h in readfds || h in writefds ==> h <= maxfd
      ensures maxfd == -1 || maxfd in readfds || maxfd in writefds
    {
      readfds, writefds, maxfd := {}, {}, -1;
      for i := 0 to |events|
        invariant readfds == Asked(events[..i], false) && writefds == Asked(events[..i], true)
        invariant forall h :: h in readfds || h in writefds ==> h <= maxfd
        invariant maxfd == -1 || maxfd in readfds || maxfd in writefds
      {
        var e := events[i];
        assert events[..i + 1] == events[..i] + [e];
        if e.handle.Some? && e.reading {
          readfds := readfds + {e.handle.value};
          maxfd := if e.handle.value > maxfd then e.handle.value else maxfd;
        }
        if e.handle.Some? && e.writing {
          writefds := writefds + {e.handle.value};
          maxfd := if e.handle.value > maxfd then e.handle.value else maxfd;
        }
      }
      assert events[..|events|] == events;
    }

    /** Reads a byte of the signal, if there is one. */
    method CaptureSignal()
      modifies `bytes
      ensures bytes == if old(bytes) > 0 then old(bytes) - 1 else 0
    {
      if bytes > 0 {
        bytes := bytes - 1;
      }
    }

    /** During a pass: what it has made of the events before the rest, and what the rest adds to that. */
    ghost predicate HalfPassed(es: seq<Event>, bytes0: nat, ready: set<int>, write: bool,
                               kept: seq<Event>, rest: seq<Event>, triggered: seq<Event>, left: nat) {
      && Kept(es, own, ready, write) == kept + Kept(rest, own, ready, write)
      && Taken(es, own, ready, write) == triggered + Taken(rest, own, ready, write)
      && Less(bytes0, Captures(es, own, ready, write)) == Less(left, Captures(rest, own, ready, write))
    }

    lemma PassStep(es: seq<Event>, bytes0: nat, ready: set<int>, write: bool,
                   kept: seq<Event>, rest: seq<Event>, triggered: seq<Event>, left: nat)
      requires HalfPassed(es, bytes0, ready, write, kept, rest, triggered, left) && |rest| > 0
      ensures
        var e := rest[0];
        var fate := FateOf(e, own, ready, write);
        HalfPassed(es, bytes0, ready, write, if fate.Keep? || fate.Capture? then kept + [e] else kept, rest[1..],
          if fate.Take? then triggered + [e] else triggered, if fate.Capture? then Less(left, 1) else left)
    {
    }

    /** One pass over the list. */
    method Pass(ready: set<int>, write: bool) returns (triggered: seq<Event>)
      modifies `events, `bytes
      ensures events == Kept(old(events), own, ready, write)
      ensures triggered == Taken(old(events), own, ready, write)
      ensures bytes == Less(old(bytes), Captures(old(events), own, ready, write))
    {
      triggered := [];
      ghost var es := events;
      var i := 0;
      assert events[..0] == [] && events[0..] == events;
      while i < |events|
        invariant 0 <= i <= |events|
        invariant HalfPassed(es, old(bytes), ready, write, events[..i], events[i..], triggered, bytes)
        decreases |events| - i
      {
        hide HalfPassed;
        var e := events[i];
        ghost var kept, rest := events[..i], events[i + 1..];
        assert events[i..] == [e] + rest;
        PassStep(es, old(bytes), ready, write, kept, [e] + rest, triggered, bytes);
        assert ([e] + rest)[1..] == rest;
        if e.handle.None? {
          events := events[..i] + events[i + 1..];
        } else if (if write then e.writing else e.reading) && e.handle.value in ready && e.handle.value != own {
          triggered := triggered + [e];
          events := events[..i] + events[i + 1..];
        } else {
          if (if write then e.writing else e.reading) && e.handle.value in ready {
            CaptureSignal();
          }
          i := i + 1;
          assert events[..i] == kept + [e];
        }
        assert events[i..] == rest;
      }
    }

    /** Takes the signalled events off the list, reads over writes first, and hands them to the workers. */
    method Demultiplex(readable: set<int>, writable: set<int>)
      modifies `events, `bytes, `queue
      ensures events == Left(old(events), own, readable, writable)
      ensures queue == old(queue) + Triggered(old(events), own, readable, writable)
      ensures bytes == Less(Less(old(bytes), Captures(old(events), own, readable, false)),
        Captures(Kept(old(events), own, readable, false), own, writable, true))
    {
      var triggered := Pass(readable, false);
      var written := Pass(writable, true);
      triggered := triggered + written;
      for i := 0 to |triggered|
        modifies `queue
        invariant queue == old(queue) + triggered[..i]
      {
        queue := queue + [triggered[i]];
      }
      assert triggered[..|triggered|] == triggered;
    }

    /** Takes events on closed descriptors away. */
    method RemoveBadf(bad: set<int>)
      modifies `events
      ensures events == Usable(old(events), bad)
    {
      ghost var es := events;
      var i := 0;
      while i < |events|
        invariant 0 <= i <= |events|
        invariant Usable(es, bad) == events[..i] + Usable(events[i..], bad)
        decreases |events| - i
      {
        ghost var rest := events[i + 1..];
        if events[i].handle.Some? && events[i].handle.value in bad {
          events := events[..i] + events[i + 1..];
        } else {
          i := i + 1;
        }
        assert events[i..] == rest;
      }
    }
  }

  /** A count less so many, not below zero. */
  function Less(n: nat, m: nat): nat { if m < n then n - m else 0 }
}

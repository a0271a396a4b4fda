/** The list of events of core/src/posix/select_mechanism.cpp and what its operations make of it. */
module SelectEvents {
  import opened Wrappers

  /** A topic, the handle that signals it, and the signals waited for; handles are file descriptors. */
  datatype Event = Event(topic: int, handle: Option<int>, reading: bool, writing: bool)

  /** Without the first event of a topic. */
  function Erased(events: seq<Event>, topic: int): seq<Event> {
    if |events| == 0 then []
    else if events[0].topic == topic then events[1..]
    else [events[0]] + Erased(events[1..], topic)
  }

  /** An event is put at the end, in place of one with its topic. */
  function Added(events: seq<Event>, e: Event): seq<Event> {
    Erased(events, e.topic) + [e]
  }

  ghost predicate Unique(events: seq<Event>) {
    forall i, j :: 0 <= i < j < |events| ==> events[i].topic != events[j].topic
  }

  ghost predicate HasTopic(events: seq<Event>, topic: int) {
    exists i :: 0 <= i < |events| && events[i].topic == topic
  }

  lemma {:induction false} ErasedTopics(events: seq<Event>, topic: int)
    requires Unique(events)
    ensures Unique(Erased(events, topic)) && !HasTopic(Erased(events, topic), topic)
    ensures forall e :: e in Erased(events, topic) <==> e in events && e.topic != topic
  {
    if |events| != 0 {
      var rest := events[1..];
      ErasedTopics(rest, topic);
      if events[0].topic != topic {
        var r := Erased(rest, topic);
        forall j | 0 <= j < |r|
          ensures r[j].topic != events[0].topic
        {
          assert r[j] in rest;
        }
      }
    }
  }

  /** The list keeps one event to a topic, and adding replaces only that topic's. */
  lemma AddedTopics(events: seq<Event>, e: Event)
    requires Unique(events)
    ensures Unique(Added(events, e))
    ensures forall x :: x in Added(events, e) <==> x == e || (x in events && x.topic != e.topic)
  {
    ErasedTopics(events, e.topic);
    var r := Erased(events, e.topic);
    forall j | 0 <= j < |r|
      ensures r[j].topic != e.topic
    {
    }
  }

  // ----- Going through the list after a select -----

  datatype Fate = Drop | Keep | Capture | Take

  /** What one pass does with an event: the pass over reads or over writes. */
  function FateOf(e: Event, own: int, ready: set<int>, write: bool): Fate {
    if e.handle.None? then Drop
    else if (if write then e.writing else e.reading) && e.handle.value in ready then
      (if e.handle.value == own then Capture else Take)
    else Keep
  }

  function Kept(events: seq<Event>, own: int, ready: set<int>, write: bool): seq<Event> {
    if |events| == 0 then []
    else
      var rest := Kept(events[1..], own, ready, write);
      var fate := FateOf(events[0], own, ready, write);
      if fate.Keep? || fate.Capture? then [events[0]] + rest else rest
  }

  function Taken(events: seq<Event>, own: int, ready: set<int>, write: bool): seq<Event> {
    if |events| == 0 then []
    else
      var rest := Taken(events[1..], own, ready, write);
      if FateOf(events[0], own, ready, write).Take? then [events[0]] + rest else rest
  }

  /** How often the mechanism's own signal is captured. */
  function Captures(events: seq<Event>, own: int, ready: set<int>, write: bool): nat {
    if |events| == 0 then 0
    else
      var rest := Captures(events[1..], own, ready, write);
      if FateOf(events[0], own, ready, write).Capture? then 1 + rest else rest
  }

  /** Events without a handle are dropped; every other event is kept or taken. */
  lemma {:induction false} PassMembers(events: seq<Event>, own: int, ready: set<int>, write: bool, e: Event)
    ensures e in Kept(events, own, ready, write)
      <==> e in events && (FateOf(e, own, ready, write).Keep? || FateOf(e, own, ready, write).Capture?)
    ensures e in Taken(events, own, ready, write) <==> e in events && FateOf(e, own, ready, write).Take?
  {
    if |events| != 0 {
      PassMembers(events[1..], own, ready, write, e);
    }
  }

  lemma {:induction false} PassUnique(events: seq<Event>, own: int, ready: set<int>, write: bool)
    requires Unique(events)
    ensures Unique(Kept(events, own, ready, write)) && Unique(Taken(events, own, ready, write))
  {
    if |events| != 0 {
      var k, t := Kept(events[1..], own, ready, write), Taken(events[1..], own, ready, write);
      PassUnique(events[1..], own, ready, write);
      forall j | 0 <= j < |k|
        ensures k[j].topic != events[0].topic
      {
        PassMembers(events[1..], own, ready, write, k[j]);
      }
      forall j | 0 <= j < |t|
        ensures t[j].topic != events[0].topic
      {
        PassMembers(events[1..], own, ready, write, t[j]);
      }
    }
  }

  /** Both passes: what is left, and what is queued. */
  function Left(events: seq<Event>, own: int, readable: set<int>, writable: set<int>): seq<Event> {
    Kept(Kept(events, own, readable, false), own, writable, true)
  }

  function Triggered(events: seq<Event>, own: int, readable: set<int>, writable: set<int>): seq<Event> {
    Taken(events, own, readable, false) + Taken(Kept(events, own, readable, false), own, writable, true)
  }

  /** An event is signalled when it waits for reads and can be read, or for writes and can be written. */
  predicate Signalled(e: Event, readable: set<int>, writable: set<int>) {
    e.handle.Some? && ((e.reading && e.handle.value in readable) || (e.writing && e.handle.value in writable))
  }

  /** Exactly the signalled events, except the mechanism's own, leave the list, and each is queued
      once, also when it can be read and written. */
  lemma EachOnce(events: seq<Event>, own: int, readable: set<int>, writable: set<int>)
    requires Unique(events)
    ensures Unique(Left(events, own, readable, writable)) && Unique(Triggered(events, own, readable, writable))
    ensures forall e :: (e in Triggered(events, own, readable, writable)
      <==> e in events && Signalled(e, readable, writable) && e.handle.value != own)
    ensures forall e :: (e in Left(events, own, readable, writable)
      <==> e in events && e.handle.Some? && (e.handle.value == own || !Signalled(e, readable, writable)))
  {
    var k := Kept(events, own, readable, false);
    var t1, t2 := Taken(events, own, readable, false), Taken(k, own, writable, true);
    PassUnique(events, own, readable, false);
    PassUnique(k, own, writable, true);
    forall e
      ensures e in Triggered(events, own, readable, writable)
        <==> e in events && Signalled(e, readable, writable) && e.handle.value != own
      ensures e in Left(events, own, readable, writable)
        <==> e in events && e.handle.Some? && (e.handle.value == own || !Signalled(e, readable, writable))
    {
      PassMembers(events, own, readable, false, e);
      PassMembers(k, own, writable, true, e);
    }
    forall i, j | 0 <= i < |t1| && 0 <= j < |t2|
      ensures t1[i].topic != t2[j].topic
    {
      PassMembers(events, own, readable, false, t1[i]);
      PassMembers(k, own, writable, true, t2[j]);
      PassMembers(events, own, readable, false, t2[j]);
    }
  }

  /** Without the events on closed descriptors; events without a handle stay. */
  function Usable(events: seq<Event>, bad: set<int>): seq<Event> {
    if |events| == 0 then []
    else if events[0].handle.Some? && events[0].handle.value in bad then Usable(events[1..], bad)
    else [events[0]] + Usable(events[1..], bad)
  }

  lemma {:induction false} UsableMembers(events: seq<Event>, bad: set<int>)
    ensures forall e :: e in Usable(events, bad) <==> e in events && !(e.handle.Some? && e.handle.value in bad)
    ensures Unique(events) ==> Unique(Usable(events, bad))
  {
    if |events| != 0 {
      UsableMembers(events[1..], bad);
      var r := Usable(events[1..], bad);
      if Unique(events) {
        forall j | 0 <= j < |r|
          ensures r[j].topic != events[0].topic
        {
          assert r[j] in events[1..];
        }
      }
    }
  }
}

/** The threads of core/src/posix/select_mechanism.cpp, interleaved. */
module SelectRuns {
  import opened SelectEvents
  import opened SelectMechanism
  import opened Wrappers

  /** Where the loop is: not running; about to test the flag; past the test; waiting in select for the
      events shown to it; back from select; past the loop. */
  datatype Loop =
    | Off
    | Testing
    | Armed
    | Waiting(shown: seq<Event>)
    | Woken(readable: set<int>, writable: set<int>)
    | Leaving

  datatype State = State(
    self: Event,
    events: seq<Event>,
    queue: seq<Event>,
    busy: seq<Event>,
    bytes: nat,
    running: bool,
    loop: Loop,
    starting: nat,
    storing: nat,
    stopping: nat)

  datatype Step =
    | ClientAdd(e: Event)
    | ClientRemove(topic: int)
    | TerminateTest
    | TerminateStore
    | TerminateNop
    | InitiateExchange
    | InitiateStart
    | LoopTest
    | LoopMultiplex
    | LoopSelect(readable: set<int>, writable: set<int>)
    | LoopBadFd(bad: set<int>)
    | LoopDemultiplex
    | LoopLeave
    | WorkerTake
    | WorkerAgain(i: nat)
    | WorkerDone(i: nat)

  function Own(s: State): int
    requires s.self.handle.Some?
  {
    s.self.handle.value
  }

  /** Events of others have topics and handles of their own. */
  predicate Foreign(self: Event, e: Event) {
    e.topic != self.topic && e.handle != self.handle
  }

  /** The mechanism after construction. */
  ghost predicate Init(s: State) {
    && s.self.handle.Some? && s.self.reading && !s.self.writing
    && |s.events| == 2 && s.events[0] == s.self && Foreign(s.self, s.events[1])
    && s.queue == [] && s.busy == [] && s.bytes == 0 && !s.running && s.loop == Off
    && s.starting == 0 && s.storing == 0 && s.stopping == 0
  }

  /** What select can report: of what it was asked, and its own signal exactly when bytes are there. */
  ghost predicate Reports(s: State, shown: seq<Event>, readable: set<int>, writable: set<int>)
    requires s.self.handle.Some?
  {
    && readable <= Asked(shown, false) && writable <= Asked(shown, true)
    && (Own(s) in Asked(shown, false) ==> (Own(s) in readable <==> s.bytes > 0))
  }

  ghost predicate Enabled(s: State, step: Step)
    requires s.self.handle.Some?
  {
    match step
    case ClientAdd(e) => Foreign(s.self, e)
    case ClientRemove(topic) => topic != s.self.topic
    case TerminateTest => s.running
    case TerminateStore => s.storing > 0
    case TerminateNop => s.stopping > 0
    case InitiateExchange => !s.running
    case InitiateStart => s.starting > 0 && s.loop == Off
    case LoopTest => s.loop == Testing
    case LoopMultiplex => s.loop == Armed
    case LoopSelect(r, w) => s.loop.Waiting? && Reports(s, s.loop.shown, r, w)
    case LoopBadFd(bad) => s.loop.Waiting? && Own(s) !in bad
    case LoopDemultiplex => s.loop.Woken?
    case LoopLeave => s.loop == Leaving
    case WorkerTake => |s.queue| > 0
    case WorkerAgain(i) => i < |s.busy|
    case WorkerDone(i) => i < |s.busy|
  }

  function Demultiplexed(s: State, readable: set<int>, writable: set<int>): State
    requires s.self.handle.Some?
  {
    var first := Captures(s.events, Own(s), readable, false);
    var second := Captures(Kept(s.events, Own(s), readable, false), Own(s), writable, true);
    s.(events := Left(s.events, Own(s), readable, writable),
       queue := s.queue + Triggered(s.events, Own(s), readable, writable),
       bytes := Less(Less(s.bytes, first), second),
       loop := Testing)
  }

  ghost function After(s: State, step: Step): State
    requires s.self.handle.Some? && Enabled(s, step)
  {
    match step
    case ClientAdd(e) => s.(events := Added(s.events, e), bytes := s.bytes + 1)
    case ClientRemove(topic) =>
      if HasTopic(s.events, topic) then s.(events := Erased(s.events, topic), bytes := s.bytes + 1) else s
    case TerminateTest => s.(storing := s.storing + 1)
    case TerminateStore => s.(storing := s.storing - 1, running := false, stopping := s.stopping + 1)
    case TerminateNop => s.(stopping := s.stopping - 1, bytes := s.bytes + 1)
    case InitiateExchange => s.(running := true, starting := s.starting + 1)
    case InitiateStart => s.(starting := s.starting - 1, loop := Testing)
    case LoopTest => s.(loop := if s.running then Armed else Leaving)
    case LoopMultiplex => s.(loop := Waiting(s.events))
    case LoopSelect(r, w) => s.(loop := Woken(r, w))
    case LoopBadFd(bad) => s.(events := Usable(s.events, bad), loop := Testing)
    case LoopDemultiplex => Demultiplexed(s, s.loop.readable, s.loop.writable)
    case LoopLeave => s.(bytes := s.bytes + 1, loop := Off)
    case WorkerTake => s.(queue := s.queue[1..], busy := s.busy + [s.queue[0]])
    case WorkerAgain(i) =>
      s.(events := Added(s.events, s.busy[i]), bytes := s.bytes + 1, busy := s.busy[..i] + s.busy[i + 1..])
    case WorkerDone(i) => s.(busy := s.busy[..i] + s.busy[i + 1..])
  }

  // ----- What every step keeps -----

  ghost predicate AllForeign(self: Event, events: seq<Event>) {
    forall e :: e in events ==> Foreign(self, e)
  }

  /** The mechanism's own event is in the list, and there is one event to a topic; all other events are
      the clients'. */
  ghost predicate Listed(s: State) {
    && s.self.handle.Some? && s.self.reading && !s.self.writing
    && s.self in s.events && Unique(s.events)
    && (forall e :: e in s.events ==> e == s.self || Foreign(s.self, e))
    && AllForeign(s.self, s.queue) && AllForeign(s.self, s.busy)
  }

  /** Someone will wake the loop: a byte is there, or about to be. */
  predicate Alarmed(s: State) { s.running || s.bytes > 0 || s.stopping > 0 }

  /** The loop waits for the list as it is, or finds a byte; and when it is to stop, it is woken. */
  ghost predicate Alert(s: State)
    requires s.self.handle.Some?
  {
    match s.loop
    case Armed => Alarmed(s)
    case Waiting(shown) => s.self in shown && (shown == s.events || s.bytes > 0) && Alarmed(s)
    case Woken(r, w) => Own(s) in r ==> s.bytes > 0
    case _ => true
  }

  ghost predicate Inv(s: State) { Listed(s) && Alert(s) }

  lemma InitKeeps(s: State)
    requires Init(s)
    ensures Inv(s)
  {
    assert s.self == s.events[0];
  }

  lemma AddKeeps(s: State, e: Event)
    requires Listed(s) && Foreign(s.self, e)
    ensures Listed(s.(events := Added(s.events, e)))
  {
    AddedTopics(s.events, e);
  }

  lemma RemoveKeeps(s: State, topic: int)
    requires Listed(s) && topic != s.self.topic
    ensures Listed(s.(events := Erased(s.events, topic)))
  {
    ErasedTopics(s.events, topic);
  }

  lemma DemultiplexKeeps(s: State, readable: set<int>, writable: set<int>)
    requires Listed(s)
    ensures Listed(Demultiplexed(s, readable, writable)) && Demultiplexed(s, readable, writable).loop == Testing
  {
    hide Left, Triggered;
    EachOnce(s.events, Own(s), readable, writable);
  }

  lemma BadFdKeeps(s: State, bad: set<int>)
    requires Listed(s) && Own(s) !in bad
    ensures Listed(s.(events := Usable(s.events, bad)))
  {
    UsableMembers(s.events, bad);
  }

  /** Whatever thread moves, its step keeps the invariant. */
  lemma StepKeeps(s: State, step: Step)
    requires Inv(s) && Enabled(s, step)
    ensures Inv(After(s, step))
  {
    hide Unique, Added, Erased, Usable, Demultiplexed, Asked;
    match step
    case ClientAdd(e) => AddKeeps(s, e);
    case ClientRemove(topic) => RemoveKeeps(s, topic);
    case LoopDemultiplex => DemultiplexKeeps(s, s.loop.readable, s.loop.writable);
    case LoopBadFd(bad) => BadFdKeeps(s, bad);
    case WorkerAgain(i) => AddKeeps(s, s.busy[i]);
    case _ =>
  }

  // ----- Runs -----

  /** Step i leads from state i to the next. */
  ghost predicate StepAt(states: seq<State>, steps: seq<Step>, i: nat)
    requires i < |steps| && |states| == |steps| + 1
  {
    states[i].self.handle.Some? && Enabled(states[i], steps[i]) && states[i + 1] == After(states[i], steps[i])
  }

  /** A path: the states and the steps between them. */
  ghost predicate Path(states: seq<State>, steps: seq<Step>) {
    |states| == |steps| + 1 && forall i :: 0 <= i < |steps| ==> StepAt(states, steps, i)
  }

  /** A run: a path from a mechanism just constructed. */
  ghost predicate Run(states: seq<State>, steps: seq<Step>) {
    Path(states, steps) && Init(states[0])
  }

  lemma {:induction false} PathKeeps(states: seq<State>, steps: seq<Step>, n: nat)
    requires Path(states, steps) && n < |states| && Inv(states[0])
    ensures Inv(states[n])
  {
    hide Inv, Enabled, After;
    if n != 0 {
      PathKeeps(states, steps, n - 1);
      assert StepAt(states, steps, n - 1);
      StepKeeps(states[n - 1], steps[n - 1]);
    }
  }

  /** The invariant holds in every state of every run. */
  lemma RunKeeps(states: seq<State>, steps: seq<Step>, n: nat)
    requires Run(states, steps) && n < |states|
    ensures Inv(states[n])
  {
    hide Inv, Init, Path;
    InitKeeps(states[0]);
    PathKeeps(states, steps, n);
  }

  /** In every interleaving the mechanism's own event stays in the list, which has one event to a topic. */
  lemma ListKept(states: seq<State>, steps: seq<Step>, n: nat)
    requires Run(states, steps) && n < |states|
    ensures states[n].self in states[n].events && Unique(states[n].events)
  {
    hide Run, Alert;
    RunKeeps(states, steps, n);
  }

  /** When select blocks, no byte being there, it waits for exactly the current list, and nobody has
      asked to stop, except a thread that is about to write its byte. */
  lemma BlockedIsCurrent(states: seq<State>, steps: seq<Step>, n: nat)
    requires Run(states, steps) && n < |states|
    requires states[n].loop.Waiting? && states[n].bytes == 0
    ensures states[n].loop.shown == states[n].events
    ensures states[n].running || states[n].stopping > 0
  {
    hide Run, Listed;
    RunKeeps(states, steps, n);
  }

  /** A waiting loop with a byte does not stay there: select reports its signal, whatever else it reports. */
  lemma ByteWakes(states: seq<State>, steps: seq<Step>, n: nat, readable: set<int>, writable: set<int>)
    requires Run(states, steps) && n < |states| && states[n].loop.Waiting? && states[n].bytes > 0
    requires states[n].self.handle.Some? && Reports(states[n], states[n].loop.shown, readable, writable)
    ensures Own(states[n]) in readable && Own(states[n]) in Asked(states[n].loop.shown, false)
  {
    hide Run;
    RunKeeps(states, steps, n);
  }

  function PassStep(step: Step): nat {
    match step
    case LoopMultiplex => 1
    case LoopSelect(_, _) => 1
    case LoopBadFd(_) => 1
    case LoopDemultiplex => 1
    case _ => 0
  }

  /** How many steps the loop takes with what it waits for, of those between two tests of the flag. */
  function Passing(steps: seq<Step>): nat {
    if |steps| == 0 then 0
    else Passing(steps[..|steps| - 1]) + PassStep(steps[|steps| - 1])
  }

  /** The loop steps a loop that is to stop has left before its next test of the flag. */
  function Remaining(loop: Loop): int {
    match loop case Testing => 0 case Woken(_, _) => 1 case Waiting(_) => 2 case _ => 3
  }

  /** The loop is to stop, and nothing it does before it tests the flag blocks. */
  predicate Stopping(s: State) {
    && !s.running
    && (s.loop == Testing || s.loop.Woken? || ((s.loop.Waiting? || s.loop == Armed) && s.bytes > 0))
  }

  lemma StoppingStep(s: State, step: Step)
    requires s.self.handle.Some? && Stopping(s) && Enabled(s, step) && step != InitiateExchange && step != LoopTest
    ensures Stopping(After(s, step)) && Remaining(After(s, step).loop) + PassStep(step) <= Remaining(s.loop)
  {
    hide Added, Erased, Usable, Left, Triggered, Captures, Reports;
  }

  /** A loop that is to stop, wherever it is, ends after this pass, whatever other threads do meanwhile,
      unless one of them starts it again: until it tests the flag it takes three steps at most, two when
      it waits, none of which blocks, and the test ends it. */
  lemma {:induction false} StopsSoon(states: seq<State>, steps: seq<Step>, n: nat, k: nat)
    requires Run(states, steps) && n <= k < |states|
    requires states[n].loop != Off && states[n].loop != Leaving && !states[n].running && states[n].stopping == 0
    requires forall i :: n <= i < k ==> steps[i] != InitiateExchange && steps[i] != LoopTest
    ensures Stopping(states[k]) && Remaining(states[k].loop) + Passing(steps[n..k]) <= Remaining(states[n].loop)
    ensures k < |steps| && steps[k] == LoopTest ==> states[k + 1].loop == Leaving
  {
    if n == k {
      RunKeeps(states, steps, n);
    } else {
      StopsSoon(states, steps, n, k - 1);
      StopsNext(states, steps, n, k);
    }
    hide Inv, Init, Enabled, After, Passing, Stopping, Remaining;
    if k < |steps| && steps[k] == LoopTest {
      assert StepAt(states, steps, k);
      StoppingTest(states[k]);
    }
  }

  lemma StopsNext(states: seq<State>, steps: seq<Step>, n: nat, k: nat)
    requires Path(states, steps) && n < k < |states|
    requires steps[k - 1] != InitiateExchange && steps[k - 1] != LoopTest
    requires Stopping(states[k - 1]) && Remaining(states[k - 1].loop) + Passing(steps[n..k - 1]) <= Remaining(states[n].loop)
    ensures Stopping(states[k]) && Remaining(states[k].loop) + Passing(steps[n..k]) <= Remaining(states[n].loop)
  {
    assert steps[n..k][..k - n - 1] == steps[n..k - 1] && steps[n..k][k - n - 1] == steps[k - 1];
    assert Passing(steps[n..k]) == Passing(steps[n..k - 1]) + PassStep(steps[k - 1]);
    hide Stopping, Passing, PassStep, Enabled, After, Remaining;
    assert StepAt(states, steps, k - 1);
    StoppingStep(states[k - 1], steps[k - 1]);
  }

  lemma StoppingTest(s: State)
    requires s.self.handle.Some? && Stopping(s) && Enabled(s, LoopTest)
    ensures After(s, LoopTest).loop == Leaving
  {
  }

  lemma OwnAsked(s: State)
    requires Inv(s) && s.loop.Waiting?
    ensures Own(s) in Asked(s.loop.shown, false)
  {
    assert s.self in s.loop.shown;
  }

  lemma {:induction false} OwnCapture(events: seq<Event>, self: Event, ready: set<int>, write: bool)
    requires self.handle.Some? && Unique(events) && (forall e :: e in events ==> e == self || Foreign(self, e))
    ensures Captures(events, self.handle.value, ready, write)
      == if self in events && (if write then self.writing else self.reading) && self.handle.value in ready then 1 else 0
  {
    if |events| != 0 {
      var rest := events[1..];
      OwnCapture(rest, self, ready, write);
      assert events == [events[0]] + rest;
      if events[0] == self {
        forall j | 0 <= j < |rest|
          ensures rest[j] != self
        {
          assert events[j + 1].topic != events[0].topic;
        }
      } else {
        assert Foreign(self, events[0]);
      }
    }
  }

  /** Demultiplexing moves each signalled event to the workers once, and reads one byte for the signal. */
  lemma DemultiplexExactly(s: State)
    requires Inv(s) && s.loop.Woken?
    ensures var t := After(s, LoopDemultiplex); var r, w := s.loop.readable, s.loop.writable;
      && t.bytes == s.bytes - (if Own(s) in r then 1 else 0)
      && s.queue <= t.queue && Unique(t.queue[|s.queue|..])
      && (forall e :: (e in t.queue[|s.queue|..] <==> e in s.events && e != s.self && Signalled(e, r, w)))
      && (forall e :: (e in t.events <==> e in s.events && e.handle.Some? && (e == s.self || !Signalled(e, r, w))))
  {
    var r, w := s.loop.readable, s.loop.writable;
    EachOnce(s.events, Own(s), r, w);
    OwnCapture(s.events, s.self, r, false);
    var k := Kept(s.events, Own(s), r, false);
    PassUnique(s.events, Own(s), r, false);
    forall e | e in k
      ensures e in s.events
    {
      PassMembers(s.events, Own(s), r, false, e);
    }
    OwnCapture(k, s.self, w, true);
    assert After(s, LoopDemultiplex).queue[|s.queue|..] == Triggered(s.events, Own(s), r, w);
  }

  // ----- No event is lost -----

  /** In the list, in the queue, or with a worker. */
  predicate Somewhere(s: State, e: Event) {
    e in s.events || e in s.queue || e in s.busy
  }

  /** The steps that take an event away. From the list: its topic is removed or added again, its descriptor
      is bad, or it has none. From a worker: it is done with it. */
  ghost predicate TakesAway(s: State, step: Step, e: Event)
    requires s.self.handle.Some? && Enabled(s, step)
  {
    var listed := e !in s.queue && e !in s.busy;
    match step
    case ClientAdd(x) => listed && x != e && x.topic == e.topic
    case ClientRemove(topic) => listed && topic == e.topic
    case LoopBadFd(bad) => listed && e.handle.Some? && e.handle.value in bad
    case LoopDemultiplex => listed && e.handle.None?
    case WorkerAgain(i) => listed && s.busy[i] != e && s.busy[i].topic == e.topic
    case WorkerDone(i) => e !in s.events && e !in s.queue && s.busy[i] == e
    case _ => false
  }

  lemma DemultiplexLeaves(s: State, e: Event)
    requires Inv(s) && s.loop.Woken? && Somewhere(s, e) && (e.handle.Some? || e in s.queue || e in s.busy)
    ensures Somewhere(After(s, LoopDemultiplex), e)
  {
    var r, w := s.loop.readable, s.loop.writable;
    EachOnce(s.events, Own(s), r, w);
    hide Left, Triggered, Captures, Kept;
  }

  lemma WorkerLeaves(busy: seq<Event>, i: nat, e: Event)
    requires i < |busy| && e in busy && e != busy[i]
    ensures e in busy[..i] + busy[i + 1..]
  {
    var j :| 0 <= j < |busy| && busy[j] == e;
    var rest := busy[..i] + busy[i + 1..];
    assert rest[if j < i then j else j - 1] == e;
  }

  lemma ClientLeaves(s: State, step: Step, e: Event)
    requires Inv(s) && Enabled(s, step) && Somewhere(s, e) && !TakesAway(s, step, e)
    requires step.ClientAdd? || step.ClientRemove? || step.LoopBadFd? || step.WorkerTake?
    ensures Somewhere(After(s, step), e)
  {
    hide Added, Erased, Usable;
    match step
    case ClientAdd(x) => AddedTopics(s.events, x);
    case ClientRemove(topic) => ErasedTopics(s.events, topic);
    case LoopBadFd(bad) => UsableMembers(s.events, bad);
    case WorkerTake =>
      assert s.queue == [s.queue[0]] + s.queue[1..];
  }

  /** A step leaves an event somewhere, unless it takes it away; and what a worker gives back is in the
      list again. */
  lemma StepLeaves(s: State, step: Step, e: Event)
    requires Inv(s) && Enabled(s, step) && Somewhere(s, e) && !TakesAway(s, step, e)
    ensures Somewhere(After(s, step), e)
  {
    hide Unique, Added, Erased, Usable, Demultiplexed;
    match step
    case LoopDemultiplex => DemultiplexLeaves(s, e);
    case WorkerAgain(i) =>
      AgainInList(s, i);
      if e in s.busy && e != s.busy[i] {
        WorkerLeaves(s.busy, i, e);
      }
      AddedTopics(s.events, s.busy[i]);
    case WorkerDone(i) =>
      if e in s.busy && e != s.busy[i] {
        WorkerLeaves(s.busy, i, e);
      }
    case ClientAdd(_) => ClientLeaves(s, step, e);
    case ClientRemove(_) => ClientLeaves(s, step, e);
    case LoopBadFd(_) => ClientLeaves(s, step, e);
    case WorkerTake => ClientLeaves(s, step, e);
    case _ =>
  }

  lemma AgainInList(s: State, i: nat)
    requires Inv(s) && Enabled(s, WorkerAgain(i))
    ensures s.busy[i] in After(s, WorkerAgain(i)).events
  {
    AddedTopics(s.events, s.busy[i]);
  }

  /** In every run an event stays in the list, in the queue or with a worker until a step takes it away. */
  lemma {:induction false} EventKept(states: seq<State>, steps: seq<Step>, n: nat, k: nat, e: Event)
    requires Run(states, steps) && n <= k < |states| && Somewhere(states[n], e)
    requires forall i :: n <= i < k ==> StepAt(states, steps, i) && !TakesAway(states[i], steps[i], e)
    ensures Somewhere(states[k], e)
  {
    hide Inv, Init, Enabled, After, Somewhere, TakesAway;
    if n < k {
      EventKept(states, steps, n, k - 1, e);
      RunKeeps(states, steps, k - 1);
      assert StepAt(states, steps, k - 1);
      StepLeaves(states[k - 1], steps[k - 1], e);
    }
  }

  /** The events that are queued or with a worker, as often as they are. */
  function InHands(s: State): multiset<Event> { multiset(s.queue) + multiset(s.busy) }

  lemma HandsDemultiplex(s: State)
    requires s.self.handle.Some? && Enabled(s, LoopDemultiplex)
    ensures
      var t := After(s, LoopDemultiplex);
      s.queue <= t.queue && InHands(t) == InHands(s) + multiset(t.queue[|s.queue|..])
  {
    hide Left, Triggered, Captures, Kept;
    Queued(s.queue, Triggered(s.events, Own(s), s.loop.readable, s.loop.writable));
    var t := After(s, LoopDemultiplex);
    assert t.queue[|s.queue|..] == Triggered(s.events, Own(s), s.loop.readable, s.loop.writable);
  }

  lemma HandsWorker(s: State, i: nat)
    requires s.self.handle.Some? && i < |s.busy|
    ensures InHands(After(s, WorkerAgain(i))) + multiset{s.busy[i]} == InHands(s)
    ensures InHands(After(s, WorkerDone(i))) + multiset{s.busy[i]} == InHands(s)
  {
    OneLess(s.queue, s.busy, i);
    var t, u, rest := After(s, WorkerAgain(i)), After(s, WorkerDone(i)), s.busy[..i] + s.busy[i + 1..];
    assert t.queue == s.queue && t.busy == rest && u.queue == s.queue && u.busy == rest;
    hide After, Enabled, Added;
  }

  lemma HandsSame(s: State, step: Step)
    requires s.self.handle.Some? && Enabled(s, step)
    requires step != LoopDemultiplex && !step.WorkerAgain? && !step.WorkerDone?
    ensures InHands(After(s, step)) == InHands(s)
  {
    hide Added, Erased, Usable, Reports, Demultiplexed;
    if step == WorkerTake {
      Taking(s.queue, s.busy);
    }
  }

  /** Workers take over what is queued and give back or finish what they took, each event as often as it
      was queued. */
  lemma HandsConserved(s: State, step: Step)
    requires s.self.handle.Some? && Enabled(s, step)
    ensures
      var t := After(s, step);
      match step
      case LoopDemultiplex =>
        s.queue <= t.queue && InHands(t) == InHands(s) + multiset(t.queue[|s.queue|..])
      case WorkerAgain(i) => InHands(t) + multiset{s.busy[i]} == InHands(s)
      case WorkerDone(i) => InHands(t) + multiset{s.busy[i]} == InHands(s)
      case _ => InHands(t) == InHands(s)
  {
    hide After, InHands, Reports;
    match step
    case LoopDemultiplex => HandsDemultiplex(s);
    case WorkerAgain(i) => HandsWorker(s, i);
    case WorkerDone(i) => HandsWorker(s, i);
    case _ => HandsSame(s, step);
  }

  lemma Queued(queue: seq<Event>, more: seq<Event>)
    ensures multiset(queue + more) == multiset(queue) + multiset(more)
  {
  }

  lemma OneLess(queue: seq<Event>, busy: seq<Event>, i: nat)
    requires i < |busy|
    ensures multiset(queue) + multiset(busy[..i] + busy[i + 1..]) + multiset{busy[i]} == multiset(queue) + multiset(busy)
  {
    assert busy == busy[..i] + [busy[i]] + busy[i + 1..];
  }

  lemma Taking(queue: seq<Event>, busy: seq<Event>)
    requires |queue| > 0
    ensures multiset(queue[1..]) + multiset(busy + [queue[0]]) == multiset(queue) + multiset(busy)
  {
    assert queue == [queue[0]] + queue[1..];
  }

  // ----- Starting again too soon -----

  /** A thread that starts the loop again waits for the old one, which runs on. */
  predicate Stuck(s: State) {
    s.starting > 0 && s.running && s.storing == 0 && s.loop != Off && s.loop != Leaving
  }

  lemma StuckKeeps(s: State, step: Step)
    requires Inv(s) && Stuck(s) && Enabled(s, step) && step != TerminateTest
    ensures Stuck(After(s, step)) && step != InitiateStart
  {
    hide Listed, Added, Erased, Usable, Left, Triggered, Captures;
  }

  /** Only another terminate, from its first test of the flag on, gets the starting thread out of this. */
  lemma {:induction false} StuckForever(states: seq<State>, steps: seq<Step>, k: nat)
    requires Path(states, steps) && k < |states| && Inv(states[0]) && Stuck(states[0])
    requires forall i :: 0 <= i < k ==> steps[i] != TerminateTest
    ensures Stuck(states[k])
    ensures k < |steps| && steps[k] != TerminateTest ==> steps[k] != InitiateStart
  {
    hide Inv, Stuck, Enabled, After;
    if k != 0 {
      StuckForever(states, steps, k - 1);
      PathKeeps(states, steps, k - 1);
      assert StepAt(states, steps, k - 1);
      StuckKeeps(states[k - 1], steps[k - 1]);
    }
    PathKeeps(states, steps, k);
    if k < |steps| && steps[k] != TerminateTest {
      assert StepAt(states, steps, k);
      StuckKeeps(states[k], steps[k]);
    }
  }

  /** The loop is started again on a path on which nobody terminates it anew. */
  ghost predicate Starts(s: State, states: seq<State>, steps: seq<Step>) {
    |states| > 0 && states[0] == s && Path(states, steps) && InitiateStart in steps && TerminateTest !in steps
  }

  /** It can be started again without that. */
  ghost predicate CanStart(s: State) {
    exists states, steps :: Starts(s, states, steps)
  }

  lemma StartsBy(s: State, states: seq<State>, steps: seq<Step>, i: nat)
    requires |states| > 0 && states[0] == s && Path(states, steps) && TerminateTest !in steps
    requires i < |steps| && steps[i] == InitiateStart
    ensures CanStart(s)
  {
    hide Path;
    assert Starts(s, states, steps);
  }

  lemma StepFirst(s: State, step: Step)
    requires s.self.handle.Some? && Enabled(s, step) && step != TerminateTest
    requires step == InitiateStart || CanStart(After(s, step))
    ensures CanStart(s)
  {
    hide Enabled, After, Path;
    if step == InitiateStart {
      PathOfOne(After(s, step));
      PathFirst(s, step, [After(s, step)], []);
      StartsBy(s, [s] + [After(s, step)], [step] + [], 0);
    } else {
      var states, steps :| Starts(After(s, step), states, steps);
      PathFirst(s, step, states, steps);
      var i :| 0 <= i < |steps| && steps[i] == InitiateStart;
      StartsBy(s, [s] + states, [step] + steps, i + 1);
    }
  }

  lemma PathOfOne(s: State)
    ensures Path([s], [])
  {
  }

  lemma PathFirst(s: State, step: Step, states: seq<State>, steps: seq<Step>)
    requires s.self.handle.Some? && Enabled(s, step) && |states| > 0 && states[0] == After(s, step)
    requires Path(states, steps)
    ensures Path([s] + states, [step] + steps)
  {
    hide Enabled, After;
    var ss, tt := [s] + states, [step] + steps;
    forall i | 0 <= i < |tt|
      ensures StepAt(ss, tt, i)
    {
      if i > 0 {
        assert StepAt(states, steps, i - 1);
        assert ss[i] == states[i - 1] && ss[i + 1] == states[i] && tt[i] == steps[i - 1];
      }
    }
  }

  function Distance(loop: Loop): nat {
    match loop
    case Off => 0
    case Leaving => 1
    case Testing => 2
    case Woken(_, _) => 3
    case Waiting(_) => 4
    case Armed => 5
  }

  /** What the loop does next when nobody else moves: select reports the own signal if there is a byte. */
  ghost function LoopStep(s: State): Step
    requires s.self.handle.Some?
  {
    match s.loop
    case Off => InitiateStart
    case Leaving => LoopLeave
    case Testing => LoopTest
    case Woken(_, _) => LoopDemultiplex
    case Waiting(_) => LoopSelect(if s.bytes > 0 then {Own(s)} else {}, {})
    case Armed => LoopMultiplex
  }

  lemma LoopStepEnabled(s: State)
    requires Inv(s) && s.starting > 0
    ensures Enabled(s, LoopStep(s))
  {
    if s.loop.Waiting? {
      OwnAsked(s);
    }
  }

  /** A loop that is to stop can always come to its end, and then be started. */
  lemma {:induction false} StoppedCanStart(s: State)
    requires Inv(s) && s.starting > 0 && (!s.running || s.loop == Off || s.loop == Leaving)
    ensures CanStart(s)
    decreases Distance(s.loop)
  {
    LoopStepEnabled(s);
    hide CanStart, Listed, Alert, Left, Triggered, Captures;
    var step := LoopStep(s);
    if step != InitiateStart {
      StepKeeps(s, step);
      StoppedCanStart(After(s, step));
    }
    StepFirst(s, step);
  }

  /** Starting the loop again leads to a new loop, without another terminate, exactly when the old loop is
      over or has seen that it is to stop, or a terminate is between its test and its store. */
  lemma RestartExactly(s: State)
    requires Inv(s) && Enabled(s, InitiateExchange)
    ensures CanStart(After(s, InitiateExchange)) <==> s.loop == Off || s.loop == Leaving || s.storing > 0
  {
    var t := After(s, InitiateExchange);
    StepKeeps(s, InitiateExchange);
    if s.loop == Off || s.loop == Leaving {
      StoppedCanStart(t);
    } else if s.storing > 0 {
      StepKeeps(t, TerminateStore);
      StoppedCanStart(After(t, TerminateStore));
      StepFirst(t, TerminateStore);
    } else {
      assert Stuck(t);
      forall states, steps | Path(states, steps) && states[0] == t && TerminateTest !in steps
        ensures InitiateStart !in steps
      {
        forall k | 0 <= k < |steps|
          ensures steps[k] != InitiateStart
        {
          StuckForever(states, steps, k);
        }
      }
    }
  }

  /** When the old loop is over or leaving, nothing another thread does keeps the new one from starting:
      until it does, it may start at once, or after the old loop's last step. */
  lemma {:induction false} RestartGoesAhead(states: seq<State>, steps: seq<Step>, k: nat)
    requires Path(states, steps) && k < |states| && Inv(states[0])
    requires states[0].starting > 0 && (states[0].loop == Off || states[0].loop == Leaving)
    requires InitiateStart !in steps[..k]
    ensures states[k].self.handle.Some? && states[k].starting > 0 && (states[k].loop == Off || states[k].loop == Leaving)
    ensures Enabled(states[k], InitiateStart)
      || (Enabled(states[k], LoopLeave) && Enabled(After(states[k], LoopLeave), InitiateStart))
  {
    if k != 0 {
      assert steps[..k][..k - 1] == steps[..k - 1] && steps[..k][k - 1] == steps[k - 1];
      RestartGoesAhead(states, steps, k - 1);
      assert StepAt(states, steps, k - 1);
      GoesAheadStep(states[k - 1], steps[k - 1]);
    }
  }

  lemma GoesAheadStep(s: State, step: Step)
    requires s.self.handle.Some? && Enabled(s, step) && step != InitiateStart
    requires s.starting > 0 && (s.loop == Off || s.loop == Leaving)
    ensures
      var t := After(s, step);
      t.self.handle.Some? && t.starting > 0 && (t.loop == Off || t.loop == Leaving)
  {
  }

  /** A run that comes to this: start, wait, stop, and start again before the loop wakes. */
  lemma RestartCanStick(s: State)
    requires Init(s)
    ensures var s1 := After(s, InitiateExchange); var s2 := After(s1, InitiateStart); var s3 := After(s2, LoopTest);
      var s4 := After(s3, LoopMultiplex); var s5 := After(s4, TerminateTest); var s6 := After(s5, TerminateStore);
      Run([s, s1, s2, s3, s4, s5, s6],
          [InitiateExchange, InitiateStart, LoopTest, LoopMultiplex, TerminateTest, TerminateStore])
      && Enabled(s6, InitiateExchange) && Stuck(After(s6, InitiateExchange))
  {
  }
}

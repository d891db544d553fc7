/**
  Runs of a stream request: chunks arrive, their handlers hop from queue to queue, and completions are handed
  over by the serializer pipeline, all interleaved freely.
 */
module StreamRuns {
  import opened StreamRequest

  /** One chunk for one stream handler. */
  datatype Execution = Execution(stream: Stream, chunk: Chunk)

  datatype Activity =
    | Deliver(left: seq<Stream>, chunk: Chunk)
    | Serialize(e: Execution)
    | Serialized(e: Execution)
    | CallHandler(e: Execution)
    | Updating
    | Completing(c: CompletionEvent)
    | Release(events: seq<CompletionEvent>)
    | CallCompletion(c: CompletionEvent)

  /** A completion let through, with how many executions had been received and handled at that moment. */
  datatype Released = Released(c: CompletionEvent, received: nat, handled: nat)

  datatype System = System(
    state: State,
    activities: seq<Activity>,
    received: multiset<Execution>,
    handled: multiset<Execution>,
    handedOver: multiset<CompletionEvent>,
    released: seq<Released>,
    completed: multiset<CompletionEvent>)

  datatype Event =
    | Append(stream: Stream)
    | Arrive(chunk: Chunk)
    | HandOver(c: CompletionEvent)
    | Step(k: nat)

  const START := System(State([], 0, []), [], multiset{}, multiset{}, multiset{}, [], multiset{})

  predicate Enabled(s: System, e: Event) {
    e.Step? ==> e.k < |s.activities|
  }

  function Executions(streams: seq<Stream>, chunk: Chunk): (m: multiset<Execution>)
    ensures |m| == |streams|
  {
    if streams == [] then multiset{}
    else multiset{Execution(streams[0], chunk)} + Executions(streams[1..], chunk)
  }

  function LogAll(cs: seq<CompletionEvent>, received: nat, handled: nat): (log: seq<Released>)
    ensures |log| == |cs|
  {
    seq(|cs|, i requires 0 <= i < |cs| => Released(cs[i], received, handled))
  }

  /** One step of an activity: the new state, the activities it leaves, and the executions it handles. */
  function Advance(s: State, a: Activity): (State, seq<Activity>, multiset<Execution>) {
    match a
    case Deliver(left, chunk) =>
      if left == [] then (s, [], multiset{})
      else
        var e := Execution(left[0], chunk);
        (s, [if left[0].serializes then Serialize(e) else CallHandler(e), Deliver(left[1..], chunk)], multiset{})
    case Serialize(e) => (s, [Serialized(e)], multiset{})
    case Serialized(e) => (s, [CallHandler(e)], multiset{})
    case CallHandler(e) => (s, [Updating], multiset{e})
    case Updating => var (s', out) := Update(s); (s', if out == [] then [] else [Release(out)], multiset{})
    case Completing(c) => var (s', out) := Complete(s, c); (s', if out == [] then [] else [CallCompletion(c)], multiset{})
    case Release(events) =>
      (s, if events == [] then [] else [CallCompletion(events[0]), Release(events[1..])], multiset{})
    case CallCompletion(_) => (s, [], multiset{})
  }

  function CallsCompletion(a: Activity): multiset<CompletionEvent> {
    if a.CallCompletion? then multiset{a.c} else multiset{}
  }

  /** The completion events an activity releases. */
  function Releases(s: State, a: Activity): seq<CompletionEvent> {
    match a
    case Updating => Update(s).1
    case Completing(c) => Complete(s, c).1
    case _ => []
  }

  function Next(s: System, e: Event): System
    requires Enabled(s, e)
  {
    match e
    case Append(stream) => s.(state := AddStream(s.state, stream))
    case Arrive(chunk) =>
      s.(state := Receive(s.state), activities := s.activities + [Deliver(s.state.streams, chunk)],
         received := s.received + Executions(s.state.streams, chunk))
    case HandOver(c) => s.(activities := s.activities + [Completing(c)], handedOver := s.handedOver + multiset{c})
    case Step(k) =>
      var (state, next, now) := Advance(s.state, s.activities[k]);
      s.(state := state,
         activities := s.activities[..k] + next + s.activities[k + 1..],
         handled := s.handled + now,
         released := s.released + LogAll(Releases(s.state, s.activities[k]), |s.received|, |s.handled|),
         completed := s.completed + CallsCompletion(s.activities[k]))
  }

  /** A run takes the events in order; one that is not possible at its turn does not happen. */
  function Run(s: System, es: seq<Event>): System
    decreases |es|
  {
    if es == [] then s else Run(if Enabled(s, es[0]) then Next(s, es[0]) else s, es[1..])
  }

  // ----- Where executions and completions are -----

  /** The executions an activity has still to hand to their handlers. */
  function WaitingIn(a: Activity): multiset<Execution> {
    match a
    case Deliver(left, chunk) => Executions(left, chunk)
    case Serialize(e) => multiset{e}
    case Serialized(e) => multiset{e}
    case CallHandler(e) => multiset{e}
    case _ => multiset{}
  }

  function Waiting(xs: seq<Activity>): multiset<Execution> {
    if xs == [] then multiset{} else WaitingIn(xs[0]) + Waiting(xs[1..])
  }

  function Updates(a: Activity): nat {
    if a.Updating? then 1 else 0
  }

  function UpdatesDue(xs: seq<Activity>): nat {
    if xs == [] then 0 else Updates(xs[0]) + UpdatesDue(xs[1..])
  }

  function HeldIn(a: Activity): multiset<CompletionEvent> {
    match a
    case Completing(c) => multiset{c}
    case Release(events) => multiset(events)
    case CallCompletion(c) => multiset{c}
    case _ => multiset{}
  }

  function Held(xs: seq<Activity>): multiset<CompletionEvent> {
    if xs == [] then multiset{} else HeldIn(xs[0]) + Held(xs[1..])
  }

  predicate AllHandledWhenReleased(log: seq<Released>) {
    forall i :: 0 <= i < |log| ==> log[i].received == log[i].handled
  }

  /** The counter counts the executions received and not yet finished. */
  predicate Counted(s: System) {
    && s.received == s.handled + Waiting(s.activities)
    && s.state.numberOfExecutingStreams == |Waiting(s.activities)| + UpdatesDue(s.activities)
  }

  /** Completions wait only while something executes, and none is lost or doubled. */
  predicate Gated(s: System) {
    && (s.state.enqueuedCompletionEvents != [] ==> s.state.numberOfExecutingStreams > 0)
    && s.handedOver == Held(s.activities) + multiset(s.state.enqueuedCompletionEvents) + s.completed
    && AllHandledWhenReleased(s.released)
  }

  predicate Inv(s: System) {
    Counted(s) && Gated(s)
  }

  lemma {:induction false} Joined(xs: seq<Activity>, ys: seq<Activity>)
    ensures Waiting(xs + ys) == Waiting(xs) + Waiting(ys)
    ensures UpdatesDue(xs + ys) == UpdatesDue(xs) + UpdatesDue(ys)
    ensures Held(xs + ys) == Held(xs) + Held(ys)
  {
    hide WaitingIn, HeldIn;
    if xs == [] {
      assert xs + ys == ys;
    } else {
      assert (xs + ys)[1..] == xs[1..] + ys;
      Joined(xs[1..], ys);
    }
  }

  lemma Single(a: Activity)
    ensures Waiting([a]) == WaitingIn(a) && UpdatesDue([a]) == Updates(a) && Held([a]) == HeldIn(a)
  {
    hide WaitingIn, HeldIn;
    assert [a][1..] == [];
  }

  /** One activity gives way to others. */
  lemma Replaced(xs: seq<Activity>, k: nat, next: seq<Activity>)
    requires k < |xs|
    ensures var ys := xs[..k] + next + xs[k + 1..];
            && Waiting(ys) + WaitingIn(xs[k]) == Waiting(xs) + Waiting(next)
            && UpdatesDue(ys) + Updates(xs[k]) == UpdatesDue(xs) + UpdatesDue(next)
            && Held(ys) + HeldIn(xs[k]) == Held(xs) + Held(next)
  {
    hide WaitingIn, HeldIn;
    assert xs == xs[..k] + [xs[k]] + xs[k + 1..];
    Joined(xs[..k] + [xs[k]], xs[k + 1..]);
    Joined(xs[..k], [xs[k]]);
    Single(xs[k]);
    Joined(xs[..k] + next, xs[k + 1..]);
    Joined(xs[..k], next);
    hide Waiting, UpdatesDue, Held;
  }

  lemma Two(a: Activity, b: Activity)
    ensures Waiting([a, b]) == WaitingIn(a) + WaitingIn(b)
    ensures UpdatesDue([a, b]) == Updates(a) + Updates(b)
    ensures Held([a, b]) == HeldIn(a) + HeldIn(b)
  {
    assert [a, b] == [a] + [b];
    Joined([a], [b]);
    Single(a);
    Single(b);
    hide Waiting, UpdatesDue, Held, WaitingIn, HeldIn;
  }

  /** What is left behind holds what the activity held, but for what it handles, calls or lets through. */
  predicate Conserves(s: State, a: Activity, s': State, next: seq<Activity>, now: multiset<Execution>) {
    && WaitingIn(a) == Waiting(next) + now
    && UpdatesDue(next) == |now|
    && s'.numberOfExecutingStreams == s.numberOfExecutingStreams - Updates(a)
    && HeldIn(a) + multiset(s.enqueuedCompletionEvents)
       == Held(next) + multiset(s'.enqueuedCompletionEvents) + CallsCompletion(a)
  }

  /** An activity becomes another that holds the same. */
  lemma MovedOn(s: State, a: Activity, b: Activity)
    requires WaitingIn(a) == WaitingIn(b) && HeldIn(a) == HeldIn(b) && !a.Updating? && !b.Updating? && !a.CallCompletion?
    ensures Conserves(s, a, s, [b], multiset{})
  {
    Single(b);
    hide Waiting, UpdatesDue, Held, WaitingIn, HeldIn;
    assert HeldIn(a) + multiset(s.enqueuedCompletionEvents) + multiset{} == HeldIn(a) + multiset(s.enqueuedCompletionEvents);
  }

  /** An activity ends, having held nothing but a completion that it calls. */
  lemma Ended(s: State, a: Activity)
    requires WaitingIn(a) == multiset{} && HeldIn(a) == CallsCompletion(a) && !a.Updating?
    ensures Conserves(s, a, s, [], multiset{})
  {
    hide WaitingIn, HeldIn;
  }

  /** An activity hands one thing on and keeps the rest. */
  lemma HandedOn(s: State, a: Activity, b: Activity, rest: Activity)
    requires WaitingIn(a) == WaitingIn(b) + WaitingIn(rest) && HeldIn(a) == HeldIn(b) + HeldIn(rest)
    requires !a.Updating? && !b.Updating? && !rest.Updating? && !a.CallCompletion?
    ensures Conserves(s, a, s, [b, rest], multiset{})
  {
    Two(b, rest);
    hide Waiting, UpdatesDue, Held, WaitingIn, HeldIn;
    assert HeldIn(a) + multiset(s.enqueuedCompletionEvents) + multiset{} == HeldIn(a) + multiset(s.enqueuedCompletionEvents);
  }

  lemma HandlerCalled(s: State, e: Execution)
    ensures Conserves(s, CallHandler(e), s, [Updating], multiset{e})
  {
    Single(Updating);
    hide Waiting, UpdatesDue, Held;
  }

  lemma UpdateConserves(s: State)
    ensures Conserves(s, Updating, Update(s).0, Advance(s, Updating).1, multiset{})
  {
    var (s', out) := Update(s);
    Single(Release(out));
    if out == [] {
      assert Waiting([]) == multiset{} && Held([]) == multiset{} && UpdatesDue([]) == 0;
    }
    hide Waiting, UpdatesDue, Held;
  }

  lemma CompleteConserves(s: State, c: CompletionEvent)
    ensures Conserves(s, Completing(c), Complete(s, c).0, Advance(s, Completing(c)).1, multiset{})
  {
    Single(CallCompletion(c));
    assert Waiting([]) == multiset{} && Held([]) == multiset{} && UpdatesDue([]) == 0;
    hide Waiting, UpdatesDue, Held;
  }

  lemma DeliverConserves(s: State, left: seq<Stream>, chunk: Chunk)
    ensures var (s', next, now) := Advance(s, Deliver(left, chunk)); Conserves(s, Deliver(left, chunk), s', next, now)
  {
    hide Conserves, Waiting, UpdatesDue, Held;
    var a := Deliver(left, chunk);
    if left == [] {
      Ended(s, a);
    } else {
      var e := Execution(left[0], chunk);
      HandedOn(s, a, if left[0].serializes then Serialize(e) else CallHandler(e), Deliver(left[1..], chunk));
    }
  }

  lemma ReleaseConserves(s: State, events: seq<CompletionEvent>)
    ensures var (s', next, now) := Advance(s, Release(events)); Conserves(s, Release(events), s', next, now)
  {
    hide Conserves, Waiting, UpdatesDue, Held;
    if events == [] {
      Ended(s, Release(events));
    } else {
      assert events == [events[0]] + events[1..];
      HandedOn(s, Release(events), CallCompletion(events[0]), Release(events[1..]));
    }
  }

  lemma AdvanceConserves(s: State, a: Activity)
    ensures var (s', next, now) := Advance(s, a); Conserves(s, a, s', next, now)
  {
    hide Conserves, Waiting, UpdatesDue, Held, Executions;
    match a {
      case Deliver(left, chunk) => DeliverConserves(s, left, chunk);
      case Serialize(e) => MovedOn(s, a, Serialized(e));
      case Serialized(e) => MovedOn(s, a, CallHandler(e));
      case CallHandler(e) => HandlerCalled(s, e);
      case Updating => UpdateConserves(s);
      case Completing(c) => CompleteConserves(s, c);
      case Release(events) => ReleaseConserves(s, events);
      case CallCompletion(_) => Ended(s, a);
    }
  }

  lemma ActivityCounted(xs: seq<Activity>, k: nat)
    requires k < |xs|
    ensures |Waiting(xs)| >= |WaitingIn(xs[k])| && UpdatesDue(xs) >= Updates(xs[k])
  {
    Replaced(xs, k, []);
    assert Waiting([]) == multiset{} && UpdatesDue([]) == 0;
    hide WaitingIn, Waiting, UpdatesDue, Held;
    var ys := xs[..k] + [] + xs[k + 1..];
    assert |Waiting(ys) + WaitingIn(xs[k])| == |Waiting(xs) + multiset{}|;
  }

  lemma StepCounted(s: System, k: nat)
    requires Counted(s) && k < |s.activities|
    ensures Counted(Next(s, Step(k)))
  {
    var a := s.activities[k];
    var (s', next, now) := Advance(s.state, a);
    var after := s.activities[..k] + next + s.activities[k + 1..];
    StepChanges(s, k);
    AdvanceConserves(s.state, a);
    Replaced(s.activities, k, next);
    hide Next, Advance, WaitingIn, Waiting, UpdatesDue, Held;
    Exchange(s.handled, Waiting(s.activities), WaitingIn(a), Waiting(next), now, Waiting(after));
  }

  lemma StepChanges(s: System, k: nat)
    requires k < |s.activities|
    ensures var t, (s', next, now) := Next(s, Step(k)), Advance(s.state, s.activities[k]);
            && t.state == s' && t.activities == s.activities[..k] + next + s.activities[k + 1..]
            && t.received == s.received && t.handled == s.handled + now && t.handedOver == s.handedOver
            && t.completed == s.completed + CallsCompletion(s.activities[k])
  {
    hide Advance;
  }

  lemma Exchange<T>(handled: multiset<T>, all: multiset<T>, one: multiset<T>, next: multiset<T>, now: multiset<T>, after: multiset<T>)
    requires one == next + now && after + one == all + next
    ensures handled + all == handled + now + after
    ensures |after| + |now| == |all|
  {
    assert |after + one| == |all + next|;
    forall x ensures after[x] + now[x] == all[x] {
      assert (after + one)[x] == (all + next)[x];
    }
  }

  /** A release finds nothing executing. */
  lemma NothingWaits(s: System, k: nat)
    requires Inv(s) && k < |s.activities| && Releases(s.state, s.activities[k]) != []
    ensures |s.received| == |s.handled|
  {
    ActivityCounted(s.activities, k);
    hide Advance, Waiting, UpdatesDue, Held;
    assert |Waiting(s.activities)| == 0;
  }

  lemma JoinedLogs(earlier: seq<Released>, now: seq<Released>)
    requires AllHandledWhenReleased(earlier) && AllHandledWhenReleased(now)
    ensures AllHandledWhenReleased(earlier + now)
  {
  }

  lemma ReleasedHandled(s: System, k: nat)
    requires Inv(s) && k < |s.activities|
    ensures AllHandledWhenReleased(Next(s, Step(k)).released)
  {
    var now := Releases(s.state, s.activities[k]);
    if now != [] {
      NothingWaits(s, k);
    }
    hide Advance, Releases, Counted, Waiting, UpdatesDue, Held;
    var log := LogAll(now, |s.received|, |s.handled|);
    assert Next(s, Step(k)).released == s.released + log;
    assert AllHandledWhenReleased(log);
    hide *;
    JoinedLogs(s.released, log);
  }

  lemma StepGated(s: System, k: nat)
    requires Inv(s) && k < |s.activities|
    ensures Gated(Next(s, Step(k)))
  {
    var a := s.activities[k];
    var (s', next, now) := Advance(s.state, a);
    var after := s.activities[..k] + next + s.activities[k + 1..];
    ReleasedHandled(s, k);
    AdvanceConserves(s.state, a);
    Replaced(s.activities, k, next);
    EnqueuedNeedExecuting(s, k);
    StepChanges(s, k);
    hide Next, Advance, WaitingIn, Waiting, UpdatesDue, HeldIn, Held, AllHandledWhenReleased;
    Hand(s.handedOver, Held(s.activities), HeldIn(a), Held(next), Held(after),
         multiset(s.state.enqueuedCompletionEvents), multiset(s'.enqueuedCompletionEvents), s.completed, CallsCompletion(a));
  }

  lemma Hand<T>(handed: multiset<T>, all: multiset<T>, one: multiset<T>, next: multiset<T>, after: multiset<T>,
                queued: multiset<T>, queued': multiset<T>, done: multiset<T>, now: multiset<T>)
    requires handed == all + queued + done && after + one == all + next && one + queued == next + queued' + now
    ensures handed == after + queued' + (done + now)
  {
    forall x ensures handed[x] == after[x] + queued'[x] + (done + now)[x] {
      assert (after + one)[x] == (all + next)[x] && (one + queued)[x] == (next + queued' + now)[x];
    }
  }

  lemma LockKeepsGate(s: State, a: Activity)
    requires s.numberOfExecutingStreams >= Updates(a)
    requires s.enqueuedCompletionEvents != [] ==> s.numberOfExecutingStreams > 0
    ensures var s' := Advance(s, a).0;
            s'.enqueuedCompletionEvents != [] ==> s'.numberOfExecutingStreams > 0
  {
  }

  lemma EnqueuedNeedExecuting(s: System, k: nat)
    requires Inv(s) && k < |s.activities|
    ensures var s' := Advance(s.state, s.activities[k]).0;
            s'.enqueuedCompletionEvents != [] ==> s'.numberOfExecutingStreams > 0
  {
    ActivityCounted(s.activities, k);
    hide Advance, WaitingIn, Waiting, UpdatesDue, Held, Updates, AllHandledWhenReleased;
    LockKeepsGate(s.state, s.activities[k]);
  }

  lemma ArriveKeeps(s: System, chunk: Chunk)
    requires Inv(s)
    ensures Inv(Next(s, Arrive(chunk)))
  {
    var a := Deliver(s.state.streams, chunk);
    Joined(s.activities, [a]);
    Single(a);
    hide Waiting, UpdatesDue, Held, Executions;
  }

  lemma HandOverKeeps(s: System, c: CompletionEvent)
    requires Inv(s)
    ensures Inv(Next(s, HandOver(c)))
  {
    Joined(s.activities, [Completing(c)]);
    Single(Completing(c));
    hide Waiting, UpdatesDue, Held;
  }

  lemma {:induction false} RunKeeps(s: System, es: seq<Event>)
    requires Inv(s)
    ensures Inv(Run(s, es))
    decreases |es|
  {
    if es != [] {
      EventKeeps(s, es[0]);
      hide Inv, Next, Enabled;
      RunKeeps(if Enabled(s, es[0]) then Next(s, es[0]) else s, es[1..]);
    }
  }

  lemma EventKeeps(s: System, e: Event)
    requires Inv(s)
    ensures Inv(if Enabled(s, e) then Next(s, e) else s)
  {
    match e {
      case Append(_) =>
      case Arrive(chunk) => ArriveKeeps(s, chunk);
      case HandOver(c) => HandOverKeeps(s, c);
      case Step(k) =>
        if k < |s.activities| {
          StepCounted(s, k);
          StepGated(s, k);
          hide Next, Counted, Gated;
        }
    }
  }

  /**
    In every run, the counter is the number of executions received and not finished, a completion is let
    through only when all that was received has been handled, and a completion waits only while something
    executes. Once nothing is in flight, every chunk has been handled by every stream it was received for, and
    every completion handed over has been called, as often as it was handed over.
   */
  lemma CompletionsFollowStreams(es: seq<Event>)
    ensures var s := Run(START, es);
            && s.received == s.handled + Waiting(s.activities)
            && s.state.numberOfExecutingStreams == |Waiting(s.activities)| + UpdatesDue(s.activities)
            && AllHandledWhenReleased(s.released)
            && (s.state.enqueuedCompletionEvents != [] ==> s.state.numberOfExecutingStreams > 0)
            && s.handedOver == Held(s.activities) + multiset(s.state.enqueuedCompletionEvents) + s.completed
            && (s.activities == [] ==> s.handled == s.received && s.completed == s.handedOver)
  {
    RunKeeps(START, es);
    hide Run;
  }
}

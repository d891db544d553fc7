/**
  The two-way map between requests and tasks, and the session's gate that holds a task's completion back
  until its metrics have been gathered.
 */
module TaskMap {
  import opened Options

  type Task = nat

  type Request = nat

  type Completion = nat

  datatype Events = Events(completed: bool, metricsGathered: bool)

  datatype Maps = Maps(
    tasksToRequests: map<Task, Request>,
    requestsToTasks: map<Request, Task>,
    taskEvents: map<Task, Events>)

  /** One-to-one, with events kept for exactly the mapped tasks. */
  ghost predicate Consistent(m: Maps) {
    && (forall t <- m.tasksToRequests :: m.tasksToRequests[t] in m.requestsToTasks && m.requestsToTasks[m.tasksToRequests[t]] == t)
    && (forall r <- m.requestsToTasks :: m.requestsToTasks[r] in m.tasksToRequests && m.tasksToRequests[m.requestsToTasks[r]] == r)
    && m.taskEvents.Keys == m.tasksToRequests.Keys
  }

  // ----- Operations -----

  function Associate(m: Maps, r: Request, t: Task): Maps {
    Maps(m.tasksToRequests[t := r], m.requestsToTasks[r := t], m.taskEvents[t := Events(false, false)])
  }

  function Disassociate(m: Maps, t: Task): Maps
    requires t in m.tasksToRequests
  {
    Maps(m.tasksToRequests - {t}, m.requestsToTasks - {m.tasksToRequests[t]}, m.taskEvents - {t})
  }

  /** What the caller must keep to: one metrics event for each task. */
  predicate MetricsExpected(m: Maps, t: Task) {
    t in m.taskEvents && !m.taskEvents[t].metricsGathered
  }

  predicate CompletionExpected(m: Maps, t: Task) {
    t in m.taskEvents && !m.taskEvents[t].completed
  }

  function AfterMetrics(m: Maps, t: Task): (Maps, bool)
    requires MetricsExpected(m, t) && t in m.tasksToRequests
  {
    if m.taskEvents[t].completed then (Disassociate(m, t), true)
    else (m.(taskEvents := m.taskEvents[t := Events(false, true)]), false)
  }

  function AfterCompletion(m: Maps, t: Task): (Maps, bool)
    requires CompletionExpected(m, t) && t in m.tasksToRequests
  {
    if m.taskEvents[t].metricsGathered then (Disassociate(m, t), true)
    else (m.(taskEvents := m.taskEvents[t := Events(true, false)]), false)
  }

  // ----- What the operations keep -----

  /** A new pair keeps the map one-to-one exactly when it leaves no older pair half overwritten. */
  lemma AssociateConsistent(m: Maps, r: Request, t: Task)
    requires Consistent(m)
    ensures Consistent(Associate(m, r, t)) <==>
            && (r in m.requestsToTasks ==> m.requestsToTasks[r] == t)
            && (t in m.tasksToRequests ==> m.tasksToRequests[t] == r)
  {
    var m' := Associate(m, r, t);
    if r in m.requestsToTasks && m.requestsToTasks[r] != t {
      var was := m.requestsToTasks[r];
      assert was in m'.tasksToRequests && m'.tasksToRequests[was] == r && m'.requestsToTasks[r] == t;
    }
    if t in m.tasksToRequests && m.tasksToRequests[t] != r {
      var was := m.tasksToRequests[t];
      assert was in m'.requestsToTasks && m'.requestsToTasks[was] == t && m'.tasksToRequests[t] == r;
    }
  }

  lemma DisassociateConsistent(m: Maps, t: Task)
    requires Consistent(m) && t in m.tasksToRequests
    ensures Consistent(Disassociate(m, t))
    ensures m.tasksToRequests[t] !in Disassociate(m, t).requestsToTasks
  {
  }

  /** The three dictionaries have the same size, so the checks in `count`, `eventCount` and `isEmpty` pass. */
  lemma {:induction false} CountsAgree(m: Maps)
    requires Consistent(m)
    ensures |m.tasksToRequests| == |m.requestsToTasks| == |m.taskEvents|
    decreases |m.tasksToRequests.Keys|
  {
    if m.tasksToRequests.Keys == {} {
      NothingMapped(m);
    } else {
      var t :| t in m.tasksToRequests.Keys;
      DisassociateConsistent(m, t);
      var rest, r := Disassociate(m, t), m.tasksToRequests[t];
      assert rest.tasksToRequests.Keys == m.tasksToRequests.Keys - {t};
      assert rest.requestsToTasks.Keys == m.requestsToTasks.Keys - {r};
      assert rest.taskEvents.Keys == m.taskEvents.Keys - {t};
      hide Consistent, Disassociate;
      CountsAgree(rest);
    }
  }

  lemma NothingMapped(m: Maps)
    requires Consistent(m) && m.tasksToRequests.Keys == {}
    ensures |m.tasksToRequests| == |m.requestsToTasks| == |m.taskEvents| == 0
  {
    assert forall r :: r in m.requestsToTasks ==> m.requestsToTasks[r] in m.tasksToRequests.Keys;
    assert m.requestsToTasks.Keys == {};
  }

  // ----- The map object -----

  class RequestTaskMap {
    var tasksToRequests: map<Task, Request>
    var requestsToTasks: map<Request, Task>
    var taskEvents: map<Task, Events>

    function Abs(): Maps
      reads this
    {
      Maps(tasksToRequests, requestsToTasks, taskEvents)
    }

    constructor ()
      ensures Abs() == Maps(map[], map[], map[]) && Consistent(Abs())
    {
      tasksToRequests, requestsToTasks, taskEvents := map[], map[], map[];
    }

    method Set(r: Request, t: Task)
      modifies this
      ensures Abs() == Associate(old(Abs()), r, t)
    {
      requestsToTasks := requestsToTasks[r := t];
      tasksToRequests := tasksToRequests[t := r];
      taskEvents := taskEvents[t := Events(false, false)];
    }

    /** Setting a request's task to nil. */
    method RemoveRequest(r: Request)
      requires Consistent(Abs()) && r in requestsToTasks
      modifies this
      ensures Abs() == Disassociate(old(Abs()), old(requestsToTasks[r]))
    {
      var t := requestsToTasks[r];
      requestsToTasks := requestsToTasks - {r};
      tasksToRequests := tasksToRequests - {t};
      taskEvents := taskEvents - {t};
    }

    /** Setting a task's request to nil. */
    method RemoveTask(t: Task)
      requires t in tasksToRequests
      modifies this
      ensures Abs() == Disassociate(old(Abs()), t)
    {
      var r := tasksToRequests[t];
      tasksToRequests := tasksToRequests - {t};
      requestsToTasks := requestsToTasks - {r};
      taskEvents := taskEvents - {t};
    }

    method DisassociateAfterGatheringMetrics(t: Task) returns (did: bool)
      requires MetricsExpected(Abs(), t) && t in tasksToRequests
      modifies this
      ensures (Abs(), did) == AfterMetrics(old(Abs()), t)
    {
      var events := taskEvents[t];
      if events.completed {
        RemoveTask(t);
        return true;
      }
      taskEvents := taskEvents[t := Events(false, true)];
      did := false;
    }

    method DisassociateAfterCompleting(t: Task) returns (did: bool)
      requires CompletionExpected(Abs(), t) && t in tasksToRequests
      modifies this
      ensures (Abs(), did) == AfterCompletion(old(Abs()), t)
    {
      var events := taskEvents[t];
      if events.metricsGathered {
        RemoveTask(t);
        return true;
      }
      taskEvents := taskEvents[t := Events(true, false)];
      did := false;
    }
  }

  // ----- The session's gate -----

  /** The map, the completions that wait for metrics, and the completions run. */
  datatype Gate = Gate(maps: Maps, waiting: map<Task, Completion>, ran: seq<(Task, Completion)>)

  function GatherMetrics(g: Gate, t: Task): Gate
    requires MetricsExpected(g.maps, t) && t in g.maps.tasksToRequests
  {
    var (maps, did) := AfterMetrics(g.maps, t);
    if !did then g.(maps := maps)
    else Gate(maps, g.waiting - {t}, g.ran + (if t in g.waiting then [(t, g.waiting[t])] else []))
  }

  function CompleteTask(g: Gate, t: Task, c: Completion): Gate
    requires CompletionExpected(g.maps, t) && t in g.maps.tasksToRequests
  {
    var (maps, did) := AfterCompletion(g.maps, t);
    if did then g.(maps := maps, ran := g.ran + [(t, c)])
    else g.(maps := maps, waiting := g.waiting[t := c])
  }

  class Session {
    const requestTaskMap: RequestTaskMap
    var waitingCompletions: map<Task, Completion>
    var ran: seq<(Task, Completion)>

    function Abs(): Gate
      reads this, requestTaskMap
    {
      Gate(requestTaskMap.Abs(), waitingCompletions, ran)
    }

    constructor ()
      ensures fresh(requestTaskMap) && Abs() == Gate(Maps(map[], map[], map[]), map[], [])
    {
      requestTaskMap := new RequestTaskMap();
      waitingCompletions, ran := map[], [];
    }

    /** The part of `didCreateURLRequest` that maps the new task. */
    method DidCreateTask(r: Request, t: Task)
      modifies requestTaskMap
      ensures Abs() == old(Abs()).(maps := Associate(old(Abs()).maps, r, t))
    {
      requestTaskMap.Set(r, t);
    }

    method DidGatherMetricsForTask(t: Task)
      requires MetricsExpected(Abs().maps, t) && t in Abs().maps.tasksToRequests
      modifies this, requestTaskMap
      ensures Abs() == GatherMetrics(old(Abs()), t)
    {
      var did := requestTaskMap.DisassociateAfterGatheringMetrics(t);
      if did {
        if t in waitingCompletions {
          ran := ran + [(t, waitingCompletions[t])];
        }
        waitingCompletions := waitingCompletions - {t};
      }
    }

    method DidCompleteTask(t: Task, c: Completion)
      requires CompletionExpected(Abs().maps, t) && t in Abs().maps.tasksToRequests
      modifies this, requestTaskMap
      ensures Abs() == CompleteTask(old(Abs()), t, c)
    {
      var did := requestTaskMap.DisassociateAfterCompleting(t);
      if did {
        ran := ran + [(t, c)];
      } else {
        waitingCompletions := waitingCompletions[t := c];
      }
    }
  }

  // ----- Runs -----

  /** The gate, and what has happened to it: the tasks created, and the events each has had. */
  datatype System = System(gate: Gate, created: set<Task>, measured: set<Task>, completed: map<Task, Completion>)

  datatype Event =
    | Create(r: Request, t: Task)
    | Metrics(t: Task)
    | Complete(t: Task, c: Completion)

  const START := System(Gate(Maps(map[], map[], map[]), map[], []), {}, {}, map[])

  /** Tasks are new, a request gets one while it has none, and a task has each of its events at most once. */
  predicate Enabled(s: System, e: Event) {
    match e
    case Create(r, t) => t !in s.created && r !in s.gate.maps.requestsToTasks
    case Metrics(t) => t in s.created && t !in s.measured
    case Complete(t, _) => t in s.created && t !in s.completed
  }

  predicate Done(s: System, t: Task) {
    t in s.measured && t in s.completed
  }

  ghost predicate InStep(s: System) {
    var m := s.gate.maps;
    && Consistent(m)
    && s.measured <= s.created && s.completed.Keys <= s.created
    && (forall t :: t in m.tasksToRequests <==> t in s.created && !Done(s, t))
    && (forall t <- m.taskEvents :: m.taskEvents[t] == Events(t in s.completed, t in s.measured))
  }

  /** Exactly the tasks completed without metrics wait; each done task has run its completion once. */
  ghost predicate Settled(s: System) {
    && (forall t :: t in s.gate.waiting <==> t in s.completed && t !in s.measured)
    && (forall t <- s.gate.waiting :: s.gate.waiting[t] == s.completed[t])
    && (forall t, c :: multiset(s.gate.ran)[(t, c)] == if Done(s, t) && c == s.completed[t] then 1 else 0)
  }

  ghost predicate Inv(s: System) {
    InStep(s) && Settled(s)
  }

  /** The state after an event, or None where the map stops the program. */
  function Next(s: System, e: Event): Option<System>
    requires Enabled(s, e)
  {
    match e
    case Create(r, t) =>
      Some(s.(gate := s.gate.(maps := Associate(s.gate.maps, r, t)), created := s.created + {t}))
    case Metrics(t) =>
      if t in s.gate.maps.tasksToRequests && MetricsExpected(s.gate.maps, t) then
        Some(s.(gate := GatherMetrics(s.gate, t), measured := s.measured + {t}))
      else None
    case Complete(t, c) =>
      if t in s.gate.maps.tasksToRequests && CompletionExpected(s.gate.maps, t) then
        Some(s.(gate := CompleteTask(s.gate, t, c), completed := s.completed[t := c]))
      else None
  }

  /** A run takes the events in order; one that is not possible at its turn does not happen. */
  function Run(s: System, es: seq<Event>): Option<System>
    decreases |es|
  {
    if es == [] then Some(s)
    else if !Enabled(s, es[0]) then Run(s, es[1..])
    else
      match Next(s, es[0])
      case None => None
      case Some(s') => Run(s', es[1..])
  }

  lemma CreateInStep(s: System, r: Request, t: Task)
    requires InStep(s) && Enabled(s, Create(r, t))
    ensures InStep(Next(s, Create(r, t)).value)
  {
    AssociateConsistent(s.gate.maps, r, t);
    hide Consistent;
  }

  lemma CreateSettled(s: System, r: Request, t: Task)
    requires Settled(s) && Enabled(s, Create(r, t))
    ensures Settled(Next(s, Create(r, t)).value)
  {
  }

  /** A task that has had its first event keeps its place in the map; only the event is recorded. */
  lemma FirstEvent(s: System, s': System, t: Task)
    requires InStep(s) && t in s.created && t !in s.measured && t !in s.completed
    requires s'.created == s.created
    requires (s'.measured == s.measured + {t} && s'.completed == s.completed)
             || (s'.measured == s.measured && s'.completed.Keys == s.completed.Keys + {t})
    requires s'.gate.maps == s.gate.maps.(taskEvents := s.gate.maps.taskEvents[t := Events(t in s'.completed, t in s'.measured)])
    ensures InStep(s')
  {
  }

  /** The second event lets the pair go. */
  lemma SecondEvent(s: System, s': System, t: Task)
    requires InStep(s) && t in s.created && !Done(s, t)
    requires s'.created == s.created
    requires s'.measured == s.measured + {t} && s'.completed.Keys == s.completed.Keys + {t}
    requires t in s.gate.maps.tasksToRequests && s'.gate.maps == Disassociate(s.gate.maps, t)
    ensures InStep(s')
  {
    DisassociateConsistent(s.gate.maps, t);
    hide Consistent;
    assert Disassociate(s.gate.maps, t).taskEvents.Keys == s.gate.maps.taskEvents.Keys - {t};
  }

  lemma MetricsInStep(s: System, t: Task)
    requires InStep(s) && Enabled(s, Metrics(t))
    ensures Next(s, Metrics(t)).Some? && InStep(Next(s, Metrics(t)).value)
  {
    assert t in s.gate.maps.taskEvents;
    var s' := Next(s, Metrics(t)).value;
    if t in s.completed {
      assert s'.completed.Keys == s.completed.Keys + {t};
      SecondEvent(s, s', t);
    } else {
      FirstEvent(s, s', t);
    }
    hide InStep;
  }

  lemma CompleteInStep(s: System, t: Task, c: Completion)
    requires InStep(s) && Enabled(s, Complete(t, c))
    ensures Next(s, Complete(t, c)).Some? && InStep(Next(s, Complete(t, c)).value)
  {
    assert t in s.gate.maps.taskEvents;
    var s' := Next(s, Complete(t, c)).value;
    assert s'.completed.Keys == s.completed.Keys + {t};
    if t in s.measured {
      assert s'.measured == s.measured + {t};
      SecondEvent(s, s', t);
    } else {
      FirstEvent(s, s', t);
    }
    hide InStep;
  }

  lemma MetricsSettled(s: System, t: Task)
    requires Inv(s) && Enabled(s, Metrics(t)) && Next(s, Metrics(t)).Some?
    ensures Settled(Next(s, Metrics(t)).value)
  {
    assert t in s.gate.maps.taskEvents && s.gate.maps.taskEvents[t].completed == (t in s.completed);
    hide InStep, Disassociate;
    var s' := Next(s, Metrics(t)).value;
    if t in s.completed {
      OneRun(s, s', t, s.completed[t]);
    } else {
      assert s'.gate.ran == s.gate.ran && s'.gate.waiting == s.gate.waiting;
    }
  }

  lemma CompleteSettled(s: System, t: Task, c: Completion)
    requires Inv(s) && Enabled(s, Complete(t, c)) && Next(s, Complete(t, c)).Some?
    ensures Settled(Next(s, Complete(t, c)).value)
  {
    assert t in s.gate.maps.taskEvents && s.gate.maps.taskEvents[t].metricsGathered == (t in s.measured);
    hide InStep, Disassociate;
    var s' := Next(s, Complete(t, c)).value;
    if t in s.measured {
      assert s'.measured == s.measured + {t};
      OneRun(s, s', t, c);
    } else {
      OneWaits(s, s', t, c);
    }
  }

  /** A task that becomes done runs its completion then, and waits no longer. */
  lemma OneRun(s: System, s': System, t: Task, c: Completion)
    requires Settled(s) && !Done(s, t)
    requires s'.gate.ran == s.gate.ran + [(t, c)] && s'.gate.waiting == s.gate.waiting - {t}
    requires s'.measured == s.measured + {t} && s'.completed == s.completed[t := c]
    ensures Settled(s')
  {
    assert multiset(s'.gate.ran) == multiset(s.gate.ran) + multiset{(t, c)};
  }

  /** A task completed without metrics waits. */
  lemma OneWaits(s: System, s': System, t: Task, c: Completion)
    requires Settled(s) && t !in s.measured && t !in s.completed
    requires s'.gate.ran == s.gate.ran && s'.gate.waiting == s.gate.waiting[t := c]
    requires s'.measured == s.measured && s'.completed == s.completed[t := c]
    ensures Settled(s')
  {
  }

  lemma EventKeeps(s: System, e: Event)
    requires Inv(s) && Enabled(s, e)
    ensures Next(s, e).Some? && Inv(Next(s, e).value)
  {
    match e {
      case Create(r, t) =>
        CreateInStep(s, r, t);
        CreateSettled(s, r, t);
      case Metrics(t) =>
        MetricsInStep(s, t);
        MetricsSettled(s, t);
      case Complete(t, c) =>
        CompleteInStep(s, t, c);
        CompleteSettled(s, t, c);
    }
    hide InStep, Settled;
  }

  lemma {:induction false} RunKeeps(s: System, es: seq<Event>)
    requires Inv(s)
    ensures Run(s, es).Some? && Inv(Run(s, es).value)
    decreases |es|
  {
    if es != [] {
      if Enabled(s, es[0]) { EventKeeps(s, es[0]); }
      hide Inv, Next, Enabled;
      RunKeeps(if Enabled(s, es[0]) then Next(s, es[0]).value else s, es[1..]);
    }
  }

  /**
    In every run the map meets no event that it would stop on, stays one-to-one with events for exactly its
    tasks, and holds exactly the tasks that lack one of their two events. The completions that wait are those
    of the tasks completed without metrics, and a task's completion has run once if both events have come, in
    either order, and not at all before that.
   */
  lemma CompletionsRunOnce(es: seq<Event>)
    ensures Run(START, es).Some?
    ensures var s := Run(START, es).value;
            && Consistent(s.gate.maps)
            && (forall t :: t in s.gate.maps.tasksToRequests <==> t in s.created && !Done(s, t))
            && (forall t :: t in s.gate.waiting <==> t in s.completed && t !in s.measured)
            && (forall t, c :: multiset(s.gate.ran)[(t, c)] == if Done(s, t) && c == s.completed[t] then 1 else 0)
  {
    RunKeeps(START, es);
    hide Run;
  }

  /** Every mapped task belongs to the request that it was created for. */
  predicate MappedAsCreated(s: System, past: seq<Event>) {
    forall t <- s.gate.maps.tasksToRequests :: Create(s.gate.maps.tasksToRequests[t], t) in past
  }

  lemma {:induction false} RunMaps(s: System, es: seq<Event>, past: seq<Event>)
    requires MappedAsCreated(s, past) && Run(s, es).Some?
    ensures MappedAsCreated(Run(s, es).value, past + es)
    decreases |es|
  {
    if es == [] {
      assert past + es == past;
    } else {
      assert past + es == past + [es[0]] + es[1..];
      if Enabled(s, es[0]) {
        EventMaps(s, es[0], past);
        RunMaps(Next(s, es[0]).value, es[1..], past + [es[0]]);
      } else {
        assert forall e :: e in past ==> e in past + [es[0]];
        RunMaps(s, es[1..], past + [es[0]]);
      }
    }
  }

  lemma EventMaps(s: System, e: Event, past: seq<Event>)
    requires MappedAsCreated(s, past) && Enabled(s, e) && Next(s, e).Some?
    ensures MappedAsCreated(Next(s, e).value, past + [e])
  {
    assert forall x :: x in past ==> x in past + [e];
    assert e in past + [e];
    var m, m' := s.gate.maps.tasksToRequests, Next(s, e).value.gate.maps.tasksToRequests;
    assert forall t <- m' :: (t in m && m'[t] == m[t]) || e == Create(m'[t], t);
    hide Next, Enabled;
  }

  /** In every run, a task is mapped to the request that it was created for, and to no other. */
  lemma TasksKeepRequests(es: seq<Event>)
    ensures Run(START, es).Some? && MappedAsCreated(Run(START, es).value, es)
  {
    CompletionsRunOnce(es);
    RunMaps(START, es, []);
    assert [] + es == es;
    hide Run;
  }

  /** When a task's completion runs, its request has been let go, so that it can be given a new task. */
  lemma CompletionFreesRequest(s: System, e: Event)
    requires Inv(s) && Enabled(s, e) && !e.Create?
    requires Next(s, e).Some? && Next(s, e).value.gate.ran != s.gate.ran
    requires e.t in s.gate.maps.tasksToRequests
    ensures s.gate.maps.tasksToRequests[e.t] !in Next(s, e).value.gate.maps.requestsToTasks
    ensures e.t !in Next(s, e).value.gate.maps.tasksToRequests
  {
    DisassociateConsistent(s.gate.maps, e.t);
  }
}

/**
  Runs of a request: its passes through loading, retrying and serializing, while other threads register
  handlers, resume and suspend. Every lock section is a step of its own.
 */
module RequestRuns {
  import opened RequestPipeline

  /** Work in flight for the request: a running task, a dispatched block, or a block between two lock sections. */
  datatype Activity =
    | Loading
    | TaskRetrierAsked
    | RetryDispatched
    | Resetting
    | Finishing
    | Processing
    | Serializing(h: Handler)
    | Parsed(c: Completion)
    | SerializerRetrierAsked(c: Completion)
    | Completing(c: Completion)
    | Draining
    | Calling(left: seq<Completion>)

  /** A handler, and whether the pipeline was still open when it was registered. */
  datatype Registration = Registration(h: Handler, onTime: bool)

  datatype System = System(
    request: MutableState,
    activities: seq<Activity>,
    called: seq<Completion>,
    registered: seq<Registration>)

  datatype Event =
    | Register(h: Handler)
    | Resume
    | Suspend
    | Step(k: nat, failed: bool, retry: bool)

  /** A request just performed. */
  const START := System(MutableState(Initialized, [], [], false, false, 0), [Loading], [], [])

  /** No thread has yet found the pipeline empty. */
  predicate Open(s: System) {
    !s.request.processingFinished && Draining !in s.activities
  }

  predicate Enabled(s: System, e: Event) {
    e.Step? ==> e.k < |s.activities|
  }

  /** One step of an activity: the new request state, what the activity becomes, and the completion it calls. */
  function Advance(m: MutableState, a: Activity, failed: bool, retry: bool): (MutableState, seq<Activity>, seq<Completion>) {
    match a
    case Loading => (m, [if failed then TaskRetrierAsked else Finishing], [])
    case TaskRetrierAsked => (m, [if retry then RetryDispatched else Finishing], [])
    case RetryDispatched => (m.(retryCount := m.retryCount + 1), [Resetting], [])
    case Resetting => (Reset(m), [Loading], [])
    case Finishing => if m.isFinishing then (m, [], []) else (m.(isFinishing := true), [Processing], [])
    case Processing =>
      (match NextSerializer(m)
       case Some(h) => (m, [Serializing(h)], [])
       case None => (m, [Draining], []))
    case Serializing(h) => (m, [Parsed(Completion(h, m.retryCount))], [])
    case Parsed(c) => (m, [if failed then SerializerRetrierAsked(c) else Completing(c)], [])
    case SerializerRetrierAsked(c) => (m, [if retry then RetryDispatched else Completing(c)], [])
    case Completing(c) => (AddCompletion(m, c), [Processing], [])
    case Draining => (Drain(m), [Calling(m.completions)], [])
    case Calling(left) => if left == [] then (m, [], []) else (m, [Calling(left[1..])], [left[0]])
  }

  function Next(s: System, e: Event): System
    requires Enabled(s, e)
  {
    match e
    case Register(h) =>
      s.(request := AppendSerializer(s.request, h),
         activities := s.activities + (if s.request.processingFinished then [Processing] else []),
         registered := s.registered + [Registration(h, Open(s))])
    case Resume => s.(request := MoveTo(s.request, Resumed))
    case Suspend => s.(request := MoveTo(s.request, Suspended))
    case Step(k, failed, retry) =>
      var (m, next, now) := Advance(s.request, s.activities[k], failed, retry);
      s.(request := m, activities := s.activities[..k] + next + s.activities[k + 1..], called := s.called + now)
  }

  /** A run takes the events in order; one that is not possible at its turn does not happen. */
  function Run(s: System, es: seq<Event>): System
    decreases |es|
  {
    if es == [] then s else Run(if Enabled(s, es[0]) then Next(s, es[0]) else s, es[1..])
  }

  /** No handler is registered once the completions have been taken. */
  predicate NoneAfterFinish(s: System, es: seq<Event>)
    decreases |es|
  {
    es == [] ||
    (&& (es[0].Register? ==> !s.request.processingFinished)
     && NoneAfterFinish(if Enabled(s, es[0]) then Next(s, es[0]) else s, es[1..]))
  }

  // ----- What every step keeps -----

  /** The handlers registered while the pipeline was open, in order. */
  function OnTime(rs: seq<Registration>): seq<Handler> {
    if rs == [] then []
    else OnTime(rs[..|rs| - 1]) + (if rs[|rs| - 1].onTime then [rs[|rs| - 1].h] else [])
  }

  lemma OnTimeAppended(rs: seq<Registration>, r: Registration)
    ensures OnTime(rs + [r]) == OnTime(rs) + (if r.onTime then [r.h] else [])
  {
    assert (rs + [r])[..|rs|] == rs;
  }

  /** One completion for each of the handlers, in order, all with the response of one pass. */
  function AllOf(hs: seq<Handler>, pass: nat): (cs: seq<Completion>)
    ensures |cs| == |hs|
  {
    seq(|hs|, i requires 0 <= i < |hs| => Completion(hs[i], pass))
  }

  /** The completions in hand are those of this pass, for the first of the handlers. */
  predicate InOrder(m: MutableState) {
    |m.completions| <= |m.serializers| && m.completions == AllOf(m.serializers[..|m.completions|], m.retryCount)
  }

  predicate NextIs(m: MutableState, c: Completion) {
    InOrder(m) && |m.completions| < |m.serializers| && c == Completion(m.serializers[|m.completions|], m.retryCount)
  }

  /** What holds of the request while `a` is its only activity. */
  predicate Fits(s: System, a: Activity) {
    var m, hs := s.request, OnTime(s.registered);
    match a
    case Loading => Before(s) && !m.isFinishing && m.completions == []
    case TaskRetrierAsked => Before(s) && !m.isFinishing && m.completions == []
    case Finishing => Before(s) && !m.isFinishing && m.completions == []
    case RetryDispatched => Before(s)
    case Resetting => Before(s)
    case Processing => Before(s) && InOrder(m)
    case Serializing(h) => Before(s) && NextIs(m, Completion(h, m.retryCount))
    case Parsed(c) => Before(s) && NextIs(m, c)
    case SerializerRetrierAsked(c) => Before(s) && NextIs(m, c)
    case Completing(c) => Before(s) && NextIs(m, c)
    case Draining =>
      !m.processingFinished && s.called == [] && !m.state.Finished? && m.completions == AllOf(hs, m.retryCount)
    case Calling(left) => After(m) && s.called + left == AllOf(hs, m.retryCount)
  }

  predicate Before(s: System) {
    && !s.request.processingFinished && s.called == [] && !s.request.state.Finished?
    && s.request.serializers == OnTime(s.registered)
  }

  predicate After(m: MutableState) {
    m.processingFinished && m.state == Finished && m.serializers == [] && m.completions == []
  }

  /** The request has at most one activity, and everything registered on time is accounted for. */
  predicate Inv(s: System) {
    && s.request.state != Cancelled
    && |s.activities| <= 1
    && (s.activities == [] ==> After(s.request) && s.called == AllOf(OnTime(s.registered), s.request.retryCount))
    && (s.activities != [] ==> Fits(s, s.activities[0]))
  }

  lemma NextCompletionAdded(m: MutableState, c: Completion)
    requires NextIs(m, c)
    ensures InOrder(AddCompletion(m, c))
  {
    var n := |m.completions|;
    assert m.serializers[..n + 1] == m.serializers[..n] + [m.serializers[n]];
  }

  /** A step of the only activity. */
  function Stepped(s: System, a: Activity, failed: bool, retry: bool): System {
    var (m, next, now) := Advance(s.request, a, failed, retry);
    s.(request := m, activities := next, called := s.called + now)
  }

  lemma OneStep(s: System, failed: bool, retry: bool)
    requires |s.activities| == 1
    ensures Next(s, Step(0, failed, retry)) == Stepped(s, s.activities[0], failed, retry)
  {
    hide Advance;
  }

  lemma SerializerStepKeeps(s: System, a: Activity, failed: bool, retry: bool)
    requires a.Serializing? || a.Parsed? || a.SerializerRetrierAsked?
    requires s.activities == [a] && Inv(s)
    ensures Inv(Stepped(s, a, failed, retry))
  {
    hide OnTime, AllOf, InOrder;
  }

  lemma CompletionStepKeeps(s: System, c: Completion, failed: bool, retry: bool)
    requires s.activities == [Completing(c)] && Inv(s)
    ensures Inv(Stepped(s, Completing(c), failed, retry))
  {
    NextCompletionAdded(s.request, c);
    hide NextIs, InOrder, OnTime, AllOf;
  }

  lemma ProcessingStepKeeps(s: System, failed: bool, retry: bool)
    requires s.activities == [Processing] && Inv(s)
    ensures Inv(Stepped(s, Processing, failed, retry))
  {
    hide OnTime, AllOf;
    assert s.request.serializers[..|s.request.serializers|] == s.request.serializers;
  }

  lemma LoadStepKeeps(s: System, a: Activity, failed: bool, retry: bool)
    requires a.Loading? || a.TaskRetrierAsked? || a.RetryDispatched? || a.Resetting?
    requires s.activities == [a] && Inv(s)
    ensures Inv(Stepped(s, a, failed, retry))
  {
    hide OnTime, AllOf, InOrder, NextIs;
  }

  lemma FinishStepKeeps(s: System, failed: bool, retry: bool)
    requires s.activities == [Finishing] && Inv(s)
    ensures Inv(Stepped(s, Finishing, failed, retry))
  {
    hide OnTime, NextIs;
  }

  lemma DrainStepKeeps(s: System, a: Activity, failed: bool, retry: bool)
    requires a.Draining? || a.Calling?
    requires s.activities == [a] && Inv(s)
    ensures Inv(Stepped(s, a, failed, retry))
  {
    hide OnTime, AllOf, InOrder, NextIs;
    if a.Calling? && a.left != [] {
      assert a.left == [a.left[0]] + a.left[1..];
      assert (s.called + [a.left[0]]) + a.left[1..] == s.called + a.left;
    }
  }

  lemma StepKeeps(s: System, failed: bool, retry: bool)
    requires Inv(s) && s.activities != []
    ensures Inv(Next(s, Step(0, failed, retry)))
  {
    var a := s.activities[0];
    assert s.activities == [a];
    OneStep(s, failed, retry);
    hide Next, Fits, Stepped;
    match a {
      case Processing => ProcessingStepKeeps(s, failed, retry);
      case Completing(c) => CompletionStepKeeps(s, c, failed, retry);
      case Finishing => FinishStepKeeps(s, failed, retry);
      case Draining => DrainStepKeeps(s, a, failed, retry);
      case Calling(_) => DrainStepKeeps(s, a, failed, retry);
      case Serializing(_) => SerializerStepKeeps(s, a, failed, retry);
      case Parsed(_) => SerializerStepKeeps(s, a, failed, retry);
      case SerializerRetrierAsked(_) => SerializerStepKeeps(s, a, failed, retry);
      case _ => LoadStepKeeps(s, a, failed, retry);
    }
  }

  lemma RegisterKeeps(s: System, e: Event)
    requires Inv(s) && e.Register? && !s.request.processingFinished
    ensures Inv(Next(s, e))
  {
    OnTimeAppended(s.registered, Registration(e.h, Open(s)));
    var a, n := s.activities[0], |s.request.completions|;
    assert s.activities == [a];
    assert Next(s, e).activities == [a];
    if n <= |s.request.serializers| {
      assert (s.request.serializers + [e.h])[..n] == s.request.serializers[..n];
    }
  }

  lemma EventKeeps(s: System, e: Event)
    requires Inv(s) && Enabled(s, e) && (e.Register? ==> !s.request.processingFinished)
    ensures Inv(Next(s, e))
  {
    match e {
      case Register(_) => RegisterKeeps(s, e);
      case Step(_, failed, retry) => StepKeeps(s, failed, retry);
      case Resume =>
      case Suspend =>
    }
  }

  lemma {:induction false} RunKeeps(s: System, es: seq<Event>)
    requires Inv(s) && NoneAfterFinish(s, es)
    ensures Inv(Run(s, es))
    decreases |es|
  {
    if es != [] {
      if Enabled(s, es[0]) { EventKeeps(s, es[0]); }
      hide Inv, Next, Enabled;
      RunKeeps(if Enabled(s, es[0]) then Next(s, es[0]) else s, es[1..]);
    }
  }

  /** One completion for each handler registered on time, in order, with the response of the last pass. */
  lemma HandlersInOrder(es: seq<Event>)
    requires NoneAfterFinish(START, es)
    ensures var s := Run(START, es);
            var expected := AllOf(OnTime(s.registered), s.request.retryCount);
            && s.called <= expected
            && (s.activities == [] ==> s.called == expected && s.request.state == Finished)
  {
    RunKeeps(START, es);
    hide Run, OnTime, AllOf;
  }

  // ----- Handlers that come too late -----

  predicate Mentions(a: Activity, h: Handler) {
    match a
    case Serializing(g) => g == h
    case Parsed(c) => c.handler == h
    case SerializerRetrierAsked(c) => c.handler == h
    case Completing(c) => c.handler == h
    case Calling(left) => HasCompletion(left, h)
    case _ => false
  }

  predicate HasCompletion(cs: seq<Completion>, h: Handler) {
    exists i :: 0 <= i < |cs| && cs[i].handler == h
  }

  /** Nothing that the request holds, runs or has run is of the handler. */
  predicate Forgotten(s: System, h: Handler) {
    && h !in s.request.serializers && !HasCompletion(s.request.completions, h) && !HasCompletion(s.called, h)
    && forall i :: 0 <= i < |s.activities| ==> !Mentions(s.activities[i], h)
  }

  /** The handler is forgotten, or will be with the next step of the request, which empties the pipeline. */
  predicate Doomed(s: System, h: Handler) {
    || Forgotten(s, h)
    || (s.activities == [Draining] && !s.request.processingFinished
        && !HasCompletion(s.request.completions, h) && !HasCompletion(s.called, h))
  }

  lemma AdvanceForgets(m: MutableState, a: Activity, failed: bool, retry: bool, h: Handler)
    requires h !in m.serializers && !HasCompletion(m.completions, h) && !Mentions(a, h)
    ensures var (m', next, now) := Advance(m, a, failed, retry);
            && h !in m'.serializers && !HasCompletion(m'.completions, h) && !HasCompletion(now, h)
            && forall i :: 0 <= i < |next| ==> !Mentions(next[i], h)
  {
    if a.Processing? && NextSerializer(m).Some? {
      assert m.serializers[|m.completions|] in m.serializers;
    }
    if a.Calling? && a.left != [] {
      assert a.left[0].handler != h;
      assert forall i :: 0 <= i < |a.left[1..]| ==> a.left[1..][i] == a.left[i + 1];
    }
  }

  lemma StepForgets(s: System, k: nat, failed: bool, retry: bool, h: Handler)
    requires Forgotten(s, h) && k < |s.activities|
    ensures Forgotten(Next(s, Step(k, failed, retry)), h)
  {
    AdvanceForgets(s.request, s.activities[k], failed, retry, h);
    hide Advance, Mentions;
  }

  lemma EventDooms(s: System, e: Event, h: Handler)
    requires Doomed(s, h) && Enabled(s, e) && e != Register(h)
    ensures Doomed(Next(s, e), h)
  {
    if Forgotten(s, h) {
      if e.Step? { StepForgets(s, e.k, e.failed, e.retry, h); }
    } else if e.Step? {
      OneStep(s, e.failed, e.retry);
      assert Stepped(s, Draining, e.failed, e.retry).called == s.called;
    }
  }

  lemma {:induction false} RunDooms(s: System, es: seq<Event>, h: Handler)
    requires Doomed(s, h) && Register(h) !in es
    ensures Doomed(Run(s, es), h)
    decreases |es|
  {
    if es != [] {
      assert es[0] in es;
      if Enabled(s, es[0]) { EventDooms(s, es[0], h); }
      hide Doomed, Next, Enabled;
      RunDooms(if Enabled(s, es[0]) then Next(s, es[0]) else s, es[1..], h);
    }
  }

  /** Completions in hand are of handlers that were registered. */
  lemma {:induction false} OnTimeRegistered(rs: seq<Registration>, h: Handler)
    requires forall r <- rs :: r.h != h
    ensures h !in OnTime(rs)
  {
    if rs != [] {
      assert rs[|rs| - 1] in rs;
      OnTimeRegistered(rs[..|rs| - 1], h);
    }
  }

  /**
    A handler registered while the pipeline, found empty, is about to be emptied is never called: whatever happens
    afterwards, with any retries and other handlers, unless it is registered again.
   */
  lemma LateHandlerNeverCalled(es: seq<Event>, h: Handler, more: seq<Event>)
    requires NoneAfterFinish(START, es)
    requires var s := Run(START, es); s.activities == [Draining] && forall r <- s.registered :: r.h != h
    requires Register(h) !in more
    ensures !HasCompletion(Run(Next(Run(START, es), Register(h)), more).called, h)
  {
    var s := Run(START, es);
    RunKeeps(START, es);
    OnTimeRegistered(s.registered, h);
    assert forall i :: 0 <= i < |s.request.completions| ==> s.request.completions[i].handler == OnTime(s.registered)[i];
    var s' := Next(s, Register(h));
    assert s'.activities == [Draining];
    hide Run, OnTime;
    RunDooms(s', more, h);
  }

  /** The shortest run that loses a handler: it is registered after the pipeline was found empty. */
  function LostRun(h: Handler): seq<Event> {
    var step := Step(0, false, false);
    [step, step, step, Register(h), step, step]
  }

  /** It is accepted, the request comes to rest without calling it, and nothing that follows calls it. */
  lemma HandlerLost(h: Handler, more: seq<Event>)
    requires Register(h) !in more
    ensures NoneAfterFinish(START, LostRun(h))
    ensures var s := Run(START, LostRun(h)); s.activities == [] && s.registered == [Registration(h, false)] && s.called == []
    ensures !HasCompletion(Run(Run(START, LostRun(h)), more).called, h)
  {
    var step, es := Step(0, false, false), LostRun(h);
    var s1 := Stepped(START, Loading, false, false);
    var s2 := Stepped(s1, Finishing, false, false);
    var s3 := Stepped(s2, Processing, false, false);
    OneStep(START, false, false);
    OneStep(s1, false, false);
    OneStep(s2, false, false);
    TakesFirst(START, step, es);
    TakesFirst(s1, step, es[1..]);
    TakesFirst(s2, step, es[2..]);
    LostWhileDraining(s3, h, es[3..]);
    hide Run, NoneAfterFinish;
    RunDooms(Run(START, es), more, h);
  }

  lemma LostWhileDraining(s: System, h: Handler, es: seq<Event>)
    requires s.activities == [Draining] && !s.request.processingFinished
    requires s.request.completions == [] && s.registered == [] && s.called == []
    requires es == [Register(h), Step(0, false, false), Step(0, false, false)]
    ensures NoneAfterFinish(s, es)
    ensures Run(s, es).activities == [] && Run(s, es).registered == [Registration(h, false)] && Run(s, es).called == []
    ensures Doomed(Run(s, es), h)
  {
    var s1 := Next(s, Register(h));
    assert s1.activities == [Draining];
    var s2 := Stepped(s1, Draining, false, false);
    var s3 := Stepped(s2, Calling([]), false, false);
    OneStep(s1, false, false);
    OneStep(s2, false, false);
    TakesFirst(s, Register(h), es);
    TakesFirst(s1, es[1], es[1..]);
    TakesFirst(s2, es[2], es[2..]);
    assert es[3..] == [];
    NothingTaken(s3);
    hide Run, NoneAfterFinish;
  }

  lemma NothingTaken(s: System)
    ensures Run(s, []) == s && NoneAfterFinish(s, [])
  {
  }

  lemma TakesFirst(s: System, e: Event, es: seq<Event>)
    requires es != [] && es[0] == e && Enabled(s, e) && (e.Register? ==> !s.request.processingFinished)
    ensures Run(s, es) == Run(Next(s, e), es[1..])
    ensures NoneAfterFinish(s, es) == NoneAfterFinish(Next(s, e), es[1..])
  {
    hide Next;
  }

  // ----- Handlers that come after the end -----

  function Steps(n: nat): (es: seq<Event>)
    ensures |es| == n
  {
    if n == 0 then [] else [Step(0, false, false)] + Steps(n - 1)
  }

  lemma StepsOn(s: System, a: Activity, n: nat)
    requires s.activities == [a] && n > 0
    ensures Run(s, Steps(n)) == Run(Stepped(s, a, false, false), Steps(n - 1))
  {
    OneStep(s, false, false);
    assert Steps(n)[0] == Step(0, false, false) && Steps(n)[1..] == Steps(n - 1);
    hide Next, Stepped, Steps;
  }

  /** A handler registered on a finished request is called too, with the response of the last pass, and the request finishes again. */
  lemma HandlerAfterFinish(s: System, h: Handler)
    requires s.activities == [] && After(s.request) && !s.request.isFinishing
    ensures var s' := Run(Next(s, Register(h)), Steps(8));
            && s'.called == s.called + [Completion(h, s.request.retryCount)]
            && s'.activities == [] && After(s'.request) && !s'.request.isFinishing
  {
    var m, s0 := s.request, Next(s, Register(h));
    assert s0.request == m.(serializers := [h], state := Resumed) && s0.activities == [Processing] && s0.called == s.called;
    hide Run, Steps, Next, Open, Drain, NextSerializer;
    OneHandler(s0, h);
  }

  /** The only handler of a request, from the processing of its serializer on. */
  lemma OneHandler(s: System, h: Handler)
    requires s.activities == [Processing] && s.request.serializers == [h] && s.request.completions == [] && s.request.state == Resumed
    ensures var s', m := Run(s, Steps(8)), s.request;
            && s'.request == MutableState(Finished, [], [], true, false, m.retryCount)
            && s'.activities == [] && s'.called == s.called + [Completion(h, m.retryCount)]
  {
    var c, n := Completion(h, s.request.retryCount), 0;
    var s4 := s.(request := s.request.(completions := [c]));
    hide Run, Steps;
    HandlerSerialized(s, h, n + 4);
    HandlerCalled(s4, c, n);
    RunNothing(s4.(request := MutableState(Finished, [], [], true, false, s.request.retryCount), activities := [], called := s.called + [c]));
  }

  /** The first half: the handler's serializer completes. */
  lemma HandlerSerialized(s: System, h: Handler, n: nat)
    requires s.activities == [Processing] && s.request.serializers == [h] && s.request.completions == []
    ensures var c := Completion(h, s.request.retryCount);
            Run(s, Steps(n + 4)) == Run(s.(request := s.request.(completions := [c])), Steps(n))
  {
    var m, c := s.request, Completion(h, s.request.retryCount);
    hide Run, Steps;
    StepsOn(s, Processing, n + 4);
    StepsOn(s.(activities := [Serializing(h)]), Serializing(h), n + 3);
    StepsOn(s.(activities := [Parsed(c)]), Parsed(c), n + 2);
    StepsOn(s.(activities := [Completing(c)]), Completing(c), n + 1);
    assert [] + [c] == [c] && s.called + [] == s.called;
  }

  /** The second half: the pipeline is emptied, and the handler called. */
  lemma HandlerCalled(s: System, c: Completion, n: nat)
    requires s.activities == [Processing] && |s.request.serializers| == 1 && s.request.completions == [c]
    requires s.request.state == Resumed
    ensures var m := s.request.(serializers := [], completions := [], state := Finished, processingFinished := true, isFinishing := false);
            Run(s, Steps(n + 4)) == Run(s.(request := m, activities := [], called := s.called + [c]), Steps(n))
  {
    var m := Drain(s.request);
    var s1 := s.(activities := [Draining]);
    var s2 := s.(request := m, activities := [Calling([c])]);
    assert s.called + [] == s.called;
    assert Stepped(s, Processing, false, false) == s1;
    assert Stepped(s1, Draining, false, false) == s2;
    hide Run, Steps, Stepped;
    StepsOn(s, Processing, n + 4);
    StepsOn(s1, Draining, n + 3);
    hide Drain;
    CompletionCalled(s2, c, n);
  }

  lemma CompletionCalled(s: System, c: Completion, n: nat)
    requires s.activities == [Calling([c])]
    ensures Run(s, Steps(n + 2)) == Run(s.(activities := [], called := s.called + [c]), Steps(n))
  {
    var s1 := s.(activities := [Calling([])], called := s.called + [c]);
    assert [c][1..] == [];
    assert Stepped(s, Calling([c]), false, false) == s1;
    assert s.called + [c] + [] == s.called + [c];
    assert Stepped(s1, Calling([]), false, false) == s1.(activities := []);
    hide Run, Steps, Stepped;
    StepsOn(s, Calling([c]), n + 2);
    StepsOn(s1, Calling([]), n + 1);
  }

  lemma RunNothing(s: System)
    ensures Run(s, Steps(0)) == s
  {
  }

  // ----- Every pass ends -----

  /** A bound on the steps an activity has left if nothing retries the request again. */
  function Work(m: MutableState, a: Activity): int {
    match a
    case RetryDispatched => 6 * |m.serializers| + 8
    case Resetting => 6 * |m.serializers| + 7
    case Loading => 6 * |m.serializers| + 6
    case TaskRetrierAsked => 6 * |m.serializers| + 5
    case Finishing => 6 * |m.serializers| + 4
    case Processing => 6 * |m.serializers| - 5 * |m.completions| + 3
    case Serializing(_) => 6 * |m.serializers| - 5 * |m.completions| + 2
    case Parsed(_) => 6 * |m.serializers| - 5 * |m.completions| + 1
    case SerializerRetrierAsked(_) => 6 * |m.serializers| - 5 * |m.completions|
    case Completing(_) => 6 * |m.serializers| - 5 * |m.completions| - 1
    case Draining => |m.completions| + 2
    case Calling(left) => |left| + 1
  }

  function WorkLeft(s: System): (n: nat)
    requires Inv(s)
    ensures n == 0 <==> s.activities == []
  {
    hide AllOf, OnTime;
    if s.activities == [] then 0 else Work(s.request, s.activities[0])
  }

  /** A step either retries, which starts a new pass, or leaves less to do. */
  lemma StepProgresses(s: System, a: Activity, failed: bool, retry: bool)
    requires Inv(s) && s.activities == [a]
    ensures var s' := Stepped(s, a, failed, retry);
            && |s'.request.serializers| <= |s.request.serializers|
            && (s'.activities == [] ||
                (|s'.activities| == 1 &&
                 (Work(s'.request, s'.activities[0]) < Work(s.request, a)
                  || (retry && Work(s'.request, s'.activities[0]) == 6 * |s.request.serializers| + 8))))
  {
    hide AllOf, OnTime;
  }

  function Retries(es: seq<Event>): nat {
    if es == [] then 0 else (if es[0].Step? && es[0].retry then 1 else 0) + Retries(es[1..])
  }

  /** Every step uses one up, given `pass` steps for each retry. */
  lemma StepSpent(s: System, failed: bool, retry: bool, pass: nat)
    requires Inv(s) && s.activities != []
    requires pass >= 6 * |s.request.serializers| + 9
    ensures var s' := Next(s, Step(0, failed, retry));
            && Inv(s') && pass >= 6 * |s'.request.serializers| + 9
            && WorkLeft(s') + 1 <= WorkLeft(s) + (if retry then pass else 0)
  {
    StepKeeps(s, failed, retry);
    OneStep(s, failed, retry);
    var a := s.activities[0];
    assert s.activities == [a];
    StepProgresses(s, a, failed, retry);
    hide Inv, Next, Stepped, Work;
  }

  lemma RetrySpent(pass: nat, r: nat, first: bool)
    ensures pass * ((if first then 1 else 0) + r) == (if first then pass else 0) + pass * r
  {
  }

  /** With finitely many retries, a request comes to rest within a number of steps known in advance. */
  lemma {:induction false} PipelineEnds(s: System, es: seq<Event>, pass: nat)
    requires Inv(s) && (forall e <- es :: e.Step? && e.k == 0)
    requires pass >= 6 * |s.request.serializers| + 9
    requires |es| >= WorkLeft(s) + pass * Retries(es)
    ensures Run(s, es).activities == []
    decreases |es|
  {
    hide Inv, Next, WorkLeft;
    if s.activities == [] {
      RestIsFinal(s, es);
    } else {
      assert WorkLeft(s) > 0;
      assert pass * Retries(es) >= 0;
      var e := es[0];
      assert e in es && e == Step(0, e.failed, e.retry);
      StepSpent(s, e.failed, e.retry, pass);
      RetrySpent(pass, Retries(es[1..]), e.retry);
      PipelineEnds(Next(s, e), es[1..], pass);
    }
  }

  lemma {:induction false} RestIsFinal(s: System, es: seq<Event>)
    requires s.activities == [] && (forall e <- es :: e.Step?)
    ensures Run(s, es) == s
    decreases |es|
  {
    if es != [] {
      assert es[0] in es && !Enabled(s, es[0]);
      RestIsFinal(s, es[1..]);
    }
  }
}

/** Which credential is refreshed, in every run: the one read, which need not be the one held any more. */
module AuthenticationRefreshes {
  import opened Options
  import opened Authentication
  import opened AuthenticationRuns

  /** The credential of the refresh that a step has started. */
  function Started(before: State, after: State): Option<Credential> {
    if !before.isRefreshing && after.isRefreshing && after.queue != [] && after.queue[|after.queue| - 1].CallRefresh? then
      Some(after.queue[|after.queue| - 1].c)
    else None
  }

  /** A step records the time of the refresh that it has started, and no other. */
  predicate Recorded(before: State, after: State, time: real) {
    after.refreshTimestamps == before.refreshTimestamps + (if Started(before, after).Some? then [time] else [])
  }

  /** The time that an event records for the refresh that it starts. */
  function TimeOf(e: Event): real {
    match e
    case CallAdapt(_, _, _, t) => t
    case LockRetry(_, _, t) => t
    case RunBlock(_, _, t) => t
    case _ => 0.0
  }

  // ----- The credential and its history -----

  /** The trail ends with the credential held, and each thread in `retry` has the one it read. */
  predicate Tracked(s: System) {
    && |s.history.trail| > 0 && s.history.trail[|s.history.trail| - 1] == s.state.credential
    && AllRead(s.history.trail, s.pending)
  }

  predicate AllRead(trail: seq<Option<Credential>>, ps: seq<Pending>) {
    forall p <- ps :: p.RetryWaiting? ==> p.readAt < |trail| && trail[p.readAt] == Some(p.c)
  }

  lemma ReadsStay(trail: seq<Option<Credential>>, ps: seq<Pending>, c: Option<Credential>)
    requires AllRead(trail, ps)
    ensures AllRead(trail + [c], ps)
  {
  }

  lemma AdaptKeepsCredential(s: State, op: Completion, requiresRefresh: bool, t1: real, t2: real)
    ensures AdaptLocked(s, op, requiresRefresh, t1, t2).0.credential == s.credential
  {
    hide IsRefreshExcessive;
  }

  lemma AnswerTracked(s: System, result: RefreshResult)
    requires Tracked(s) && Enabled(s, AnswerRefresh(result))
    ensures Tracked(Next(s, AnswerRefresh(result)))
  {
    if result.Refreshed? { ReadsStay(s.history.trail, s.pending, Some(result.c)); }
    hide AllRead;
  }

  lemma CallRetryTracked(s: System, completion: Completion, facts: RetryFacts)
    requires Tracked(s) && Enabled(s, CallRetry(completion, facts))
    ensures Tracked(Next(s, CallRetry(completion, facts)))
  {
  }

  lemma RunBlockTracked(s: System, requiresRefresh: bool, t1: real, t2: real)
    requires Tracked(s) && s.state.queue != []
    ensures Tracked(QueueStep(s, requiresRefresh, t1, t2))
  {
    var b := s.state.queue[0];
    if b.Readapt? && b.ops != [] {
      AdaptKeepsCredential(s.state.(queue := [Readapt(b.ops[1..], b.retries)] + s.state.queue[1..]), b.ops[0], requiresRefresh, t1, t2);
    }
    hide AdaptLocked;
  }

  lemma StepTracked(s: System, e: Event)
    requires Tracked(s) && Enabled(s, e)
    ensures Tracked(Next(s, e)) && s.history.trail <= Next(s, e).history.trail
  {
    match e {
      case CallAdapt(op, requiresRefresh, t1, t2) =>
        AdaptKeepsCredential(s.state, op, requiresRefresh, t1, t2);
        hide AdaptLocked;
      case RunBlock(requiresRefresh, t1, t2) => RunBlockTracked(s, requiresRefresh, t1, t2);
      case AnswerRefresh(result) => AnswerTracked(s, result);
      case CallRetry(completion, facts) => CallRetryTracked(s, completion, facts);
      case SetCredential(c) => ReadsStay(s.history.trail, s.pending, c);
      case LockRetry(_, _, _) => hide IsRefreshExcessive;
      case ReturnAdapt(_) =>
    }
  }

  lemma {:induction false} RunTracked(s: System, es: seq<Event>)
    requires Tracked(s)
    ensures Tracked(Run(s, es)) && s.history.trail <= Run(s, es).history.trail
    decreases |es|
  {
    if es != [] {
      if Enabled(s, es[0]) { StepTracked(s, es[0]); }
      hide Tracked, Next, Enabled;
      RunTracked(if Enabled(s, es[0]) then Next(s, es[0]) else s, es[1..]);
    }
  }

  // ----- What a step starts -----

  lemma RefreshStarts(s: State, c: Credential, t1: real, t2: real)
    requires !s.isRefreshing
    ensures var s' := Refresh(s, c, t1, t2);
            Started(s, s') == (if IsRefreshExcessive(s, t1) then None else Some(c)) && Recorded(s, s', t2)
  {
    hide IsRefreshExcessive;
  }

  /** What `adapt` starts: a refresh of the credential it finds, if that requires one and nothing stands against it. */
  function AdaptMustStart(s: State, requiresRefresh: bool, now: real): Option<Credential> {
    if s.isRefreshing || !requiresRefresh || IsRefreshExcessive(s, now) then None else s.credential
  }

  /** `adapt` starts a refresh exactly when the credential that it finds under the lock requires one, and then of it. */
  lemma AdaptStarts(s: State, op: Completion, requiresRefresh: bool, t1: real, t2: real)
    ensures var s' := AdaptLocked(s, op, requiresRefresh, t1, t2).0;
            Started(s, s') == AdaptMustStart(s, requiresRefresh, t1) && Recorded(s, s', t2)
    ensures !s.isRefreshing && requiresRefresh ==> !AdaptLocked(s, op, requiresRefresh, t1, t2).1.Adapt?
  {
    assert IsRefreshExcessive(s.(adaptOperations := s.adaptOperations + [op]), t1) == IsRefreshExcessive(s, t1);
    hide IsRefreshExcessive;
    var waiting := s.(adaptOperations := s.adaptOperations + [op]);
    if !s.isRefreshing && s.credential.Some? {
      RefreshStarts(waiting, s.credential.value, t1, t2);
    }
    hide Refresh;
  }

  /** `retry` starts a refresh of the credential that it brings, unless one is outstanding or there were too many. */
  lemma RetryStarts(s: State, completion: Completion, c: Credential, t1: real, t2: real)
    ensures var s' := RetryLocked(s, completion, c, t1, t2);
            && Started(s, s') == (if s.isRefreshing || IsRefreshExcessive(s, t1) then None else Some(c))
            && Recorded(s, s', t2)
  {
    var waiting := s.(requestsToRetry := s.requestsToRetry + [completion]);
    if !s.isRefreshing {
      RefreshStarts(waiting, c, t1, t2);
    }
    hide Refresh;
  }

  lemma RunBlockStarts(s: System, requiresRefresh: bool, t1: real, t2: real)
    requires s.state.queue != []
    ensures var s' := QueueStep(s, requiresRefresh, t1, t2);
            && Started(s.state, s'.state) ==
               (if s.state.queue[0].Readapt? && s.state.queue[0].ops != [] then AdaptMustStart(s.state, requiresRefresh, t1) else None)
            && Recorded(s.state, s'.state, t2)
  {
    var b := s.state.queue[0];
    if b.Readapt? && b.ops != [] {
      assert IsRefreshExcessive(s.state.(queue := [Readapt(b.ops[1..], b.retries)] + s.state.queue[1..]), t1) == IsRefreshExcessive(s.state, t1);
      AdaptStarts(s.state.(queue := [Readapt(b.ops[1..], b.retries)] + s.state.queue[1..]), b.ops[0], requiresRefresh, t1, t2);
    }
    hide AdaptLocked;
  }

  /** What a step starts, and which credential it is of. */
  predicate StartsAsRead(s: System, e: Event)
    requires Enabled(s, e) && Tracked(s)
  {
    var started, trail := Started(s.state, Next(s, e).state), s.history.trail;
    && Recorded(s.state, Next(s, e).state, TimeOf(e))
    && match e
       case CallAdapt(_, requiresRefresh, t1, _) => started == AdaptMustStart(s.state, requiresRefresh, t1)
       case RunBlock(requiresRefresh, t1, _) =>
         started == if s.state.queue[0].Readapt? && s.state.queue[0].ops != [] then AdaptMustStart(s.state, requiresRefresh, t1) else None
       case LockRetry(k, t1, _) =>
         var p := s.pending[k];
         && (started == if s.state.isRefreshing || IsRefreshExcessive(s.state, t1) then None else Some(p.c))
         && (started.Some? ==> (started == s.state.credential <==> trail[|trail| - 1] == trail[p.readAt]))
         && (p.readAt == |trail| - 1 ==> s.state.credential == Some(p.c))
       case _ => started.None?
  }

  lemma StepStarts(s: System, e: Event)
    requires Tracked(s) && Enabled(s, e)
    ensures StartsAsRead(s, e)
  {
    match e {
      case CallAdapt(op, requiresRefresh, t1, t2) =>
        AdaptStarts(s.state, op, requiresRefresh, t1, t2);
        hide AdaptLocked;
      case RunBlock(requiresRefresh, t1, t2) =>
        RunBlockStarts(s, requiresRefresh, t1, t2);
        hide QueueStep;
      case LockRetry(k, t1, t2) =>
        assert s.pending[k] in s.pending;
        RetryStarts(s.state, s.pending[k].completion, s.pending[k].c, t1, t2);
        hide RetryLocked, IsRefreshExcessive;
      case _ =>
    }
  }

  /**
    In every run, `adapt`, called from outside or from a block, starts a refresh exactly when none is outstanding, the
    credential held requires one and there were not too many; and it is of that credential. One started by `retry` is of the credential that was read before the lock was taken: it is of the
    credential held exactly when that has the value read, as it has whenever it was not set in between. Nothing
    else starts a refresh.
   */
  lemma RefreshIsOfCredentialRead(c: Option<Credential>, w: Option<RefreshWindow>, now: real, es: seq<Event>, e: Event)
    requires Enabled(Run(Initial(c, w, now), es), e)
    ensures var s := Run(Initial(c, w, now), es);
            var started, trail := Started(s.state, Next(s, e).state), s.history.trail;
            && Recorded(s.state, Next(s, e).state, TimeOf(e))
            && (e.CallAdapt? ==> started == AdaptMustStart(s.state, e.requiresRefresh, e.checkTime))
            && (e.RunBlock? ==>
                  started == if s.state.queue[0].Readapt? && s.state.queue[0].ops != []
                             then AdaptMustStart(s.state, e.requiresRefresh, e.checkTime) else None)
            && (e.LockRetry? ==>
                  var p := s.pending[e.k];
                  && (started == if s.state.isRefreshing || IsRefreshExcessive(s.state, e.checkTime) then None else Some(p.c))
                  && p.readAt < |trail| && trail[p.readAt] == Some(p.c)
                  && (s.state.credential == Some(p.c) <==> trail[|trail| - 1] == trail[p.readAt])
                  && (p.readAt == |trail| - 1 ==> s.state.credential == Some(p.c)))
            && (!e.CallAdapt? && !e.RunBlock? && !e.LockRetry? ==> started.None?)
  {
    var s := Run(Initial(c, w, now), es);
    RunTracked(Initial(c, w, now), es);
    StepStarts(s, e);
    if e.LockRetry? { assert s.pending[e.k] in s.pending; }
    hide Run, Next, Started, Recorded, IsRefreshExcessive;
  }

  // ----- All refreshes of a run -----

  /** A refresh dispatched: its credential, how often the credential had been set when it was read and now, and the time. */
  datatype Dispatch = Dispatch(c: Credential, readAt: nat, at: nat, time: real)

  function DispatchOf(s: System, e: Event): seq<Dispatch>
    requires Enabled(s, e)
  {
    match Started(s.state, Next(s, e).state)
    case None => []
    case Some(c) => [Dispatch(c, if e.LockRetry? then s.pending[e.k].readAt else Now(s), Now(s), TimeOf(e))]
  }

  function Dispatches(s: System, es: seq<Event>): seq<Dispatch>
    decreases |es|
  {
    if es == [] then []
    else if !Enabled(s, es[0]) then Dispatches(s, es[1..])
    else DispatchOf(s, es[0]) + Dispatches(Next(s, es[0]), es[1..])
  }

  function Times(ds: seq<Dispatch>): (ts: seq<real>)
    ensures |ts| == |ds|
  {
    seq(|ds|, i requires 0 <= i < |ds| => ds[i].time)
  }

  /** The dispatch is of the value read; if that is not the value held, the credential was set in between. */
  predicate OfCredentialRead(trail: seq<Option<Credential>>, d: Dispatch) {
    && d.readAt <= d.at < |trail| && trail[d.readAt] == Some(d.c)
    && (trail[d.at] != Some(d.c) ==> d.readAt < d.at)
  }

  lemma StepDispatches(s: System, e: Event)
    requires Tracked(s) && Enabled(s, e)
    ensures forall d <- DispatchOf(s, e) :: OfCredentialRead(s.history.trail, d) && s.history.trail[d.at] == s.state.credential
    ensures Next(s, e).state.refreshTimestamps == s.state.refreshTimestamps + Times(DispatchOf(s, e))
  {
    StepStarts(s, e);
    if e.LockRetry? { assert s.pending[e.k] in s.pending; }
    hide Next, Started, IsRefreshExcessive;
  }

  lemma TimesJoin(xs: seq<Dispatch>, ys: seq<Dispatch>)
    ensures Times(xs + ys) == Times(xs) + Times(ys)
  {
  }

  lemma {:induction false} RunDispatches(s: System, es: seq<Event>)
    requires Tracked(s)
    ensures forall d <- Dispatches(s, es) :: OfCredentialRead(Run(s, es).history.trail, d)
    ensures Run(s, es).state.refreshTimestamps == s.state.refreshTimestamps + Times(Dispatches(s, es))
    decreases |es|
  {
    if es != [] {
      hide Tracked, Next, Enabled, DispatchOf;
      if Enabled(s, es[0]) {
        StepDispatches(s, es[0]);
        StepTracked(s, es[0]);
        RunTracked(s, es);
        RunDispatches(Next(s, es[0]), es[1..]);
        TimesJoin(DispatchOf(s, es[0]), Dispatches(Next(s, es[0]), es[1..]));
      } else {
        RunDispatches(s, es[1..]);
      }
    }
  }

  /**
    In every run, each recorded timestamp is that of one refresh dispatched, and each is of a value that the
    credential had when it was read, at or before the dispatch.
   */
  lemma DispatchesAreOfCredentialsRead(c: Option<Credential>, w: Option<RefreshWindow>, now: real, es: seq<Event>)
    ensures var s := Run(Initial(c, w, now), es); var ds := Dispatches(Initial(c, w, now), es);
            s.state.refreshTimestamps == Times(ds) && forall d <- ds :: OfCredentialRead(s.history.trail, d)
  {
    RunDispatches(Initial(c, w, now), es);
    hide Run, Dispatches, OfCredentialRead;
  }

  /**
    One refresh at a time does not mean one refresh per credential: a credential already replaced is refreshed
    when it is replaced between a thread's reading it and its taking the lock.
   */
  lemma ReplacedCredentialRefreshed(stale: Credential, newer: Credential, t: real)
    requires stale != newer
    ensures exists es, e :: var s := Run(Initial(Some(stale), None, t), es);
              && Enabled(s, e) && s.state.credential == Some(newer)
              && CallRefresh(stale) !in s.state.queue && CallRefresh(stale) in Next(s, e).state.queue
  {
    var s0 := Initial(Some(stale), None, t);
    var read, replace := CallRetry(0, RetryFacts(true, true, true)), SetCredential(Some(newer));
    var s1 := Next(s0, read);
    assert s1.pending == [RetryWaiting(0, stale, 0)];
    var s2 := Next(s1, replace);
    var es, e := [read, replace], LockRetry(0, t, t);
    assert es[1..] == [replace] && [replace][1..] == [];
    assert Run(s0, es) == Run(s1, [replace]) == Run(s2, []) == s2;
    assert Next(s2, e).state.queue == [CallRefresh(stale)];
  }
}

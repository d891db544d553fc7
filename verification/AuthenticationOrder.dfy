/** First come, first served: operations and retries that wait for a refresh leave in the order in which they came. */
module AuthenticationOrder {
  import opened Options
  import opened Authentication
  import opened AuthenticationRuns

  // ----- What comes and what leaves -----

  /** The retry that an event makes wait: the one that takes the lock. */
  function RetryEnters(s: System, e: Event): seq<Completion>
    requires Enabled(s, e)
  {
    if e.LockRetry? then [s.pending[e.k].completion] else []
  }

  /** The retry that a block calls. */
  function RetryLeaves(s: System, e: Event): seq<Completion>
    requires Enabled(s, e)
  {
    if e.RunBlock? && !s.state.queue[0].CallRefresh? && s.state.queue[0].ops == [] && s.state.queue[0].retries != [] then
      [s.state.queue[0].retries[0]]
    else []
  }

  /** `adapt` makes an operation wait while a refresh is outstanding, and when the credential requires one. */
  predicate Waits(s: State, requiresRefresh: bool) {
    s.isRefreshing || (s.credential.Some? && requiresRefresh)
  }

  /** The operation that an event makes wait, called from outside or again from a block. */
  function OperationEnters(s: System, e: Event): seq<Completion>
    requires Enabled(s, e)
  {
    if e.CallAdapt? && Waits(s.state, e.requiresRefresh) then [e.op]
    else if e.RunBlock? && s.state.queue[0].Readapt? && s.state.queue[0].ops != [] && Waits(s.state, e.requiresRefresh) then
      [s.state.queue[0].ops[0]]
    else []
  }

  /** The operation that a block adapts again or fails. */
  function OperationLeaves(s: System, e: Event): seq<Completion>
    requires Enabled(s, e)
  {
    if e.RunBlock? && !s.state.queue[0].CallRefresh? && s.state.queue[0].ops != [] then [s.state.queue[0].ops[0]] else []
  }

  /** What has come and left, in order. */
  datatype Traffic = Traffic(retriesCame: seq<Completion>, retriesLeft: seq<Completion>,
                             operationsCame: seq<Completion>, operationsLeft: seq<Completion>)

  function TrafficOf(s: System, es: seq<Event>): Traffic
    decreases |es|
  {
    if es == [] then Traffic([], [], [], [])
    else if !Enabled(s, es[0]) then TrafficOf(s, es[1..])
    else
      var t := TrafficOf(Next(s, es[0]), es[1..]);
      Traffic(RetryEnters(s, es[0]) + t.retriesCame, RetryLeaves(s, es[0]) + t.retriesLeft,
              OperationEnters(s, es[0]) + t.operationsCame, OperationLeaves(s, es[0]) + t.operationsLeft)
  }

  // ----- What waits -----

  function RetriesIn(q: seq<Block>): seq<Completion> {
    if q == [] then [] else RetriesOf(q[0]) + RetriesIn(q[1..])
  }

  function OperationsIn(q: seq<Block>): seq<Completion> {
    if q == [] then [] else OperationsOf(q[0]) + OperationsIn(q[1..])
  }

  /** In the order in which they will leave: those in dispatched blocks, then those waiting for the refresh. */
  function RetriesWaiting(s: State): seq<Completion> {
    RetriesIn(s.queue) + s.requestsToRetry
  }

  function OperationsWaiting(s: State): seq<Completion> {
    OperationsIn(s.queue) + s.adaptOperations
  }

  function RetriesOf(b: Block): seq<Completion> {
    if b.CallRefresh? then [] else b.retries
  }

  function OperationsOf(b: Block): seq<Completion> {
    if b.CallRefresh? then [] else b.ops
  }

  lemma {:induction false} QueueHoldsMore(q: seq<Block>, b: Block)
    ensures RetriesIn(q + [b]) == RetriesIn(q) + RetriesOf(b)
    ensures OperationsIn(q + [b]) == OperationsIn(q) + OperationsOf(b)
  {
    if q == [] {
      assert [] + [b] == [b];
      HeadHolds(b, []);
      NothingHeld(q, b);
    } else {
      assert q + [b] == [q[0]] + (q[1..] + [b]) && q == [q[0]] + q[1..];
      HeadHolds(q[0], q[1..] + [b]);
      HeadHolds(q[0], q[1..]);
      QueueHoldsMore(q[1..], b);
      hide RetriesIn, OperationsIn, RetriesOf, OperationsOf;
      Regroup(RetriesOf(q[0]), RetriesIn(q[1..]), RetriesOf(b));
      Regroup(OperationsOf(q[0]), OperationsIn(q[1..]), OperationsOf(b));
    }
  }

  lemma NothingHeld(none: seq<Block>, b: Block)
    requires none == []
    ensures RetriesIn(none) == [] && OperationsIn(none) == []
    ensures RetriesOf(b) + [] == RetriesOf(b) == [] + RetriesOf(b)
    ensures OperationsOf(b) + [] == OperationsOf(b) == [] + OperationsOf(b)
  {
  }

  lemma Regroup<T>(a: seq<T>, b: seq<T>, c: seq<T>)
    ensures a + (b + c) == a + b + c
  {
  }

  lemma HeadHolds(b: Block, rest: seq<Block>)
    ensures RetriesIn([b] + rest) == RetriesOf(b) + RetriesIn(rest)
    ensures OperationsIn([b] + rest) == OperationsOf(b) + OperationsIn(rest)
  {
    assert ([b] + rest)[1..] == rest;
  }

  lemma RefreshKeepsOrder(s: State, c: Credential, t1: real, t2: real)
    ensures var s' := Refresh(s, c, t1, t2);
            RetriesWaiting(s') == RetriesWaiting(s) && OperationsWaiting(s') == OperationsWaiting(s)
  {
    QueueHoldsMore(s.queue, CallRefresh(c));
    QueueHoldsMore(s.queue, FailAll(ExcessiveRefresh, s.adaptOperations, s.requestsToRetry));
    hide IsRefreshExcessive, RetriesIn, OperationsIn;
  }

  lemma AdaptKeepsOrder(s: State, op: Completion, requiresRefresh: bool, t1: real, t2: real)
    ensures var s' := AdaptLocked(s, op, requiresRefresh, t1, t2).0;
            && RetriesWaiting(s') == RetriesWaiting(s)
            && OperationsWaiting(s') == OperationsWaiting(s) + (if Waits(s, requiresRefresh) then [op] else [])
  {
    var waiting := s.(adaptOperations := s.adaptOperations + [op]);
    assert OperationsWaiting(waiting) == OperationsWaiting(s) + [op];
    if s.credential.Some? { RefreshKeepsOrder(waiting, s.credential.value, t1, t2); }
    hide Refresh, RetriesIn, OperationsIn;
  }

  lemma RetryKeepsOrder(s: State, completion: Completion, c: Credential, t1: real, t2: real)
    ensures var s' := RetryLocked(s, completion, c, t1, t2);
            RetriesWaiting(s') == RetriesWaiting(s) + [completion] && OperationsWaiting(s') == OperationsWaiting(s)
  {
    var waiting := s.(requestsToRetry := s.requestsToRetry + [completion]);
    assert RetriesWaiting(waiting) == RetriesWaiting(s) + [completion];
    RefreshKeepsOrder(waiting, c, t1, t2);
    hide Refresh, RetriesIn, OperationsIn;
  }

  // ----- Steps -----

  /** What waited and what came is what left and what waits, in that order. */
  predicate InTurn(s: System, e: Event)
    requires Enabled(s, e)
  {
    var s' := Next(s, e);
    && RetriesWaiting(s.state) + RetryEnters(s, e) == RetryLeaves(s, e) + RetriesWaiting(s'.state)
    && OperationsWaiting(s.state) + OperationEnters(s, e) == OperationLeaves(s, e) + OperationsWaiting(s'.state)
  }

  lemma RunBlockInTurn(s: System, e: Event)
    requires e.RunBlock? && Enabled(s, e)
    ensures InTurn(s, e)
  {
    var b, rest := s.state.queue[0], s.state.queue[1..];
    if b.CallRefresh? {
      CallInTurn(s, e, rest);
    } else if b.ops != [] {
      if b.Readapt? { OperationInTurn(s, e, b.retries, rest); } else { FailureInTurn(s, e, rest); }
    } else {
      RetryInTurn(s, e, rest);
    }
    hide InTurn;
  }

  lemma CallInTurn(s: System, e: Event, rest: seq<Block>)
    requires e.RunBlock? && Enabled(s, e) && s.state.queue != [] && s.state.queue[0].CallRefresh? && rest == s.state.queue[1..]
    ensures InTurn(s, e)
  {
    assert s.state.queue == [s.state.queue[0]] + rest;
    HeadHolds(s.state.queue[0], rest);
    hide RetriesIn, OperationsIn;
    assert [] + RetriesIn(rest) == RetriesIn(rest) && [] + OperationsIn(rest) == OperationsIn(rest);
  }

  lemma RetryInTurn(s: System, e: Event, rest: seq<Block>)
    requires e.RunBlock? && Enabled(s, e) && s.state.queue != [] && rest == s.state.queue[1..]
    requires !s.state.queue[0].CallRefresh? && s.state.queue[0].ops == []
    ensures InTurn(s, e)
  {
    var b := s.state.queue[0];
    var left := if b.retries == [] then [] else b.retries[1..];
    var head := if b.Readapt? then Readapt([], left) else FailAll(b.e, [], left);
    assert s.state.queue == [b] + rest;
    HeadHolds(b, rest);
    HeadHolds(head, rest);
    assert Next(s, e).state == s.state.(queue := if b.retries == [] then rest else [head] + rest);
    hide RetriesIn, OperationsIn, Next;
    assert [] + OperationsIn(rest) == OperationsIn(rest) && [] + RetriesIn(rest) == RetriesIn(rest);
    if b.retries != [] { Rejoin(b.retries, RetriesIn(rest), s.state.requestsToRetry); }
  }

  lemma Rejoin<T>(xs: seq<T>, ys: seq<T>, zs: seq<T>)
    requires xs != []
    ensures xs + ys + zs == [xs[0]] + (xs[1..] + ys + zs)
  {
  }

  lemma FailureInTurn(s: System, e: Event, rest: seq<Block>)
    requires e.RunBlock? && Enabled(s, e) && s.state.queue != [] && s.state.queue[0].FailAll? && s.state.queue[0].ops != []
    requires rest == s.state.queue[1..]
    ensures InTurn(s, e)
  {
    var b := s.state.queue[0];
    assert s.state.queue == [b] + rest;
    HeadHolds(b, rest);
    HeadHolds(FailAll(b.e, b.ops[1..], b.retries), rest);
    hide RetriesIn, OperationsIn;
    Rejoin(b.ops, OperationsIn(rest), s.state.adaptOperations);
  }

  lemma OperationInTurn(s: System, e: Event, retries: seq<Completion>, rest: seq<Block>)
    requires e.RunBlock? && Enabled(s, e) && s.state.queue != [] && s.state.queue[0].Readapt? && s.state.queue[0].ops != []
    requires rest == s.state.queue[1..] && retries == s.state.queue[0].retries
    ensures InTurn(s, e)
  {
    var ops := s.state.queue[0].ops;
    assert s.state.queue == [Readapt(ops, retries)] + rest;
    HeadHolds(Readapt(ops, retries), rest);
    HeadHolds(Readapt(ops[1..], retries), rest);
    var left := s.state.(queue := [Readapt(ops[1..], retries)] + rest);
    AdaptKeepsOrder(left, ops[0], e.requiresRefresh, e.checkTime, e.recordTime);
    assert Next(s, e).state == AdaptLocked(left, ops[0], e.requiresRefresh, e.checkTime, e.recordTime).0;
    hide AdaptLocked, RetriesIn, OperationsIn, Next;
    Rejoin(ops, OperationsIn(rest), s.state.adaptOperations);
    assert OperationsWaiting(s.state) == [ops[0]] + OperationsWaiting(left);
    assert [ops[0]] + OperationsWaiting(left) + OperationEnters(s, e) == [ops[0]] + (OperationsWaiting(left) + OperationEnters(s, e));
    assert RetriesWaiting(s.state) + [] == [] + RetriesWaiting(left);
  }

  lemma StepInTurn(s: System, e: Event)
    requires Enabled(s, e)
    ensures InTurn(s, e)
  {
    match e {
      case CallAdapt(op, requiresRefresh, t1, t2) =>
        AdaptKeepsOrder(s.state, op, requiresRefresh, t1, t2);
        hide AdaptLocked, RetriesWaiting, OperationsWaiting;
      case LockRetry(k, t1, t2) =>
        RetryKeepsOrder(s.state, s.pending[k].completion, s.pending[k].c, t1, t2);
        hide RetryLocked, RetriesWaiting, OperationsWaiting;
      case RunBlock(_, _, _) => RunBlockInTurn(s, e);
      case AnswerRefresh(Refreshed(_)) =>
        QueueHoldsMore(s.state.queue, Readapt(s.state.adaptOperations, s.state.requestsToRetry));
        hide RetriesIn, OperationsIn;
      case AnswerRefresh(NotRefreshed(code)) =>
        QueueHoldsMore(s.state.queue, FailAll(RefreshFailed(code), s.state.adaptOperations, s.state.requestsToRetry));
        hide RetriesIn, OperationsIn;
      case CallRetry(_, _) => hide RetriesIn, OperationsIn;
      case ReturnAdapt(_) => hide RetriesIn, OperationsIn;
      case SetCredential(_) => hide RetriesIn, OperationsIn;
    }
  }

  // ----- Runs -----

  lemma {:induction false} RunInTurn(s: System, es: seq<Event>)
    ensures var t, s' := TrafficOf(s, es), Run(s, es);
            && RetriesWaiting(s.state) + t.retriesCame == t.retriesLeft + RetriesWaiting(s'.state)
            && OperationsWaiting(s.state) + t.operationsCame == t.operationsLeft + OperationsWaiting(s'.state)
    decreases |es|
  {
    hide Next, Enabled, RetriesWaiting, OperationsWaiting, RetryEnters, RetryLeaves, OperationEnters, OperationLeaves;
    if es == [] {
      assert RetriesWaiting(s.state) + [] == [] + RetriesWaiting(s.state);
      assert OperationsWaiting(s.state) + [] == [] + OperationsWaiting(s.state);
    } else if Enabled(s, es[0]) {
      var n := Next(s, es[0]);
      StepInTurn(s, es[0]);
      RunInTurn(n, es[1..]);
      var t, s' := TrafficOf(n, es[1..]), Run(n, es[1..]);
      Chain(RetriesWaiting(s.state), RetryEnters(s, es[0]), RetryLeaves(s, es[0]), RetriesWaiting(n.state),
            t.retriesCame, t.retriesLeft, RetriesWaiting(s'.state));
      Chain(OperationsWaiting(s.state), OperationEnters(s, es[0]), OperationLeaves(s, es[0]), OperationsWaiting(n.state),
            t.operationsCame, t.operationsLeft, OperationsWaiting(s'.state));
    } else {
      RunInTurn(s, es[1..]);
    }
  }

  lemma Chain<T>(w: seq<T>, came: seq<T>, left: seq<T>, w': seq<T>, came': seq<T>, left': seq<T>, w'': seq<T>)
    requires w + came == left + w' && w' + came' == left' + w''
    ensures w + (came + came') == left + left' + w''
  {
    assert w + (came + came') == w + came + came';
    assert left + w' + came' == left + (w' + came');
    assert left + (left' + w'') == left + left' + w'';
  }

  /**
    In every run, the retries called by blocks, then those in blocks, then those waiting for the refresh, are those that
    took the lock, in that order; and so for the operations that had to wait.
   */
  lemma FirstComeFirstServed(c: Option<Credential>, w: Option<RefreshWindow>, now: real, es: seq<Event>)
    ensures var s, t := Run(Initial(c, w, now), es), TrafficOf(Initial(c, w, now), es);
            && t.retriesCame == t.retriesLeft + (RetriesIn(s.state.queue) + s.state.requestsToRetry)
            && t.operationsCame == t.operationsLeft + (OperationsIn(s.state.queue) + s.state.adaptOperations)
  {
    RunInTurn(Initial(c, w, now), es);
    assert RetriesWaiting(Initial(c, w, now).state) == [] && OperationsWaiting(Initial(c, w, now).state) == [];
    var t := TrafficOf(Initial(c, w, now), es);
    assert [] + t.retriesCame == t.retriesCame && [] + t.operationsCame == t.operationsCame;
    hide Run, TrafficOf, RetriesIn, OperationsIn;
  }
}

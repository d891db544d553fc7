/**
  Which answer each completion of the refresh protocol gets, and what decides it: the decisions of a run, told by
  what each event finds, are exactly the answers given and still owed.
 */
module AuthenticationDecisions {
  import opened Options
  import opened Authentication
  import opened AuthenticationRuns

  type Decision = (Completion, Answer)

  /** Each of the completions with the answer. */
  function AllTold(cs: seq<Completion>, a: Answer): (ds: seq<Decision>)
    ensures |ds| == |cs|
  {
    seq(|cs|, i requires 0 <= i < |cs| => (cs[i], a))
  }

  /** Operations and retries that fail with an error. */
  function AllFailed(e: AuthError, ops: seq<Completion>, retries: seq<Completion>): seq<Decision> {
    AllTold(ops, AdaptFailed(e)) + AllTold(retries, DoNotRetryWithError(e))
  }

  // ----- What each event decides -----

  /** As many refreshes as the window allows lie in the interval that ends now. */
  predicate TooMany(s: State, now: real) {
    match s.refreshWindow
    case None => false
    case Some(w) => |AttemptsSince(s.refreshTimestamps, now - w.interval)| >= w.maximumAttempts
  }

  function AttemptsSince(ts: seq<real>, since: real): set<nat> {
    set i | 0 <= i < |ts| && ts[i] >= since
  }

  /** `adapt` in its lock section, called from outside or from a block. */
  function AdaptDecides(s: State, op: Completion, requiresRefresh: bool, now: real): seq<Decision> {
    if s.isRefreshing then []
    else if s.credential.None? then [(op, AdaptFailed(MissingCredential))]
    else if !requiresRefresh then [(op, Adapted(s.credential.value))]
    else if TooMany(s, now) then AllFailed(ExcessiveRefresh, s.adaptOperations + [op], s.requestsToRetry)
    else []
  }

  /** `retry` before its lock section. */
  function RetryDecides(credential: Option<Credential>, completion: Completion, facts: RetryFacts): seq<Decision> {
    if !facts.hasResponse then [(completion, DoNotRetry)]
    else if !facts.authenticationFailed then [(completion, DoNotRetry)]
    else if credential.None? then [(completion, DoNotRetryWithError(MissingCredential))]
    else if !facts.sameCredential then [(completion, Retry)]
    else []
  }

  /** The completions whose answer an event decides, with those answers. */
  function Decided(s: System, e: Event): seq<Decision>
    requires Enabled(s, e)
  {
    match e
    case CallAdapt(op, requiresRefresh, t, _) => AdaptDecides(s.state, op, requiresRefresh, t)
    case CallRetry(completion, facts) => RetryDecides(s.state.credential, completion, facts)
    case LockRetry(k, t, _) =>
      if !s.state.isRefreshing && TooMany(s.state, t) then
        AllFailed(ExcessiveRefresh, s.state.adaptOperations, s.state.requestsToRetry + [s.pending[k].completion])
      else []
    case RunBlock(requiresRefresh, t, _) =>
      if s.state.queue[0].Readapt? && s.state.queue[0].ops != [] then
        AdaptDecides(s.state, s.state.queue[0].ops[0], requiresRefresh, t)
      else []
    case AnswerRefresh(Refreshed(_)) => AllTold(s.state.requestsToRetry, Retry)
    case AnswerRefresh(NotRefreshed(code)) =>
      AllFailed(RefreshFailed(code), s.state.adaptOperations, s.state.requestsToRetry)
    case ReturnAdapt(_) => []
    case SetCredential(_) => []
  }

  function Decisions(s: System, es: seq<Event>): seq<Decision>
    decreases |es|
  {
    if es == [] then []
    else if !Enabled(s, es[0]) then Decisions(s, es[1..])
    else Decided(s, es[0]) + Decisions(Next(s, es[0]), es[1..])
  }

  // ----- Answers decided and not yet given -----

  function OwedByBlock(b: Block): multiset<Decision> {
    match b
    case CallRefresh(_) => multiset{}
    case Readapt(_, retries) => multiset(AllTold(retries, Retry))
    case FailAll(e, ops, retries) => multiset(AllFailed(e, ops, retries))
  }

  function OwedByQueue(q: seq<Block>): multiset<Decision> {
    if q == [] then multiset{} else OwedByBlock(q[0]) + OwedByQueue(q[1..])
  }

  function OwedBy(ps: seq<Pending>): multiset<Decision> {
    if ps == [] then multiset{}
    else OwedByOne(ps[0]) + OwedBy(ps[1..])
  }

  function OwedByOne(p: Pending): multiset<Decision> {
    if p.AdaptReturned? then multiset{(p.completion, p.answer)} else multiset{}
  }

  function Owed(s: System): multiset<Decision> {
    OwedByQueue(s.state.queue) + OwedBy(s.pending)
  }

  // ----- How often a refresh was attempted -----

  lemma {:induction false} AttemptsCounted(ts: seq<real>, since: real)
    ensures CountSince(ts, since) == |AttemptsSince(ts, since)|
  {
    if ts == [] {
      assert AttemptsSince(ts, since) == {};
    } else {
      var n := |ts| - 1;
      AttemptsCounted(ts[..n], since);
      assert AttemptsSince(ts, since) == AttemptsSince(ts[..n], since) + (if ts[n] >= since then {n} else {});
    }
  }

  /** A refresh is refused exactly when the window already holds as many as it allows. */
  lemma ExcessiveExactly(s: State, now: real)
    ensures IsRefreshExcessive(s, now) <==> TooMany(s, now)
  {
    if s.refreshWindow.Some? { AttemptsCounted(s.refreshTimestamps, now - s.refreshWindow.value.interval); }
    hide CountSince, AttemptsSince;
  }

  // ----- Multisets of decisions -----

  lemma {:induction false} QueueOwesMore(q: seq<Block>, b: Block)
    ensures OwedByQueue(q + [b]) == OwedByQueue(q) + OwedByBlock(b)
  {
    hide OwedByBlock;
    if q == [] {
      assert [] + [b] == [b] && [b][1..] == [];
    } else {
      assert (q + [b])[0] == q[0] && (q + [b])[1..] == q[1..] + [b];
      QueueOwesMore(q[1..], b);
    }
  }

  lemma HeadOwes(b: Block, rest: seq<Block>)
    ensures OwedByQueue([b] + rest) == OwedByBlock(b) + OwedByQueue(rest)
  {
    assert ([b] + rest)[1..] == rest;
    hide OwedByBlock;
  }

  lemma {:induction false} PendingOweBoth(ps: seq<Pending>, qs: seq<Pending>)
    ensures OwedBy(ps + qs) == OwedBy(ps) + OwedBy(qs)
  {
    if ps == [] {
      assert ps + qs == qs;
    } else {
      assert (ps + qs)[0] == ps[0] && (ps + qs)[1..] == ps[1..] + qs;
      PendingOweBoth(ps[1..], qs);
    }
  }

  lemma OneOwes(p: Pending)
    ensures OwedBy([p]) == OwedByOne(p)
  {
    assert [p][1..] == [];
    assert OwedBy([]) == multiset{};
  }

  lemma {:induction false} PendingWithout(ps: seq<Pending>, k: nat)
    requires k < |ps|
    ensures OwedBy(ps) == OwedBy(RemoveAt(ps, k)) + OwedByOne(ps[k])
  {
    hide OwedByOne;
    if k == 0 {
      assert RemoveAt(ps, k) == ps[1..];
      Commute(OwedByOne(ps[0]), OwedBy(ps[1..]));
    } else {
      var rest, left := ps[1..], RemoveAt(ps[1..], k - 1);
      PendingWithout(rest, k - 1);
      assert RemoveAt(ps, k) == [ps[0]] + left;
      FirstOwes(ps[0], left);
      FirstOwes(ps[0], rest);
      assert ps == [ps[0]] + rest;
      hide OwedBy, RemoveAt;
      Regroup(OwedByOne(ps[0]), OwedBy(left), OwedByOne(ps[k]));
    }
  }

  lemma FirstOwes(p: Pending, ps: seq<Pending>)
    ensures OwedBy([p] + ps) == OwedByOne(p) + OwedBy(ps)
  {
    assert ([p] + ps)[0] == p && ([p] + ps)[1..] == ps;
  }

  lemma Commute<T>(a: multiset<T>, b: multiset<T>)
    ensures a + b == b + a
  {
  }

  lemma Regroup<T>(a: multiset<T>, b: multiset<T>, c: multiset<T>)
    ensures a + (b + c) == a + b + c
  {
  }

  lemma NothingMore<T>(a: multiset<T>)
    ensures a + multiset{} == a == multiset{} + a
  {
  }

  /** One more answer is told. */
  lemma OneTold(answered: seq<Decision>, d: Decision)
    ensures multiset(answered + [d]) == multiset(answered) + multiset{d} && multiset([d]) == multiset{d}
  {
  }

  lemma FirstTold(cs: seq<Completion>, a: Answer)
    requires cs != []
    ensures multiset(AllTold(cs, a)) == multiset{(cs[0], a)} + multiset(AllTold(cs[1..], a))
  {
    assert AllTold(cs, a) == [(cs[0], a)] + AllTold(cs[1..], a);
    hide AllTold;
  }

  lemma NoneTold(none: seq<Completion>, a: Answer)
    requires none == []
    ensures AllTold(none, a) == []
  {
  }

  lemma FirstFailed(e: AuthError, ops: seq<Completion>, retries: seq<Completion>)
    ensures ops != [] ==>
              multiset(AllFailed(e, ops, retries)) ==
              multiset{(ops[0], AdaptFailed(e))} + multiset(AllFailed(e, ops[1..], retries))
    ensures ops == [] && retries != [] ==>
              multiset(AllFailed(e, ops, retries)) ==
              multiset{(retries[0], DoNotRetryWithError(e))} + multiset(AllFailed(e, [], retries[1..]))
    ensures AllFailed(e, [], []) == []
  {
    NoneTold([], AdaptFailed(e));
    NoneTold([], DoNotRetryWithError(e));
    if ops != [] {
      FirstTold(ops, AdaptFailed(e));
    } else if retries != [] {
      NoneTold(ops, AdaptFailed(e));
      FirstTold(retries, DoNotRetryWithError(e));
    }
    hide AllTold;
  }

  // ----- Lock sections -----

  /** What the lock section of `adapt` leaves owing, and what it hands back. */
  lemma AdaptOwes(s: State, op: Completion, requiresRefresh: bool, t1: real, t2: real)
    ensures var (s', r) := AdaptLocked(s, op, requiresRefresh, t1, t2);
            OwedByQueue(s'.queue) + OwedBy(Returned(op, r))
            == OwedByQueue(s.queue) + multiset(AdaptDecides(s, op, requiresRefresh, t1))
  {
    hide OwedByQueue, OwedBy, IsRefreshExcessive, AllFailed, AttemptsSince;
    NothingMore(OwedByQueue(s.queue));
    NothingOwed();
    if !s.isRefreshing {
      match s.credential {
        case None => OneOwes(AdaptReturned(op, AdaptFailed(MissingCredential)));
        case Some(c) =>
          if requiresRefresh {
            AdaptRefreshOwes(s, op, c, t1, t2);
            hide Refresh, TooMany;
            NothingMore(OwedByQueue(Refresh(s.(adaptOperations := s.adaptOperations + [op]), c, t1, t2).queue));
          } else {
            OneOwes(AdaptReturned(op, Adapted(c)));
          }
      }
    }
  }

  lemma NothingOwed()
    ensures OwedBy([]) == multiset{}
  {
  }

  lemma AdaptRefreshOwes(s: State, op: Completion, c: Credential, t1: real, t2: real)
    ensures OwedByQueue(Refresh(s.(adaptOperations := s.adaptOperations + [op]), c, t1, t2).queue) == OwedByQueue(s.queue) +
            multiset(if TooMany(s, t1) then AllFailed(ExcessiveRefresh, s.adaptOperations + [op], s.requestsToRetry) else [])
  {
    var waiting := s.(adaptOperations := s.adaptOperations + [op]);
    ExcessiveExactly(waiting, t1);
    QueueOwesMore(s.queue, FailAll(ExcessiveRefresh, waiting.adaptOperations, s.requestsToRetry));
    QueueOwesMore(s.queue, CallRefresh(c));
    hide OwedByQueue, IsRefreshExcessive, AllFailed, AttemptsSince;
  }

  lemma RetryOwes(s: State, completion: Completion, c: Credential, t1: real, t2: real)
    ensures OwedByQueue(RetryLocked(s, completion, c, t1, t2).queue) == OwedByQueue(s.queue) +
            multiset(if !s.isRefreshing && TooMany(s, t1) then
                       AllFailed(ExcessiveRefresh, s.adaptOperations, s.requestsToRetry + [completion])
                     else [])
  {
    var waiting := s.(requestsToRetry := s.requestsToRetry + [completion]);
    ExcessiveExactly(waiting, t1);
    QueueOwesMore(s.queue, FailAll(ExcessiveRefresh, s.adaptOperations, waiting.requestsToRetry));
    QueueOwesMore(s.queue, CallRefresh(c));
    hide OwedByQueue, IsRefreshExcessive, AllFailed, AttemptsSince;
  }

  // ----- Steps -----

  /** What was decided before and by the event is what has been told and is owed after it. */
  predicate Settles(s: System, e: Event)
    requires Enabled(s, e)
  {
    var s' := Next(s, e);
    multiset(s.answered) + Owed(s) + multiset(Decided(s, e)) == multiset(s'.answered) + Owed(s')
  }

  lemma CallAdaptSettles(s: System, e: Event)
    requires e.CallAdapt? && Enabled(s, e)
    ensures Settles(s, e)
  {
    AdaptOwes(s.state, e.op, e.requiresRefresh, e.checkTime, e.recordTime);
    var (state, r) := AdaptLocked(s.state, e.op, e.requiresRefresh, e.checkTime, e.recordTime);
    PendingOweBoth(s.pending, Returned(e.op, r));
    hide AdaptLocked, OwedByQueue, OwedBy, AdaptDecides, Returned;
    Exchange(multiset(s.answered), OwedByQueue(s.state.queue), OwedBy(s.pending), multiset(Decided(s, e)),
             OwedByQueue(state.queue), OwedBy(Returned(e.op, r)));
  }

  lemma ReturnAdaptSettles(s: System, e: Event)
    requires e.ReturnAdapt? && Enabled(s, e)
    ensures Settles(s, e)
  {
    PendingWithout(s.pending, e.k);
    hide OwedByQueue, OwedBy, RemoveAt;
  }

  lemma CallRetrySettles(s: System, e: Event)
    requires e.CallRetry? && Enabled(s, e)
    ensures Settles(s, e)
  {
    hide OwedByQueue, OwedBy, Now, Run;
    var ds := RetryDecides(s.state.credential, e.completion, e.facts);
    if ds == [] {
      var p := RetryWaiting(e.completion, s.state.credential.value, Now(s));
      assert Next(s, e).pending == s.pending + [p] && Next(s, e).answered == s.answered && Next(s, e).state == s.state;
      hide Next, RetryDecides;
      PendingOweBoth(s.pending, [p]);
      OneOwes(p);
      NothingMore(OwedBy(s.pending));
      NothingMore(multiset(s.answered) + Owed(s));
    } else {
      assert Next(s, e).pending == s.pending && Next(s, e).answered == s.answered + [ds[0]] && Next(s, e).state == s.state;
      assert ds == [ds[0]];
      hide Next, RetryDecides;
      OneTold(s.answered, ds[0]);
      Later(multiset(s.answered), Owed(s), multiset{ds[0]});
    }
  }

  lemma Later<T>(a: multiset<T>, b: multiset<T>, c: multiset<T>)
    ensures a + b + c == a + c + b
  {
  }

  lemma LockRetrySettles(s: System, e: Event)
    requires e.LockRetry? && Enabled(s, e)
    ensures Settles(s, e)
  {
    var p := s.pending[e.k];
    PendingWithout(s.pending, e.k);
    RetryOwes(s.state, p.completion, p.c, e.checkTime, e.recordTime);
    hide OwedByQueue, OwedBy, RemoveAt, RetryLocked, TooMany, AllFailed;
    var state, left := RetryLocked(s.state, p.completion, p.c, e.checkTime, e.recordTime), RemoveAt(s.pending, e.k);
    assert Next(s, e).state == state && Next(s, e).pending == left && Next(s, e).answered == s.answered;
    assert OwedByQueue(state.queue) == OwedByQueue(s.state.queue) + multiset(Decided(s, e));
    hide Next, Decided;
    NothingMore(OwedBy(left));
    NothingMore(OwedByQueue(state.queue));
    Exchange(multiset(s.answered), OwedByQueue(s.state.queue), OwedBy(left), multiset(Decided(s, e)),
             OwedByQueue(state.queue), multiset{});
  }

  lemma AnswerRefreshSettles(s: System, e: Event)
    requires e.AnswerRefresh? && Enabled(s, e)
    ensures Settles(s, e)
  {
    var b := match e.result
             case Refreshed(_) => Readapt(s.state.adaptOperations, s.state.requestsToRetry)
             case NotRefreshed(code) => FailAll(RefreshFailed(code), s.state.adaptOperations, s.state.requestsToRetry);
    QueueOwesMore(s.state.queue, b);
    assert OwedByBlock(b) == multiset(Decided(s, e));
    assert Next(s, e).state.queue == s.state.queue + [b];
    hide OwedByQueue, OwedBy, AllFailed, AllTold, OwedByBlock, Decided;
    NothingMore(OwedBy(s.pending));
    Exchange(multiset(s.answered), OwedByQueue(s.state.queue), OwedBy(s.pending), multiset(Decided(s, e)),
             OwedByQueue(s.state.queue + [b]), multiset{});
  }

  lemma RunBlockSettles(s: System, e: Event)
    requires e.RunBlock? && Enabled(s, e)
    ensures Settles(s, e)
  {
    var b, rest := s.state.queue[0], s.state.queue[1..];
    assert s.state.queue == [b] + rest;
    hide Next, Decided, Owed, OwedByQueue, OwedBy;
    match b {
      case CallRefresh(_) => CallSettles(s, e, b, rest);
      case Readapt(ops, retries) =>
        if ops != [] { OperationSettles(s, e, ops, retries, rest); } else { RetriesSettle(s, e, retries, rest); }
      case FailAll(error, ops, retries) => FailAllSettles(s, e, error, ops, retries, rest);
    }
  }

  lemma CallSettles(s: System, e: Event, b: Block, rest: seq<Block>)
    requires e.RunBlock? && Enabled(s, e) && s.state.queue == [b] + rest && b.CallRefresh?
    ensures Settles(s, e)
  {
    assert s.state.queue[1..] == rest;
    HeadOwes(b, rest);
    hide OwedByQueue, OwedBy;
    NothingMore(OwedByQueue(rest));
    NothingMore(multiset(s.answered) + Owed(s));
  }

  lemma FailAllSettles(s: System, e: Event, error: AuthError, ops: seq<Completion>, retries: seq<Completion>, rest: seq<Block>)
    requires e.RunBlock? && Enabled(s, e) && s.state.queue == [FailAll(error, ops, retries)] + rest
    ensures Settles(s, e)
  {
    assert s.state.queue[1..] == rest;
    hide OwedByQueue, OwedBy, AllFailed;
    HeadOwes(FailAll(error, ops, retries), rest);
    FirstFailed(error, ops, retries);
    FailAllNext(s, e, error, ops, retries, rest);
    hide Next, Decided;
    NothingMore(multiset(s.answered) + Owed(s));
    if ops != [] {
      HeadOwes(FailAll(error, ops[1..], retries), rest);
      OneTold(s.answered, (ops[0], AdaptFailed(error)));
      OneLess(s, (ops[0], AdaptFailed(error)), multiset(AllFailed(error, ops[1..], retries)), OwedByQueue(rest));
    } else if retries != [] {
      HeadOwes(FailAll(error, [], retries[1..]), rest);
      OneTold(s.answered, (retries[0], DoNotRetryWithError(error)));
      OneLess(s, (retries[0], DoNotRetryWithError(error)), multiset(AllFailed(error, [], retries[1..])), OwedByQueue(rest));
    } else {
      NothingMore(OwedByQueue(rest));
    }
  }

  lemma FailAllNext(s: System, e: Event, error: AuthError, ops: seq<Completion>, retries: seq<Completion>, rest: seq<Block>)
    requires e.RunBlock? && Enabled(s, e) && s.state.queue == [FailAll(error, ops, retries)] + rest
    ensures multiset(Decided(s, e)) == multiset{} && Next(s, e).pending == s.pending
    ensures ops != [] ==>
              Next(s, e).state.queue == [FailAll(error, ops[1..], retries)] + rest
              && Next(s, e).answered == s.answered + [(ops[0], AdaptFailed(error))]
    ensures ops == [] && retries != [] ==>
              Next(s, e).state.queue == [FailAll(error, [], retries[1..])] + rest
              && Next(s, e).answered == s.answered + [(retries[0], DoNotRetryWithError(error))]
    ensures ops == [] && retries == [] ==> Next(s, e).state.queue == rest && Next(s, e).answered == s.answered
  {
    assert s.state.queue[1..] == rest;
    hide AdaptDecides;
  }

  /** One answer fewer is owed by the head of the queue, and one more told. */
  lemma OneLess(s: System, d: Decision, left: multiset<Decision>, rest: multiset<Decision>)
    ensures multiset(s.answered) + ((multiset{d} + left) + rest + OwedBy(s.pending))
            == multiset(s.answered) + multiset{d} + (left + rest + OwedBy(s.pending))
  {
    hide OwedBy;
  }

  lemma RetriesSettle(s: System, e: Event, retries: seq<Completion>, rest: seq<Block>)
    requires e.RunBlock? && Enabled(s, e) && s.state.queue == [Readapt([], retries)] + rest
    ensures Settles(s, e)
  {
    assert s.state.queue[1..] == rest;
    hide OwedByQueue, OwedBy, AllTold;
    HeadOwes(Readapt([], retries), rest);
    if retries != [] {
      HeadOwes(Readapt([], retries[1..]), rest);
      FirstTold(retries, Retry);
      OneTold(s.answered, (retries[0], Retry));
      OneLess(s, (retries[0], Retry), multiset(AllTold(retries[1..], Retry)), OwedByQueue(rest));
    } else {
      NoneTold(retries, Retry);
      NothingMore(OwedByQueue(rest));
    }
  }

  lemma OperationSettles(s: System, e: Event, ops: seq<Completion>, retries: seq<Completion>, rest: seq<Block>)
    requires e.RunBlock? && Enabled(s, e) && s.state.queue == [Readapt(ops, retries)] + rest && ops != []
    ensures Settles(s, e)
  {
    OperationNext(s, e, ops, retries, rest);
    hide Next, Decided, AdaptLocked, AdaptDecides, OwedByQueue, OwedBy, Returned, AllTold, Enabled;
    SameHeadOwes(ops, retries, rest);
    var left := s.state.(queue := [Readapt(ops[1..], retries)] + rest);
    AdaptOwes(left, ops[0], e.requiresRefresh, e.checkTime, e.recordTime);
    var (state, r) := AdaptLocked(left, ops[0], e.requiresRefresh, e.checkTime, e.recordTime);
    PendingOweBoth(s.pending, Returned(ops[0], r));
    Exchange(multiset(s.answered), OwedByQueue(s.state.queue), OwedBy(s.pending), multiset(Decided(s, e)),
             OwedByQueue(state.queue), OwedBy(Returned(ops[0], r)));
  }

  lemma SameHeadOwes(ops: seq<Completion>, retries: seq<Completion>, rest: seq<Block>)
    requires ops != []
    ensures OwedByQueue([Readapt(ops, retries)] + rest) == OwedByQueue([Readapt(ops[1..], retries)] + rest)
  {
    HeadOwes(Readapt(ops, retries), rest);
    HeadOwes(Readapt(ops[1..], retries), rest);
    hide OwedByQueue, AllTold;
  }

  lemma OperationNext(s: System, e: Event, ops: seq<Completion>, retries: seq<Completion>, rest: seq<Block>)
    requires e.RunBlock? && Enabled(s, e) && s.state.queue == [Readapt(ops, retries)] + rest && ops != []
    ensures var left := s.state.(queue := [Readapt(ops[1..], retries)] + rest);
            var (state, r) := AdaptLocked(left, ops[0], e.requiresRefresh, e.checkTime, e.recordTime);
            && Next(s, e).state == state && Next(s, e).pending == s.pending + Returned(ops[0], r)
            && Next(s, e).answered == s.answered
            && Decided(s, e) == AdaptDecides(left, ops[0], e.requiresRefresh, e.checkTime)
  {
    assert s.state.queue[1..] == rest;
    hide AdaptLocked, Returned, AttemptsSince, AllFailed;
  }

  lemma Exchange<T>(a: multiset<T>, q: multiset<T>, p: multiset<T>, d: multiset<T>, q': multiset<T>, r: multiset<T>)
    requires q' + r == q + d
    ensures a + (q + p) + d == a + (q' + (p + r))
  {
    assert a + (q + p) + d == a + p + (q + d);
    assert a + (q' + (p + r)) == a + p + (q' + r);
  }

  lemma StepSettles(s: System, e: Event)
    requires Enabled(s, e)
    ensures Settles(s, e)
  {
    match e {
      case CallAdapt(_, _, _, _) => CallAdaptSettles(s, e);
      case ReturnAdapt(_) => ReturnAdaptSettles(s, e);
      case CallRetry(_, _) => CallRetrySettles(s, e);
      case LockRetry(_, _, _) => LockRetrySettles(s, e);
      case RunBlock(_, _, _) => RunBlockSettles(s, e);
      case AnswerRefresh(_) => AnswerRefreshSettles(s, e);
      case SetCredential(_) => hide OwedByQueue, OwedBy;
    }
  }

  // ----- Runs -----

  lemma {:induction false} RunSettles(s: System, es: seq<Event>)
    ensures multiset(s.answered) + Owed(s) + multiset(Decisions(s, es)) == multiset(Run(s, es).answered) + Owed(Run(s, es))
    decreases |es|
  {
    hide Next, Enabled, Owed, Decided;
    if es != [] {
      if Enabled(s, es[0]) {
        StepSettles(s, es[0]);
        RunSettles(Next(s, es[0]), es[1..]);
        assert multiset(Decisions(s, es)) == multiset(Decided(s, es[0])) + multiset(Decisions(Next(s, es[0]), es[1..]));
      } else {
        RunSettles(s, es[1..]);
      }
    }
  }

  /**
    In every run the answers given are those that the events decided, each as often as it was decided, apart from
    those still owed: a retry waiting when a refresh succeeds is told to retry, one waiting when it fails is told
    its error, everything waiting when there were too many refreshes is told that, and what `retry` answers before it
    takes the lock follows from its facts. Nothing is told that was not decided, and once nothing is in flight
    everything decided has been told.
   */
  lemma AnswersAreDecisions(c: Option<Credential>, w: Option<RefreshWindow>, now: real, es: seq<Event>)
    ensures var s, ds := Run(Initial(c, w, now), es), Decisions(Initial(c, w, now), es);
            && multiset(ds) == multiset(s.answered) + Owed(s)
            && (forall d <- s.answered :: d in ds)
            && (Quiescent(s) ==> multiset(ds) == multiset(s.answered))
  {
    var s0 := Initial(c, w, now);
    var s, ds := Run(s0, es), Decisions(s0, es);
    RunSettles(s0, es);
    hide Run, Decisions;
    assert Owed(s0) == multiset{} && multiset(s0.answered) == multiset{};
    hide OwedByQueue, OwedBy;
    NothingMore(multiset(ds));
    assert multiset(ds) == multiset(s.answered) + Owed(s);
    forall d <- s.answered ensures d in ds {
      assert multiset(ds)[d] == multiset(s.answered)[d] + Owed(s)[d];
      assert d in multiset(s.answered);
    }
    if Quiescent(s) { QuiescentOwesNothing(s); }
  }

  lemma QuiescentOwesNothing(s: System)
    requires Quiescent(s)
    ensures Owed(s) == multiset{}
  {
  }
}

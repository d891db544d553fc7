/**
  Runs of the refresh protocol: any number of threads in `adapt` and `retry`, the serial queue, and an
  authenticator that answers each refresh once. Lock sections and queue blocks interleave freely.
 */
module AuthenticationRuns {
  import opened Options
  import opened Authentication

  /**
    A thread outside the lock, with what it still has to do. One in `retry` has the credential it read, and
    how often the credential had been set before.
   */
  datatype Pending =
    | AdaptReturned(completion: Completion, answer: Answer)
    | RetryWaiting(completion: Completion, c: Credential, readAt: nat)

  /**
    What has happened: the completions given to `adapt`, the refreshes that failed, and every value that the
    credential was set to, in order.
   */
  datatype History = History(adapts: set<Completion>, failures: set<int>, trail: seq<Option<Credential>>)

  datatype System = System(
    state: State,
    pending: seq<Pending>,
    refreshCalls: nat,
    answered: seq<(Completion, Answer)>,
    submitted: set<Completion>,
    history: History,
    now: real)

  /** What `retry` finds before it takes the lock. */
  datatype RetryFacts = RetryFacts(hasResponse: bool, authenticationFailed: bool, sameCredential: bool)

  datatype RefreshResult = Refreshed(c: Credential) | NotRefreshed(code: int)

  datatype Event =
    | CallAdapt(op: Completion, requiresRefresh: bool, checkTime: real, recordTime: real)
    | ReturnAdapt(k: nat)
    | CallRetry(completion: Completion, facts: RetryFacts)
    | LockRetry(k: nat, checkTime: real, recordTime: real)
    | RunBlock(requiresRefresh: bool, checkTime: real, recordTime: real)
    | AnswerRefresh(result: RefreshResult)
    | SetCredential(c: Option<Credential>)

  function Initial(c: Option<Credential>, w: Option<RefreshWindow>, now: real): System {
    System(State(c, false, [], w, [], [], []), [], 0, [], {}, History({}, {}, [c]), now)
  }

  predicate Enabled(s: System, e: Event) {
    match e
    case CallAdapt(op, _, t1, t2) => op !in s.submitted && s.now <= t1 <= t2
    case ReturnAdapt(k) => k < |s.pending| && s.pending[k].AdaptReturned?
    case CallRetry(completion, _) => completion !in s.submitted
    case LockRetry(k, t1, t2) => k < |s.pending| && s.pending[k].RetryWaiting? && s.now <= t1 <= t2
    case RunBlock(_, t1, t2) => s.state.queue != [] && s.now <= t1 <= t2
    case AnswerRefresh(_) => s.refreshCalls > 0
    case SetCredential(_) => true
  }

  function RemoveAt<T>(xs: seq<T>, k: nat): seq<T>
    requires k < |xs|
  {
    xs[..k] + xs[k + 1..]
  }

  /** What `adapt` has left to do after its lock section: call the completion, unless the operation was deferred. */
  function Returned(op: Completion, r: AdaptResult): seq<Pending> {
    match r
    case Adapt(c) => [AdaptReturned(op, Adapted(c))]
    case DoNotAdapt(e) => [AdaptReturned(op, AdaptFailed(e))]
    case AdaptDeferred => []
  }

  /** How often the credential has been set so far. */
  function Now(s: System): nat {
    if s.history.trail == [] then 0 else |s.history.trail| - 1
  }

  /** `retry` up to its lock section. */
  function BeforeRetryLock(s: System, completion: Completion, facts: RetryFacts): System {
    var s' := s.(submitted := s.submitted + {completion});
    if !facts.hasResponse || !facts.authenticationFailed then
      s'.(answered := s.answered + [(completion, DoNotRetry)])
    else
      match s.state.credential
      case None => s'.(answered := s.answered + [(completion, DoNotRetryWithError(MissingCredential))])
      case Some(c) =>
        if !facts.sameCredential then s'.(answered := s.answered + [(completion, Retry)])
        else s'.(pending := s.pending + [RetryWaiting(completion, c, Now(s))])
  }

  /** One step of the block at the head of the serial queue; an empty block is left behind. */
  function QueueStep(s: System, requiresRefresh: bool, t1: real, t2: real): System
    requires s.state.queue != []
  {
    var rest := s.state.queue[1..];
    match s.state.queue[0]
    case CallRefresh(_) =>
      s.(state := s.state.(queue := rest), refreshCalls := s.refreshCalls + 1)
    case Readapt(ops, retries) =>
      if ops != [] then
        var left := s.state.(queue := [Readapt(ops[1..], retries)] + rest);
        var (state, r) := AdaptLocked(left, ops[0], requiresRefresh, t1, t2);
        s.(state := state, pending := s.pending + Returned(ops[0], r), now := t2)
      else if retries != [] then
        s.(state := s.state.(queue := [Readapt([], retries[1..])] + rest),
           answered := s.answered + [(retries[0], Retry)])
      else s.(state := s.state.(queue := rest))
    case FailAll(e, ops, retries) =>
      if ops != [] then
        s.(state := s.state.(queue := [FailAll(e, ops[1..], retries)] + rest),
           answered := s.answered + [(ops[0], AdaptFailed(e))])
      else if retries != [] then
        s.(state := s.state.(queue := [FailAll(e, [], retries[1..])] + rest),
           answered := s.answered + [(retries[0], DoNotRetryWithError(e))])
      else s.(state := s.state.(queue := rest))
  }

  function Next(s: System, e: Event): System
    requires Enabled(s, e)
  {
    match e
    case CallAdapt(op, requiresRefresh, t1, t2) =>
      var (state, r) := AdaptLocked(s.state, op, requiresRefresh, t1, t2);
      s.(state := state, pending := s.pending + Returned(op, r), submitted := s.submitted + {op},
         history := s.history.(adapts := s.history.adapts + {op}), now := t2)
    case ReturnAdapt(k) =>
      s.(pending := RemoveAt(s.pending, k),
         answered := s.answered + [(s.pending[k].completion, s.pending[k].answer)])
    case CallRetry(completion, facts) => BeforeRetryLock(s, completion, facts)
    case LockRetry(k, t1, t2) =>
      s.(state := RetryLocked(s.state, s.pending[k].completion, s.pending[k].c, t1, t2),
         pending := RemoveAt(s.pending, k), now := t2)
    case RunBlock(requiresRefresh, t1, t2) => QueueStep(s, requiresRefresh, t1, t2)
    case AnswerRefresh(result) =>
      s.(refreshCalls := s.refreshCalls - 1,
         state := match result
                  case Refreshed(c) => HandleRefreshSuccess(s.state, c)
                  case NotRefreshed(code) => HandleRefreshFailure(s.state, RefreshFailed(code)),
         history := match result
                    case Refreshed(c) => s.history.(trail := s.history.trail + [Some(c)])
                    case NotRefreshed(code) => s.history.(failures := s.history.failures + {code}))
    case SetCredential(c) =>
      s.(state := s.state.(credential := c), history := s.history.(trail := s.history.trail + [c]))
  }

  /** A run takes the events in order; one that is not possible at its turn does not happen. */
  function Run(s: System, es: seq<Event>): System
    decreases |es|
  {
    if es == [] then s else Run(if Enabled(s, es[0]) then Next(s, es[0]) else s, es[1..])
  }

  // ----- Where the completions are -----

  function CompletionsOf(ps: seq<Pending>): (cs: seq<Completion>)
    ensures |cs| == |ps|
  {
    seq(|ps|, i requires 0 <= i < |ps| => ps[i].completion)
  }

  function Called(answered: seq<(Completion, Answer)>): (cs: seq<Completion>)
    ensures |cs| == |answered|
  {
    seq(|answered|, i requires 0 <= i < |answered| => answered[i].0)
  }

  function InBlock(b: Block): multiset<Completion> {
    if b.CallRefresh? then multiset{} else multiset(b.ops) + multiset(b.retries)
  }

  function InQueue(q: seq<Block>): multiset<Completion> {
    if q == [] then multiset{} else InBlock(q[0]) + InQueue(q[1..])
  }

  /** Held by the locked state: waiting for a refresh, or in a dispatched block. */
  function InState(s: State): multiset<Completion> {
    multiset(s.adaptOperations) + multiset(s.requestsToRetry) + InQueue(s.queue)
  }

  function Everywhere(s: System): multiset<Completion> {
    multiset(Called(s.answered)) + InState(s.state) + multiset(CompletionsOf(s.pending))
  }

  function CallsIn(q: seq<Block>): nat {
    if q == [] then 0 else (if q[0].CallRefresh? then 1 else 0) + CallsIn(q[1..])
  }

  lemma {:induction false} QueueAppend(q: seq<Block>, b: Block)
    ensures InQueue(q + [b]) == InQueue(q) + InBlock(b)
    ensures CallsIn(q + [b]) == CallsIn(q) + (if b.CallRefresh? then 1 else 0)
  {
    if q == [] {
      assert ([b])[1..] == [];
      assert [] + [b] == [b];
    } else {
      assert (q + [b])[1..] == q[1..] + [b];
      QueueAppend(q[1..], b);
    }
  }

  lemma Removed<T>(xs: seq<T>, k: nat)
    requires k < |xs|
    ensures multiset(RemoveAt(xs, k)) == multiset(xs) - multiset{xs[k]}
  {
    assert xs == xs[..k] + [xs[k]] + xs[k + 1..];
  }

  lemma CompletionsRemoved(ps: seq<Pending>, k: nat)
    requires k < |ps|
    ensures multiset(CompletionsOf(RemoveAt(ps, k))) == multiset(CompletionsOf(ps)) - multiset{ps[k].completion}
    ensures ps[k].completion in multiset(CompletionsOf(ps))
  {
    assert CompletionsOf(RemoveAt(ps, k)) == RemoveAt(CompletionsOf(ps), k);
    Removed(CompletionsOf(ps), k);
    assert CompletionsOf(ps)[k] == ps[k].completion;
  }

  lemma CompletionsAppended(ps: seq<Pending>, qs: seq<Pending>)
    ensures multiset(CompletionsOf(ps + qs)) == multiset(CompletionsOf(ps)) + multiset(CompletionsOf(qs))
  {
    assert CompletionsOf(ps + qs) == CompletionsOf(ps) + CompletionsOf(qs);
  }

  lemma CalledAppended(answered: seq<(Completion, Answer)>, c: Completion, a: Answer)
    ensures multiset(Called(answered + [(c, a)])) == multiset(Called(answered)) + multiset{c}
  {
    assert Called(answered + [(c, a)]) == Called(answered) + [c];
  }

  // ----- The invariants -----

  /** Every completion handed in is in exactly one place. */
  ghost predicate NothingLostOrDoubled(s: System) {
    Everywhere(s) == multiset(s.submitted)
  }

  /** `isRefreshing` holds exactly while one refresh is dispatched or running, and only then is anything queued. */
  ghost predicate OneRefresh(s: System) {
    && CallsIn(s.state.queue) + s.refreshCalls == (if s.state.isRefreshing then 1 else 0)
    && (!s.state.isRefreshing ==> s.state.adaptOperations == [] && s.state.requestsToRetry == [])
  }

  // ----- Lock sections -----

  /** A refresh keeps what the state holds; afterwards either one call is dispatched or everything has failed. */
  lemma RefreshKeeps(s: State, c: Credential, t1: real, t2: real)
    requires !s.isRefreshing
    ensures var s' := Refresh(s, c, t1, t2);
            && InState(s') == InState(s)
            && CallsIn(s'.queue) == CallsIn(s.queue) + (if s'.isRefreshing then 1 else 0)
            && (!s'.isRefreshing ==> s'.adaptOperations == [] && s'.requestsToRetry == [])
  {
    hide IsRefreshExcessive;
    QueueAppend(s.queue, CallRefresh(c));
    QueueAppend(s.queue, FailAll(ExcessiveRefresh, s.adaptOperations, s.requestsToRetry));
  }

  lemma AdaptKeeps(s: State, op: Completion, requiresRefresh: bool, t1: real, t2: real)
    requires !s.isRefreshing ==> s.adaptOperations == [] && s.requestsToRetry == []
    ensures var (s', r) := AdaptLocked(s, op, requiresRefresh, t1, t2);
            && InState(s') + multiset(CompletionsOf(Returned(op, r))) == InState(s) + multiset{op}
            && (CallsIn(s'.queue) - CallsIn(s.queue) ==
                (if s'.isRefreshing then 1 else 0) - (if s.isRefreshing then 1 else 0))
            && (!s'.isRefreshing ==> s'.adaptOperations == [] && s'.requestsToRetry == [])
  {
    hide Refresh, InQueue;
    if !s.isRefreshing && s.credential.Some? && requiresRefresh {
      RefreshKeeps(s.(adaptOperations := s.adaptOperations + [op]), s.credential.value, t1, t2);
    }
    assert forall r: AdaptResult :: !r.AdaptDeferred? ==> CompletionsOf(Returned(op, r)) == [op];
  }

  lemma RetryKeeps(s: State, completion: Completion, c: Credential, t1: real, t2: real)
    requires !s.isRefreshing ==> s.adaptOperations == [] && s.requestsToRetry == []
    ensures var s' := RetryLocked(s, completion, c, t1, t2);
            && InState(s') == InState(s) + multiset{completion}
            && (CallsIn(s'.queue) - CallsIn(s.queue) ==
                (if s'.isRefreshing then 1 else 0) - (if s.isRefreshing then 1 else 0))
            && (!s'.isRefreshing ==> s'.adaptOperations == [] && s'.requestsToRetry == [])
  {
    hide Refresh, InQueue;
    if !s.isRefreshing {
      RefreshKeeps(s.(requestsToRetry := s.requestsToRetry + [completion]), c, t1, t2);
    }
  }

  lemma AnswerKeeps(s: State, result: RefreshResult)
    ensures var s' := match result
                      case Refreshed(c) => HandleRefreshSuccess(s, c)
                      case NotRefreshed(code) => HandleRefreshFailure(s, RefreshFailed(code));
            InState(s') == InState(s) && CallsIn(s'.queue) == CallsIn(s.queue)
  {
    hide InQueue;
    QueueAppend(s.queue, Readapt(s.adaptOperations, s.requestsToRetry));
    match result {
      case Refreshed(_) =>
      case NotRefreshed(code) =>
        QueueAppend(s.queue, FailAll(RefreshFailed(code), s.adaptOperations, s.requestsToRetry));
    }
  }

  // ----- Steps and runs -----

  ghost predicate Inv(s: System) {
    NothingLostOrDoubled(s) && OneRefresh(s)
  }

  lemma SubmittedGrows(submitted: set<Completion>, c: Completion)
    requires c !in submitted
    ensures multiset(submitted + {c}) == multiset(submitted) + multiset{c}
  {
  }

  lemma Shuffle(a: multiset<Completion>, b: multiset<Completion>, b': multiset<Completion>, p: multiset<Completion>, r: multiset<Completion>, o: multiset<Completion>)
    requires b' + r == b + o
    ensures a + b' + (p + r) == a + b + p + o
  {
    assert a + b' + (p + r) == a + (b' + r) + p;
  }

  lemma ShuffleOut(a: multiset<Completion>, b: multiset<Completion>, p: multiset<Completion>, o: multiset<Completion>)
    ensures (a + o) + b + p == a + (b + o) + p
  {
  }

  lemma CallAdaptKeeps(s: System, e: Event)
    requires Inv(s) && Enabled(s, e) && e.CallAdapt?
    ensures Inv(Next(s, e))
  {
    hide AdaptLocked, InState, CompletionsOf, Returned;
    SubmittedGrows(s.submitted, e.op);
    AdaptKeeps(s.state, e.op, e.requiresRefresh, e.checkTime, e.recordTime);
    var (state, r) := AdaptLocked(s.state, e.op, e.requiresRefresh, e.checkTime, e.recordTime);
    CompletionsAppended(s.pending, Returned(e.op, r));
    Shuffle(multiset(Called(s.answered)), InState(s.state), InState(state), multiset(CompletionsOf(s.pending)),
            multiset(CompletionsOf(Returned(e.op, r))), multiset{e.op});
    hide Called;
  }

  lemma ReturnAdaptKeeps(s: System, e: Event)
    requires Inv(s) && Enabled(s, e) && e.ReturnAdapt?
    ensures Inv(Next(s, e))
  {
    hide InState, CompletionsOf, Called, RemoveAt;
    CompletionsRemoved(s.pending, e.k);
    CalledAppended(s.answered, s.pending[e.k].completion, s.pending[e.k].answer);
  }

  lemma AnsweredAtOnce(s: System, c: Completion, a: Answer)
    requires Inv(s) && c !in s.submitted
    ensures Inv(s.(submitted := s.submitted + {c}, answered := s.answered + [(c, a)]))
  {
    SubmittedGrows(s.submitted, c);
    CalledAppended(s.answered, c, a);
    hide InState, Called, CompletionsOf, CallsIn;
    ShuffleOut(multiset(Called(s.answered)), InState(s.state), multiset(CompletionsOf(s.pending)), multiset{c});
  }

  lemma LeftWaiting(s: System, p: Pending)
    requires Inv(s) && p.completion !in s.submitted
    ensures Inv(s.(submitted := s.submitted + {p.completion}, pending := s.pending + [p]))
  {
    SubmittedGrows(s.submitted, p.completion);
    OneWaiting(s.pending, p);
    hide InState, Called, CompletionsOf, CallsIn;
  }

  lemma CallRetryKeeps(s: System, e: Event)
    requires Inv(s) && Enabled(s, e) && e.CallRetry?
    ensures Inv(Next(s, e))
  {
    hide Inv;
    AnsweredAtOnce(s, e.completion, DoNotRetry);
    AnsweredAtOnce(s, e.completion, DoNotRetryWithError(MissingCredential));
    AnsweredAtOnce(s, e.completion, Retry);
    if s.state.credential.Some? {
      LeftWaiting(s, RetryWaiting(e.completion, s.state.credential.value, Now(s)));
    }
  }

  lemma OneWaiting(ps: seq<Pending>, p: Pending)
    ensures multiset(CompletionsOf(ps + [p])) == multiset(CompletionsOf(ps)) + multiset{p.completion}
  {
    CompletionsAppended(ps, [p]);
    assert CompletionsOf([p]) == [p.completion];
  }

  lemma LockRetryKeeps(s: System, e: Event)
    requires Inv(s) && Enabled(s, e) && e.LockRetry?
    ensures Inv(Next(s, e))
  {
    hide InState, CompletionsOf, Called, RemoveAt, RetryLocked;
    CompletionsRemoved(s.pending, e.k);
    RetryKeeps(s.state, s.pending[e.k].completion, s.pending[e.k].c, e.checkTime, e.recordTime);
  }

  /** Replacing the block at the head of the queue by one that holds `c` no longer. */
  lemma HeadReplaced(s: State, b: Block, taken: multiset<Completion>)
    requires s.queue != [] && !s.queue[0].CallRefresh? && !b.CallRefresh?
    requires InBlock(s.queue[0]) == taken + InBlock(b)
    ensures InState(s) == InState(s.(queue := [b] + s.queue[1..])) + taken
    ensures CallsIn(s.queue) == CallsIn([b] + s.queue[1..])
  {
    assert s.queue == [s.queue[0]] + s.queue[1..];
    assert ([b] + s.queue[1..])[1..] == s.queue[1..];
    hide InBlock;
  }

  lemma HeadDropped(s: State)
    requires s.queue != []
    ensures InState(s) == InState(s.(queue := s.queue[1..])) + InBlock(s.queue[0])
    ensures CallsIn(s.queue) == CallsIn(s.queue[1..]) + (if s.queue[0].CallRefresh? then 1 else 0)
  {
    hide InBlock;
  }

  lemma FirstTaken(cs: seq<Completion>, more: multiset<Completion>)
    requires cs != []
    ensures multiset(cs) + more == multiset{cs[0]} + (multiset(cs[1..]) + more)
    ensures more + multiset(cs) == multiset{cs[0]} + (more + multiset(cs[1..]))
  {
    assert cs == [cs[0]] + cs[1..];
  }

  lemma ReadaptKeeps(s: System, requiresRefresh: bool, t1: real, t2: real)
    requires Inv(s) && s.state.queue != [] && s.state.queue[0].Readapt?
    ensures Inv(QueueStep(s, requiresRefresh, t1, t2))
  {
    hide InState, CallsIn, Everywhere, AdaptLocked, Returned;
    var b := s.state.queue[0];
    if b.ops != [] {
      OperationReadapted(s, requiresRefresh, t1, t2);
    } else if b.retries != [] {
      RetriesTaken(s, Readapt([], b.retries[1..]), Retry);
    } else {
      EmptyBlockDropped(s);
    }
  }

  /** A block runs `adapt` again for the first of its operations. */
  lemma OperationReadapted(s: System, requiresRefresh: bool, t1: real, t2: real)
    requires Inv(s) && s.state.queue != [] && s.state.queue[0].Readapt? && s.state.queue[0].ops != []
    ensures Inv(QueueStep(s, requiresRefresh, t1, t2))
  {
    var b, rest := s.state.queue[0], s.state.queue[1..];
    var left := s.state.(queue := [Readapt(b.ops[1..], b.retries)] + rest);
    FirstTaken(b.ops, multiset(b.retries));
    HeadReplaced(s.state, Readapt(b.ops[1..], b.retries), multiset{b.ops[0]});
    AdaptRuns(s, left, b.ops[0], requiresRefresh, t1, t2);
  }

  /** The lock section of `adapt`, run for an operation just taken out of a block. */
  lemma AdaptRuns(s: System, left: State, op: Completion, requiresRefresh: bool, t1: real, t2: real)
    requires Inv(s) && left == s.state.(queue := left.queue)
    requires InState(s.state) == InState(left) + multiset{op} && CallsIn(s.state.queue) == CallsIn(left.queue)
    ensures var (state, r) := AdaptLocked(left, op, requiresRefresh, t1, t2);
            Inv(s.(state := state, pending := s.pending + Returned(op, r), now := t2))
  {
    hide AdaptLocked, CompletionsOf, Returned, InState, CallsIn, Called;
    AdaptKeeps(left, op, requiresRefresh, t1, t2);
    var (state, r) := AdaptLocked(left, op, requiresRefresh, t1, t2);
    CompletionsAppended(s.pending, Returned(op, r));
    Shuffle(multiset(Called(s.answered)), InState(left), InState(state), multiset(CompletionsOf(s.pending)),
            multiset(CompletionsOf(Returned(op, r))), multiset{op});
    ShuffleIn(multiset(Called(s.answered)), InState(left), multiset(CompletionsOf(s.pending)), multiset{op});
  }

  lemma ShuffleIn(a: multiset<Completion>, b: multiset<Completion>, p: multiset<Completion>, o: multiset<Completion>)
    ensures a + b + p + o == a + (b + o) + p
  {
  }

  lemma EmptyBlockDropped(s: System)
    requires Inv(s) && s.state.queue != [] && !s.state.queue[0].CallRefresh?
    requires s.state.queue[0].ops == s.state.queue[0].retries == []
    ensures Inv(s.(state := s.state.(queue := s.state.queue[1..])))
  {
    HeadDropped(s.state);
    hide InState, CallsIn, Called, CompletionsOf;
  }

  /** A block calls the first of its retry completions. */
  lemma RetriesTaken(s: System, b: Block, a: Answer)
    requires Inv(s) && s.state.queue != [] && !s.state.queue[0].CallRefresh? && !b.CallRefresh?
    requires var q := s.state.queue[0]; q.ops == b.ops == [] && q.retries != [] && b.retries == q.retries[1..]
    ensures Inv(s.(state := s.state.(queue := [b] + s.state.queue[1..]),
                   answered := s.answered + [(s.state.queue[0].retries[0], a)]))
  {
    FirstTaken(s.state.queue[0].retries, multiset(s.state.queue[0].ops));
    CompletionCalled(s, b, s.state.queue[0].retries[0], a);
  }

  /** A block calls one of its completions, and holds it no longer. */
  lemma CompletionCalled(s: System, b: Block, c: Completion, a: Answer)
    requires Inv(s) && s.state.queue != [] && !s.state.queue[0].CallRefresh? && !b.CallRefresh?
    requires InBlock(s.state.queue[0]) == multiset{c} + InBlock(b)
    ensures Inv(s.(state := s.state.(queue := [b] + s.state.queue[1..]), answered := s.answered + [(c, a)]))
  {
    hide InState, CallsIn, Called, CompletionsOf, InBlock;
    HeadReplaced(s.state, b, multiset{c});
    CalledAppended(s.answered, c, a);
    var after := s.state.(queue := [b] + s.state.queue[1..]);
    ShuffleOut(multiset(Called(s.answered)), InState(after), multiset(CompletionsOf(s.pending)), multiset{c});
  }

  lemma FailAllKeeps(s: System, requiresRefresh: bool, t1: real, t2: real)
    requires Inv(s) && s.state.queue != [] && s.state.queue[0].FailAll?
    ensures Inv(QueueStep(s, requiresRefresh, t1, t2))
  {
    hide InState, CallsIn, Everywhere;
    var b := s.state.queue[0];
    if b.ops != [] {
      FirstTaken(b.ops, multiset(b.retries));
      CompletionCalled(s, FailAll(b.e, b.ops[1..], b.retries), b.ops[0], AdaptFailed(b.e));
    } else if b.retries != [] {
      RetriesTaken(s, FailAll(b.e, [], b.retries[1..]), DoNotRetryWithError(b.e));
    } else {
      EmptyBlockDropped(s);
    }
  }

  lemma StepKeeps(s: System, e: Event)
    requires Inv(s) && Enabled(s, e)
    ensures Inv(Next(s, e))
  {
    match e {
      case CallAdapt(_, _, _, _) => CallAdaptKeeps(s, e);
      case ReturnAdapt(_) => ReturnAdaptKeeps(s, e);
      case CallRetry(_, _) => CallRetryKeeps(s, e);
      case LockRetry(_, _, _) => LockRetryKeeps(s, e);
      case RunBlock(requiresRefresh, t1, t2) =>
        match s.state.queue[0] {
          case CallRefresh(_) => HeadDropped(s.state);
          case Readapt(_, _) => ReadaptKeeps(s, requiresRefresh, t1, t2);
          case FailAll(_, _, _) => FailAllKeeps(s, requiresRefresh, t1, t2);
        }
      case AnswerRefresh(result) => AnswerKeeps(s.state, result);
      case SetCredential(_) =>
    }
  }

  lemma {:induction false} RunKeeps(s: System, es: seq<Event>)
    requires Inv(s)
    ensures Inv(Run(s, es))
    decreases |es|
  {
    if es != [] {
      if Enabled(s, es[0]) { StepKeeps(s, es[0]); }
      hide Inv, Next, Enabled;
      RunKeeps(if Enabled(s, es[0]) then Next(s, es[0]) else s, es[1..]);
    }
  }

  /** Nothing is left to run: no block, no thread on its way, no refresh outstanding. */
  predicate Quiescent(s: System) {
    s.state.queue == [] && s.pending == [] && s.refreshCalls == 0
  }

  lemma CalledAtMostOnce(s: System)
    requires NothingLostOrDoubled(s)
    ensures forall id :: multiset(Called(s.answered))[id] <= 1
  {
    hide Called, InState, CompletionsOf;
    forall id ensures multiset(Called(s.answered))[id] <= 1 {
      assert Everywhere(s)[id] == multiset(s.submitted)[id];
    }
  }

  /**
    In every run, every completion given to `adapt` or `retry` is called at most once, and is otherwise still
    held; once nothing is left to run, each has been called exactly once. At most one refresh is ever
    outstanding, and completions wait only while it is.
   */
  lemma CompletionsCalledOnce(c: Option<Credential>, w: Option<RefreshWindow>, now: real, es: seq<Event>)
    ensures var s := Run(Initial(c, w, now), es);
            && Everywhere(s) == multiset(s.submitted)
            && (forall id :: multiset(Called(s.answered))[id] <= 1)
            && (Quiescent(s) ==> multiset(Called(s.answered)) == multiset(s.submitted))
            && CallsIn(s.state.queue) + s.refreshCalls == (if s.state.isRefreshing then 1 else 0)
            && (!s.state.isRefreshing ==> s.state.adaptOperations == [] && s.state.requestsToRetry == [])
  {
    var s := Run(Initial(c, w, now), es);
    RunKeeps(Initial(c, w, now), es);
    CalledAtMostOnce(s);
    hide Run, Called, CallsIn;
  }

  // ----- The rate of refreshes -----

  /** How many timestamps lie in the closed window of the given length that starts at `lo`. */
  function CountWithin(ts: seq<real>, lo: real, length: real): (n: nat)
    ensures n <= |ts|
  {
    if ts == [] then 0
    else CountWithin(ts[..|ts| - 1], lo, length) + (if lo <= ts[|ts| - 1] <= lo + length then 1 else 0)
  }

  /** The attempts a window allows: none when its maximum is not positive. */
  function Allowed(w: RefreshWindow): nat {
    if w.maximumAttempts < 0 then 0 else w.maximumAttempts
  }

  ghost predicate RateBounded(s: State, now: real) {
    && (forall i :: 0 <= i < |s.refreshTimestamps| ==> s.refreshTimestamps[i] <= now)
    && (s.refreshWindow.Some? ==>
          forall lo: real :: CountWithin(s.refreshTimestamps, lo, s.refreshWindow.value.interval) <= Allowed(s.refreshWindow.value))
  }

  /** A window that starts no earlier counts no more. */
  lemma {:induction false} WindowCountsLess(ts: seq<real>, lo: real, length: real, since: real)
    requires since <= lo
    ensures CountWithin(ts, lo, length) <= CountSince(ts, since)
  {
    if ts != [] {
      WindowCountsLess(ts[..|ts| - 1], lo, length, since);
    }
  }

  /**
    One more timestamp keeps every window within bounds, although the clock is read once for the check
    and again, later, for the record: a window that holds the record starts after the window checked.
   */
  lemma RefreshKeepsRate(s: State, c: Credential, now: real, t1: real, t2: real)
    requires RateBounded(s, now) && now <= t1 <= t2
    ensures RateBounded(Refresh(s, c, t1, t2), t2)
  {
    var ts := s.refreshTimestamps;
    if !IsRefreshExcessive(s, t1) && s.refreshWindow.Some? {
      var w := s.refreshWindow.value;
      forall lo: real ensures CountWithin(ts + [t2], lo, w.interval) <= Allowed(w) {
        assert (ts + [t2])[..|ts|] == ts;
        if lo <= t2 <= lo + w.interval {
          WindowCountsLess(ts, lo, w.interval, t1 - w.interval);
        }
      }
    }
  }

  ghost predicate RateInv(s: System) {
    RateBounded(s.state, s.now)
  }

  lemma LaterStillBounded(s: State, now: real, later: real)
    requires RateBounded(s, now) && now <= later
    ensures RateBounded(s, later)
  {
  }

  lemma AdaptKeepsRate(s: State, op: Completion, requiresRefresh: bool, now: real, t1: real, t2: real)
    requires RateBounded(s, now) && now <= t1 <= t2
    ensures RateBounded(AdaptLocked(s, op, requiresRefresh, t1, t2).0, t2)
  {
    if !s.isRefreshing && s.credential.Some? && requiresRefresh {
      RefreshKeepsRate(s.(adaptOperations := s.adaptOperations + [op]), s.credential.value, now, t1, t2);
    }
    hide Refresh, CountWithin;
  }

  lemma StepKeepsRate(s: System, e: Event)
    requires RateInv(s) && Enabled(s, e)
    ensures RateInv(Next(s, e)) && s.now <= Next(s, e).now
  {
    hide CountWithin;
    match e {
      case CallAdapt(op, requiresRefresh, t1, t2) =>
        AdaptKeepsRate(s.state, op, requiresRefresh, s.now, t1, t2);
      case LockRetry(k, t1, t2) =>
        RefreshKeepsRate(s.state.(requestsToRetry := s.state.requestsToRetry + [s.pending[k].completion]),
                         s.pending[k].c, s.now, t1, t2);
        hide Refresh;
        LaterStillBounded(s.state, s.now, t2);
      case RunBlock(requiresRefresh, t1, t2) =>
        var b := s.state.queue[0];
        if b.Readapt? && b.ops != [] {
          var left := s.state.(queue := [Readapt(b.ops[1..], b.retries)] + s.state.queue[1..]);
          AdaptKeepsRate(left, b.ops[0], requiresRefresh, s.now, t1, t2);
        }
        hide AdaptLocked;
      case ReturnAdapt(_) =>
      case CallRetry(_, _) =>
      case AnswerRefresh(_) =>
      case SetCredential(_) =>
    }
  }

  lemma {:induction false} RunKeepsRate(s: System, es: seq<Event>)
    requires RateInv(s)
    ensures RateInv(Run(s, es)) && Run(s, es).state.refreshWindow == s.state.refreshWindow
    decreases |es|
  {
    if es != [] {
      if Enabled(s, es[0]) {
        StepKeepsRate(s, es[0]);
        WindowConstant(s, es[0]);
      }
      hide RateInv, Next, Enabled;
      RunKeepsRate(if Enabled(s, es[0]) then Next(s, es[0]) else s, es[1..]);
    }
  }

  lemma WindowConstant(s: System, e: Event)
    requires Enabled(s, e)
    ensures Next(s, e).state.refreshWindow == s.state.refreshWindow
  {
    hide IsRefreshExcessive;
  }

  /** In every run, any closed time window of the configured length holds at most the configured number of refreshes. */
  lemma RefreshRateBounded(c: Option<Credential>, w: RefreshWindow, now: real, es: seq<Event>, lo: real)
    ensures var s := Run(Initial(c, Some(w), now), es);
            CountWithin(s.state.refreshTimestamps, lo, w.interval) <= Allowed(w)
  {
    RunKeepsRate(Initial(c, Some(w), now), es);
    hide Run, CountWithin;
  }
}

/** What the completions of the refresh protocol are told, in every run. */
module AuthenticationAnswers {
  import opened Options
  import opened Authentication
  import opened AuthenticationRuns

  /** A refresh error is told only after a refresh has failed with it. */
  predicate Real(h: History, e: AuthError) {
    e.RefreshFailed? ==> e.code in h.failures
  }

  /** The credential was held at some time. */
  predicate WasHeld(h: History, c: Credential) {
    Some(c) in h.trail
  }

  predicate IsRetry(u: set<Completion>, h: History, c: Completion) {
    c in u && c !in h.adapts
  }

  /** Operations are told of a credential that was held, or of a real error; retries whether to retry. */
  predicate AnswerFits(u: set<Completion>, h: History, c: Completion, a: Answer) {
    match a
    case Adapted(x) => c in h.adapts && WasHeld(h, x)
    case AdaptFailed(e) => c in h.adapts && Real(h, e)
    case Retry => IsRetry(u, h, c)
    case DoNotRetry => IsRetry(u, h, c)
    case DoNotRetryWithError(e) => IsRetry(u, h, c) && Real(h, e)
  }

  predicate AllAdapts(h: History, cs: seq<Completion>) {
    forall c <- cs :: c in h.adapts
  }

  predicate AllRetries(u: set<Completion>, h: History, cs: seq<Completion>) {
    forall c <- cs :: IsRetry(u, h, c)
  }

  predicate BlockFits(u: set<Completion>, h: History, b: Block) {
    match b
    case CallRefresh(x) => WasHeld(h, x)
    case Readapt(ops, retries) => AllAdapts(h, ops) && AllRetries(u, h, retries)
    case FailAll(e, ops, retries) => Real(h, e) && AllAdapts(h, ops) && AllRetries(u, h, retries)
  }

  predicate StateFits(u: set<Completion>, h: History, s: State) {
    && (s.credential.Some? ==> WasHeld(h, s.credential.value))
    && AllAdapts(h, s.adaptOperations) && AllRetries(u, h, s.requestsToRetry)
    && forall b <- s.queue :: BlockFits(u, h, b)
  }

  predicate PendingFits(u: set<Completion>, h: History, p: Pending) {
    match p
    case AdaptReturned(c, a) => AnswerFits(u, h, c, a)
    case RetryWaiting(c, x, _) => IsRetry(u, h, c) && WasHeld(h, x)
  }

  predicate AllPendingFit(u: set<Completion>, h: History, ps: seq<Pending>) {
    forall p <- ps :: PendingFits(u, h, p)
  }

  predicate AllAnswersFit(u: set<Completion>, h: History, answered: seq<(Completion, Answer)>) {
    forall x <- answered :: AnswerFits(u, h, x.0, x.1)
  }

  predicate Fits(s: System) {
    && s.history.adapts <= s.submitted
    && StateFits(s.submitted, s.history, s.state)
    && AllPendingFit(s.submitted, s.history, s.pending)
    && AllAnswersFit(s.submitted, s.history, s.answered)
  }

  // ----- More history changes no verdict -----

  predicate Grows(u: set<Completion>, h: History, u': set<Completion>, h': History) {
    && u <= u' && h.adapts <= h'.adapts && h.failures <= h'.failures && h.trail <= h'.trail
    && (forall c <- u :: c in h'.adapts ==> c in h.adapts)
  }

  lemma StateFitsLater(u: set<Completion>, h: History, s: State, u': set<Completion>, h': History)
    requires StateFits(u, h, s) && Grows(u, h, u', h')
    ensures StateFits(u', h', s)
  {
    forall b <- s.queue ensures BlockFits(u', h', b) {
      assert BlockFits(u, h, b);
    }
  }

  lemma PendingFitLater(u: set<Completion>, h: History, ps: seq<Pending>, u': set<Completion>, h': History)
    requires AllPendingFit(u, h, ps) && Grows(u, h, u', h')
    ensures AllPendingFit(u', h', ps)
  {
    forall p <- ps ensures PendingFits(u', h', p) {
      assert PendingFits(u, h, p);
    }
  }

  lemma AnswersFitLater(u: set<Completion>, h: History, answered: seq<(Completion, Answer)>, u': set<Completion>, h': History)
    requires AllAnswersFit(u, h, answered) && Grows(u, h, u', h')
    ensures AllAnswersFit(u', h', answered)
  {
    forall x <- answered ensures AnswerFits(u', h', x.0, x.1) {
      assert AnswerFits(u, h, x.0, x.1);
    }
  }

  lemma FitsLater(s: System, u': set<Completion>, h': History)
    requires Fits(s) && Grows(s.submitted, s.history, u', h') && h'.adapts <= u'
    ensures Fits(s.(submitted := u', history := h'))
  {
    StateFitsLater(s.submitted, s.history, s.state, u', h');
    PendingFitLater(s.submitted, s.history, s.pending, u', h');
    AnswersFitLater(s.submitted, s.history, s.answered, u', h');
    hide StateFits, AllPendingFit, AllAnswersFit;
  }

  // ----- Lock sections -----

  lemma BlockAdded(u: set<Completion>, h: History, q: seq<Block>, b: Block)
    requires (forall x <- q :: BlockFits(u, h, x)) && BlockFits(u, h, b)
    ensures forall x <- q + [b] :: BlockFits(u, h, x)
  {
    hide BlockFits;
  }

  lemma SuccessFits(u: set<Completion>, h: History, s: State, c: Credential)
    requires StateFits(u, h, s) && WasHeld(h, c)
    ensures StateFits(u, h, HandleRefreshSuccess(s, c))
  {
    BlockAdded(u, h, s.queue, Readapt(s.adaptOperations, s.requestsToRetry));
  }

  lemma FailureFits(u: set<Completion>, h: History, s: State, e: AuthError)
    requires StateFits(u, h, s) && Real(h, e)
    ensures StateFits(u, h, HandleRefreshFailure(s, e))
  {
    BlockAdded(u, h, s.queue, FailAll(e, s.adaptOperations, s.requestsToRetry));
  }

  lemma RefreshFits(u: set<Completion>, h: History, s: State, c: Credential, t1: real, t2: real)
    requires StateFits(u, h, s) && WasHeld(h, c)
    ensures StateFits(u, h, Refresh(s, c, t1, t2))
  {
    FailureFits(u, h, s, ExcessiveRefresh);
    BlockAdded(u, h, s.queue, CallRefresh(c));
    hide IsRefreshExcessive, HandleRefreshFailure;
  }

  lemma AdaptFits(u: set<Completion>, h: History, s: State, op: Completion, requiresRefresh: bool, t1: real, t2: real)
    requires StateFits(u, h, s) && op in h.adapts
    ensures var (s', r) := AdaptLocked(s, op, requiresRefresh, t1, t2);
            StateFits(u, h, s') && AllPendingFit(u, h, Returned(op, r))
  {
    var waiting := s.(adaptOperations := s.adaptOperations + [op]);
    assert StateFits(u, h, waiting);
    if s.credential.Some? {
      RefreshFits(u, h, waiting, s.credential.value, t1, t2);
    }
    hide Refresh, BlockFits;
  }

  lemma RetryFits(u: set<Completion>, h: History, s: State, completion: Completion, c: Credential, t1: real, t2: real)
    requires StateFits(u, h, s) && IsRetry(u, h, completion) && WasHeld(h, c)
    ensures StateFits(u, h, RetryLocked(s, completion, c, t1, t2))
  {
    var waiting := s.(requestsToRetry := s.requestsToRetry + [completion]);
    assert StateFits(u, h, waiting);
    RefreshFits(u, h, waiting, c, t1, t2);
    hide Refresh, BlockFits;
  }

  // ----- Steps -----

  lemma CallAdaptFits(s: System, op: Completion, requiresRefresh: bool, t1: real, t2: real)
    requires Fits(s) && Enabled(s, CallAdapt(op, requiresRefresh, t1, t2))
    ensures Fits(Next(s, CallAdapt(op, requiresRefresh, t1, t2)))
  {
    var u, h := s.submitted + {op}, s.history.(adapts := s.history.adapts + {op});
    FitsLater(s, u, h);
    AdaptFits(u, h, s.state, op, requiresRefresh, t1, t2);
    hide StateFits, PendingFits, AllAnswersFit, AdaptLocked, Returned;
  }

  lemma CallRetryFits(s: System, completion: Completion, facts: RetryFacts)
    requires Fits(s) && Enabled(s, CallRetry(completion, facts))
    ensures Fits(Next(s, CallRetry(completion, facts)))
  {
    var u := s.submitted + {completion};
    FitsLater(s, u, s.history);
    assert IsRetry(u, s.history, completion);
    hide BlockFits;
  }

  lemma LockRetryFits(s: System, k: nat, t1: real, t2: real)
    requires Fits(s) && Enabled(s, LockRetry(k, t1, t2))
    ensures Fits(Next(s, LockRetry(k, t1, t2)))
  {
    assert PendingFits(s.submitted, s.history, s.pending[k]);
    RetryFits(s.submitted, s.history, s.state, s.pending[k].completion, s.pending[k].c, t1, t2);
    hide StateFits, PendingFits, AllAnswersFit, RetryLocked;
  }

  lemma ReturnAdaptFits(s: System, k: nat)
    requires Fits(s) && Enabled(s, ReturnAdapt(k))
    ensures Fits(Next(s, ReturnAdapt(k)))
  {
    assert PendingFits(s.submitted, s.history, s.pending[k]);
    assert AnswerFits(s.submitted, s.history, s.pending[k].completion, s.pending[k].answer);
    hide StateFits, PendingFits, AnswerFits;
  }

  lemma AnswerRefreshFits(s: System, result: RefreshResult)
    requires Fits(s) && Enabled(s, AnswerRefresh(result))
    ensures Fits(Next(s, AnswerRefresh(result)))
  {
    var h := Next(s, AnswerRefresh(result)).history;
    FitsLater(s, s.submitted, h);
    match result {
      case Refreshed(c) => SuccessFits(s.submitted, h, s.state, c);
      case NotRefreshed(code) => FailureFits(s.submitted, h, s.state, RefreshFailed(code));
    }
    hide StateFits, AllPendingFit, AllAnswersFit, HandleRefreshSuccess, HandleRefreshFailure;
  }

  lemma SetCredentialFits(s: System, c: Option<Credential>)
    requires Fits(s)
    ensures Fits(Next(s, SetCredential(c)))
  {
    FitsLater(s, s.submitted, s.history.(trail := s.history.trail + [c]));
    hide BlockFits, AllPendingFit, AllAnswersFit;
  }

  /** What is left of the head of the queue fits, and so does what it hands out. */
  lemma HeadFits(s: System, b: Block)
    requires Fits(s) && s.state.queue != [] && BlockFits(s.submitted, s.history, b)
    ensures StateFits(s.submitted, s.history, s.state.(queue := [b] + s.state.queue[1..]))
    ensures StateFits(s.submitted, s.history, s.state.(queue := s.state.queue[1..]))
    ensures BlockFits(s.submitted, s.history, s.state.queue[0])
  {
    hide BlockFits, AllPendingFit, AllAnswersFit;
  }

  lemma RunBlockFits(s: System, requiresRefresh: bool, t1: real, t2: real)
    requires Fits(s) && s.state.queue != []
    ensures Fits(QueueStep(s, requiresRefresh, t1, t2))
  {
    var b := s.state.queue[0];
    assert BlockFits(s.submitted, s.history, b) by { hide BlockFits; }
    match b {
      case CallRefresh(_) =>
        HeadFits(s, b);
        hide StateFits, BlockFits, AllPendingFit, AllAnswersFit;
      case Readapt(ops, retries) => ReadaptFits(s, ops, retries, requiresRefresh, t1, t2);
      case FailAll(e, ops, retries) => FailAllFits(s, e, ops, retries, requiresRefresh, t1, t2);
    }
  }

  lemma ReadaptFits(s: System, ops: seq<Completion>, retries: seq<Completion>, requiresRefresh: bool, t1: real, t2: real)
    requires Fits(s) && s.state.queue != [] && s.state.queue[0] == Readapt(ops, retries)
    requires AllAdapts(s.history, ops) && AllRetries(s.submitted, s.history, retries)
    ensures Fits(QueueStep(s, requiresRefresh, t1, t2))
  {
    if ops != [] {
      var left := Readapt(ops[1..], retries);
      HeadFits(s, left);
      AdaptFits(s.submitted, s.history, s.state.(queue := [left] + s.state.queue[1..]), ops[0], requiresRefresh, t1, t2);
      hide StateFits, AllAnswersFit, PendingFits, AdaptLocked, Returned;
    } else if retries != [] {
      HeadFits(s, Readapt([], retries[1..]));
      assert AnswerFits(s.submitted, s.history, retries[0], Retry);
      hide StateFits, AllPendingFit, AnswerFits;
    } else {
      HeadFits(s, Readapt([], []));
      hide StateFits, AllPendingFit, AllAnswersFit;
    }
  }

  lemma FailAllFits(s: System, e: AuthError, ops: seq<Completion>, retries: seq<Completion>, requiresRefresh: bool, t1: real, t2: real)
    requires Fits(s) && s.state.queue != [] && s.state.queue[0] == FailAll(e, ops, retries)
    requires Real(s.history, e) && AllAdapts(s.history, ops) && AllRetries(s.submitted, s.history, retries)
    ensures Fits(QueueStep(s, requiresRefresh, t1, t2))
  {
    if ops != [] {
      HeadFits(s, FailAll(e, ops[1..], retries));
      assert AnswerFits(s.submitted, s.history, ops[0], AdaptFailed(e));
      hide StateFits, AllPendingFit, AnswerFits;
    } else if retries != [] {
      HeadFits(s, FailAll(e, [], retries[1..]));
      assert AnswerFits(s.submitted, s.history, retries[0], DoNotRetryWithError(e));
      hide StateFits, AllPendingFit, AnswerFits;
    } else {
      HeadFits(s, FailAll(e, [], []));
      hide StateFits, AllPendingFit, AllAnswersFit;
    }
  }

  lemma StepFits(s: System, e: Event)
    requires Fits(s) && Enabled(s, e)
    ensures Fits(Next(s, e))
  {
    hide Fits;
    match e {
      case CallAdapt(op, requiresRefresh, t1, t2) => CallAdaptFits(s, op, requiresRefresh, t1, t2);
      case ReturnAdapt(k) => ReturnAdaptFits(s, k);
      case CallRetry(completion, facts) => CallRetryFits(s, completion, facts);
      case LockRetry(k, t1, t2) => LockRetryFits(s, k, t1, t2);
      case RunBlock(requiresRefresh, t1, t2) => RunBlockFits(s, requiresRefresh, t1, t2);
      case AnswerRefresh(result) => AnswerRefreshFits(s, result);
      case SetCredential(c) => SetCredentialFits(s, c);
    }
  }

  lemma {:induction false} RunFits(s: System, es: seq<Event>)
    requires Fits(s)
    ensures Fits(Run(s, es))
    decreases |es|
  {
    if es != [] {
      if Enabled(s, es[0]) { StepFits(s, es[0]); }
      hide Fits, Next, Enabled;
      RunFits(if Enabled(s, es[0]) then Next(s, es[0]) else s, es[1..]);
    }
  }

  /**
    In every run, a completion of `adapt` is told either a credential that the interceptor has held or an
    error, a completion of `retry` whether to retry, never the other way round; and a refresh error is told
    only if a refresh has failed with it.
   */
  lemma AnswersFit(c: Option<Credential>, w: Option<RefreshWindow>, now: real, es: seq<Event>)
    ensures var s := Run(Initial(c, w, now), es);
            forall x <- s.answered :: AnswerFits(s.submitted, s.history, x.0, x.1)
  {
    RunFits(Initial(c, w, now), es);
    hide Run, AnswerFits;
  }
}

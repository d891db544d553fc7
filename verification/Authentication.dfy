/**
  The credential refresh protocol of `AuthenticationInterceptor`: its lock-protected state, what each lock
  section does to it, and the system of threads, queued blocks and refresh calls around it.
 */
module Authentication {
  import opened Options

  /** A completion closure handed to `adapt` or `retry`. */
  type Completion = nat

  type Credential = nat

  datatype AuthError = MissingCredential | ExcessiveRefresh | RefreshFailed(code: int)

  /** What a completion is called with. */
  datatype Answer = Adapted(c: Credential) | AdaptFailed(e: AuthError) | Retry | DoNotRetry | DoNotRetryWithError(e: AuthError)

  datatype RefreshWindow = RefreshWindow(interval: real, maximumAttempts: int)

  /** A block dispatched to the interceptor's serial queue. */
  datatype Block =
    | CallRefresh(c: Credential)
    | Readapt(ops: seq<Completion>, retries: seq<Completion>)
    | FailAll(e: AuthError, ops: seq<Completion>, retries: seq<Completion>)

  /** `MutableState`, with the blocks dispatched from inside the lock. */
  datatype State = State(
    credential: Option<Credential>,
    isRefreshing: bool,
    refreshTimestamps: seq<real>,
    refreshWindow: Option<RefreshWindow>,
    adaptOperations: seq<Completion>,
    requestsToRetry: seq<Completion>,
    queue: seq<Block>)

  datatype AdaptResult = Adapt(c: Credential) | DoNotAdapt(e: AuthError) | AdaptDeferred

  // ----- Lock sections -----

  /** How many timestamps are not older than `since`. */
  function CountSince(ts: seq<real>, since: real): (n: nat)
    ensures n <= |ts|
  {
    if ts == [] then 0
    else CountSince(ts[..|ts| - 1], since) + (if since <= ts[|ts| - 1] then 1 else 0)
  }

  predicate IsRefreshExcessive(s: State, now: real) {
    match s.refreshWindow
    case None => false
    case Some(w) => CountSince(s.refreshTimestamps, now - w.interval) >= w.maximumAttempts
  }

  function HandleRefreshSuccess(s: State, c: Credential): State {
    s.(credential := Some(c), adaptOperations := [], requestsToRetry := [], isRefreshing := false,
       queue := s.queue + [Readapt(s.adaptOperations, s.requestsToRetry)])
  }

  function HandleRefreshFailure(s: State, e: AuthError): State {
    s.(adaptOperations := [], requestsToRetry := [], isRefreshing := false,
       queue := s.queue + [FailAll(e, s.adaptOperations, s.requestsToRetry)])
  }

  /** `refresh`, reading the clock once for the check and once for the record. */
  function Refresh(s: State, c: Credential, checkTime: real, recordTime: real): State {
    if IsRefreshExcessive(s, checkTime) then HandleRefreshFailure(s, ExcessiveRefresh)
    else s.(refreshTimestamps := s.refreshTimestamps + [recordTime], isRefreshing := true,
            queue := s.queue + [CallRefresh(c)])
  }

  function AdaptLocked(s: State, op: Completion, requiresRefresh: bool, checkTime: real, recordTime: real): (State, AdaptResult) {
    if s.isRefreshing then (s.(adaptOperations := s.adaptOperations + [op]), AdaptDeferred)
    else
      match s.credential
      case None => (s, DoNotAdapt(MissingCredential))
      case Some(c) =>
        if requiresRefresh then
          (Refresh(s.(adaptOperations := s.adaptOperations + [op]), c, checkTime, recordTime), AdaptDeferred)
        else (s, Adapt(c))
  }

  /** The lock section of `retry`; `c` was read before the lock was taken. */
  function RetryLocked(s: State, completion: Completion, c: Credential, checkTime: real, recordTime: real): State {
    var s' := s.(requestsToRetry := s.requestsToRetry + [completion]);
    if s.isRefreshing then s' else Refresh(s', c, checkTime, recordTime)
  }

  // ----- The interceptor object -----

  class AuthenticationInterceptor {
    var credential: Option<Credential>
    var isRefreshing: bool
    var refreshTimestamps: seq<real>
    var refreshWindow: Option<RefreshWindow>
    var adaptOperations: seq<Completion>
    var requestsToRetry: seq<Completion>
    var queue: seq<Block>

    function Abs(): State
      reads this
    {
      State(credential, isRefreshing, refreshTimestamps, refreshWindow, adaptOperations, requestsToRetry, queue)
    }

    constructor (credential: Option<Credential>, refreshWindow: Option<RefreshWindow>)
      ensures Abs() == State(credential, false, [], refreshWindow, [], [], [])
    {
      this.credential := credential;
      this.isRefreshing := false;
      this.refreshTimestamps := [];
      this.refreshWindow := refreshWindow;
      this.adaptOperations := [];
      this.requestsToRetry := [];
      this.queue := [];
    }

    /** `isRefreshExcessive`: counts the attempts inside the window that ends now. */
    method CheckExcessive(now: real) returns (excessive: bool)
      ensures excessive == IsRefreshExcessive(Abs(), now)
    {
      if refreshWindow.None? {
        return false;
      }
      var window := refreshWindow.value;
      var windowMin := now - window.interval;
      var attempts := 0;
      for i := 0 to |refreshTimestamps|
        invariant attempts == CountSince(refreshTimestamps[..i], windowMin)
      {
        assert refreshTimestamps[..i + 1][..i] == refreshTimestamps[..i];
        if windowMin <= refreshTimestamps[i] {
          attempts := attempts + 1;
        }
      }
      assert refreshTimestamps[..|refreshTimestamps|] == refreshTimestamps;
      excessive := attempts >= window.maximumAttempts;
    }

    method OnRefreshSuccess(c: Credential)
      modifies this
      ensures Abs() == HandleRefreshSuccess(old(Abs()), c)
    {
      credential := Some(c);
      var ops, retries := adaptOperations, requestsToRetry;
      adaptOperations := [];
      requestsToRetry := [];
      isRefreshing := false;
      queue := queue + [Readapt(ops, retries)];
    }

    method OnRefreshFailure(e: AuthError)
      modifies this
      ensures Abs() == HandleRefreshFailure(old(Abs()), e)
    {
      var ops, retries := adaptOperations, requestsToRetry;
      adaptOperations := [];
      requestsToRetry := [];
      isRefreshing := false;
      queue := queue + [FailAll(e, ops, retries)];
    }

    method StartRefresh(c: Credential, checkTime: real, recordTime: real)
      modifies this
      ensures Abs() == Refresh(old(Abs()), c, checkTime, recordTime)
    {
      var excessive := CheckExcessive(checkTime);
      if excessive {
        OnRefreshFailure(ExcessiveRefresh);
        return;
      }
      refreshTimestamps := refreshTimestamps + [recordTime];
      isRefreshing := true;
      queue := queue + [CallRefresh(c)];
    }

    /** The lock section of `adapt`. */
    method BeginAdapt(op: Completion, requiresRefresh: bool, checkTime: real, recordTime: real) returns (r: AdaptResult)
      modifies this
      ensures (Abs(), r) == AdaptLocked(old(Abs()), op, requiresRefresh, checkTime, recordTime)
    {
      if isRefreshing {
        adaptOperations := adaptOperations + [op];
        return AdaptDeferred;
      }
      if credential.None? {
        return DoNotAdapt(MissingCredential);
      }
      var c := credential.value;
      if requiresRefresh {
        adaptOperations := adaptOperations + [op];
        StartRefresh(c, checkTime, recordTime);
        return AdaptDeferred;
      }
      r := Adapt(c);
    }

    /** The lock section of `retry`. */
    method EnqueueRetry(completion: Completion, c: Credential, checkTime: real, recordTime: real)
      modifies this
      ensures Abs() == RetryLocked(old(Abs()), completion, c, checkTime, recordTime)
    {
      requestsToRetry := requestsToRetry + [completion];
      if isRefreshing {
        return;
      }
      StartRefresh(c, checkTime, recordTime);
    }
  }
}

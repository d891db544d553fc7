/**
  The response-serializer pipeline of `Request`: the lock sections that register handlers, hand out the next
  serializer and collect completions, and the request object that runs them.
 */
module RequestPipeline {
  import opened Options

  /** A registered response handler. */
  type Handler = nat

  /** The closure a serializer hands over: its handler, with the response of the given pass. */
  datatype Completion = Completion(handler: Handler, pass: nat)

  datatype State = Initialized | Resumed | Suspended | Cancelled | Finished {
    predicate CanTransitionTo(to: State) {
      match (this, to)
      case (Initialized, _) => true
      case (_, Initialized) => false
      case (Cancelled, _) => false
      case (Finished, _) => false
      case (Resumed, Cancelled) => true
      case (Suspended, Cancelled) => true
      case (Resumed, Suspended) => true
      case (Suspended, Resumed) => true
      case (Suspended, Suspended) => false
      case (Resumed, Resumed) => false
      case (_, Finished) => true
    }
  }

  /** The part of `MutableState` that the pipeline uses. */
  datatype MutableState = MutableState(
    state: State,
    serializers: seq<Handler>,
    completions: seq<Completion>,
    processingFinished: bool,
    isFinishing: bool,
    retryCount: nat)

  // ----- Lock sections -----

  function MoveTo(m: MutableState, to: State): MutableState {
    if m.state.CanTransitionTo(to) then m.(state := to) else m
  }

  function AppendSerializer(m: MutableState, h: Handler): MutableState {
    m.(serializers := m.serializers + [h], state := if m.state.Finished? then Resumed else m.state)
  }

  /** The serializer after those whose completions are in. */
  function NextSerializer(m: MutableState): Option<Handler> {
    if |m.completions| < |m.serializers| then Some(m.serializers[|m.completions|]) else None
  }

  function Drain(m: MutableState): MutableState {
    MoveTo(m, Finished).(serializers := [], completions := [], processingFinished := true, isFinishing := false)
  }

  function AddCompletion(m: MutableState, c: Completion): MutableState {
    m.(completions := m.completions + [c])
  }

  function Reset(m: MutableState): MutableState {
    m.(isFinishing := false, completions := [])
  }

  /** No transition leaves a cancelled or finished request, and none goes back to the start. */
  lemma TransitionsAreOrdered(from: State, to: State)
    ensures from.CanTransitionTo(to) <==>
            from == Initialized || (from in {Resumed, Suspended} && to != Initialized && to != from)
  {
  }

  /** A request moves exactly when the transition is allowed, and changes nothing else. */
  lemma MovesExactly(m: MutableState, to: State)
    ensures var allowed := m.state == Initialized || (m.state in {Resumed, Suspended} && to != Initialized && to != m.state);
            MoveTo(m, to) == MutableState(if allowed then to else m.state, m.serializers, m.completions,
                                          m.processingFinished, m.isFinishing, m.retryCount)
  {
    TransitionsAreOrdered(m.state, to);
  }

  /** What a transition does besides changing the state: blocks dispatched, and calls on the last task. */
  datatype Effect = DispatchDid(to: State) | DispatchDidTask(to: State) | DispatchFinish | ResumeTask | SuspendTask | CancelTask

  /** A running task follows the request, and is resumed before it is cancelled; without one, cancelling finishes. */
  function TransitionEffects(to: State, taskRunning: bool): seq<Effect> {
    if !taskRunning then [DispatchDid(to)] + (if to == Cancelled then [DispatchFinish] else [])
    else
      [DispatchDid(to)]
      + (match to case Suspended => [SuspendTask] case Cancelled => [ResumeTask, CancelTask] case _ => [ResumeTask])
      + [DispatchDidTask(to)]
  }

  /** Whether an effect takes place before another. */
  predicate TakesPlaceBefore(effects: seq<Effect>, first: Effect, second: Effect) {
    exists i, j :: 0 <= i < j < |effects| && effects[i] == first && effects[j] == second
  }

  /**
    The request is told first, then its task, and the handlers of the task last. A task that runs is resumed before it
    is cancelled; without one, cancelling goes straight on to finishing.
   */
  lemma EffectsInOrder(to: State, taskRunning: bool)
    requires to in {Resumed, Suspended, Cancelled}
    ensures TransitionEffects(Cancelled, true) == [DispatchDid(Cancelled), ResumeTask, CancelTask, DispatchDidTask(Cancelled)]
    ensures TransitionEffects(Suspended, true) == [DispatchDid(Suspended), SuspendTask, DispatchDidTask(Suspended)]
    ensures TransitionEffects(Resumed, true) == [DispatchDid(Resumed), ResumeTask, DispatchDidTask(Resumed)]
    ensures TransitionEffects(Cancelled, false) == [DispatchDid(Cancelled), DispatchFinish]
    ensures to != Cancelled ==> TransitionEffects(to, false) == [DispatchDid(to)]
    ensures TakesPlaceBefore(TransitionEffects(Cancelled, true), ResumeTask, CancelTask)
    ensures taskRunning ==> TakesPlaceBefore(TransitionEffects(to, taskRunning), DispatchDid(to), DispatchDidTask(to))
  {
    var es := TransitionEffects(Cancelled, true);
    assert es[1] == ResumeTask && es[2] == CancelTask;
    var all := TransitionEffects(to, taskRunning);
    assert all[0] == DispatchDid(to);
    assert taskRunning ==> all[|all| - 1] == DispatchDidTask(to) && |all| > 1;
  }

  // ----- The request object -----

  /** What `processNextResponseSerializer` leads to. */
  datatype Processed = StartSerializer(h: Handler) | CallCompletions(cs: seq<Completion>)

  class Request {
    var state: State
    var serializers: seq<Handler>
    var completions: seq<Completion>
    var processingFinished: bool
    var isFinishing: bool
    var retryCount: nat

    function Abs(): MutableState
      reads this
    {
      MutableState(state, serializers, completions, processingFinished, isFinishing, retryCount)
    }

    constructor ()
      ensures Abs() == MutableState(Initialized, [], [], false, false, 0)
    {
      state := Initialized;
      serializers, completions := [], [];
      processingFinished, isFinishing := false, false;
      retryCount := 0;
    }

    /** `appendResponseSerializer`; says whether to process serializers again, and whether to resume. */
    method AppendResponseSerializer(h: Handler) returns (process: bool, resume: bool)
      modifies this
      ensures Abs() == AppendSerializer(old(Abs()), h)
      ensures process == old(processingFinished)
      ensures resume == state.CanTransitionTo(Resumed)
    {
      serializers := serializers + [h];
      if state == Finished {
        state := Resumed;
      }
      process := processingFinished;
      resume := state.CanTransitionTo(Resumed);
    }

    method NextResponseSerializer() returns (next: Option<Handler>)
      ensures next == NextSerializer(Abs())
    {
      next := None;
      var index := |completions|;
      if index < |serializers| {
        next := Some(serializers[index]);
      }
    }

    /** The lock section that empties the pipeline. */
    method TakeCompletions() returns (cs: seq<Completion>)
      modifies this
      ensures cs == old(completions) && Abs() == Drain(old(Abs()))
    {
      cs := completions;
      serializers := [];
      completions := [];
      if state.CanTransitionTo(Finished) {
        state := Finished;
      }
      processingFinished := true;
      isFinishing := false;
    }

    /** `processNextResponseSerializer`, when no other thread comes between its two lock sections. */
    method ProcessNextResponseSerializer() returns (r: Processed)
      modifies this
      ensures NextSerializer(old(Abs())).Some? ==>
                r == StartSerializer(NextSerializer(old(Abs())).value) && Abs() == old(Abs())
      ensures NextSerializer(old(Abs())).None? ==>
                r == CallCompletions(old(completions)) && Abs() == Drain(old(Abs()))
    {
      var next := NextResponseSerializer();
      if next.None? {
        var cs := TakeCompletions();
        return CallCompletions(cs);
      }
      r := StartSerializer(next.value);
    }

    method ResponseSerializerDidComplete(c: Completion) returns (r: Processed)
      modifies this
      ensures var m := AddCompletion(old(Abs()), c);
              && (NextSerializer(m).Some? ==> r == StartSerializer(NextSerializer(m).value) && Abs() == m)
              && (NextSerializer(m).None? ==> r == CallCompletions(m.completions) && Abs() == Drain(m))
    {
      completions := completions + [c];
      r := ProcessNextResponseSerializer();
    }

    /** `finish`: does nothing while the request is finishing. */
    method Finish() returns (r: Option<Processed>)
      modifies this
      ensures r.None? <==> old(isFinishing)
      ensures r.None? ==> Abs() == old(Abs())
      ensures r.Some? ==>
                var m := old(Abs()).(isFinishing := true);
                && (NextSerializer(m).Some? ==> r.value == StartSerializer(NextSerializer(m).value) && Abs() == m)
                && (NextSerializer(m).None? ==> r.value == CallCompletions(m.completions) && Abs() == Drain(m))
    {
      if isFinishing {
        return None;
      }
      isFinishing := true;
      var processed := ProcessNextResponseSerializer();
      r := Some(processed);
    }

    /** `prepareForRetry`, with the reset it calls. */
    method PrepareForRetry()
      modifies this
      ensures Abs() == Reset(old(Abs()).(retryCount := old(retryCount) + 1))
    {
      retryCount := retryCount + 1;
      isFinishing := false;
      completions := [];
    }

    /** `resume`, `suspend` and `cancel`; `taskRunning` says that there is a last task and that it is not completed. */
    method Transition(to: State, taskRunning: bool) returns (moved: bool, effects: seq<Effect>)
      requires to in {Resumed, Suspended, Cancelled}
      modifies this
      ensures moved == old(state).CanTransitionTo(to) && Abs() == MoveTo(old(Abs()), to)
      ensures effects == if moved then TransitionEffects(to, taskRunning) else []
    {
      if !state.CanTransitionTo(to) {
        return false, [];
      }
      state := to;
      moved, effects := true, [DispatchDid(to)];
      if !taskRunning {
        if to == Cancelled {
          effects := effects + [DispatchFinish];
        }
        return;
      }
      match to {
        case Suspended => effects := effects + [SuspendTask];
        case Cancelled => effects := effects + [ResumeTask, CancelTask];
        case _ => effects := effects + [ResumeTask];
      }
      effects := effects + [DispatchDidTask(to)];
    }
  }
}

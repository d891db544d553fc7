/**
  The retries of a request: every answer of a retrier has its effect, and nothing else has it. Told by counting the
  steps of a run, whatever the interleaving.
 */
module RequestRetries {
  import opened Counting
  import opened RequestPipeline
  import opened RequestRuns

  /** What happens when a step is taken: which activity takes it, and what it is told. */
  datatype Happening = Happening(a: Activity, failed: bool, retry: bool)

  predicate LoadFails(h: Happening) { h.a.Loading? && h.failed }
  predicate LoadSucceeds(h: Happening) { h.a.Loading? && !h.failed }
  predicate TaskRetrierAnswers(h: Happening) { h.a.TaskRetrierAsked? }
  predicate ParseFails(h: Happening) { h.a.Parsed? && h.failed }
  predicate ParseSucceeds(h: Happening) { h.a.Parsed? && !h.failed }
  predicate SerializerRetrierAnswers(h: Happening) { h.a.SerializerRetrierAsked? }
  predicate Loads(h: Happening) { h.a.Loading? }
  predicate Finishes(h: Happening) { h.a.Finishing? }
  predicate Completes(h: Happening) { h.a.Completing? }

  /** A retrier, of the task or of a serializer, says to retry, or not to. */
  predicate SaysRetry(h: Happening) { (h.a.TaskRetrierAsked? || h.a.SerializerRetrierAsked?) && h.retry }
  predicate TaskRetrierRefuses(h: Happening) { h.a.TaskRetrierAsked? && !h.retry }
  predicate SerializerRetrierRefuses(h: Happening) { h.a.SerializerRetrierAsked? && !h.retry }

  /** What happens in a run. */
  function Happenings(s: System, es: seq<Event>): seq<Happening>
    decreases |es|
  {
    if es == [] then []
    else if !Enabled(s, es[0]) then Happenings(s, es[1..])
    else HappeningOf(s, es[0]) + Happenings(Next(s, es[0]), es[1..])
  }

  function HappeningOf(s: System, e: Event): seq<Happening>
    requires Enabled(s, e)
  {
    if e.Step? then [Happening(s.activities[e.k], e.failed, e.retry)] else []
  }

  // ----- The balances -----

  predicate IsRetryDispatched(a: Activity) { a.RetryDispatched? }
  predicate IsTaskRetrierAsked(a: Activity) { a.TaskRetrierAsked? }
  predicate IsSerializerRetrierAsked(a: Activity) { a.SerializerRetrierAsked? }
  predicate IsLoading(a: Activity) { a.Loading? || a.Resetting? }
  predicate IsFinishing(a: Activity) { a.Finishing? }
  predicate IsCompleting(a: Activity) { a.Completing? }

  /** Each retry that was called for has been counted, or is dispatched. */
  predicate RetriesBalance(s: System, hs: seq<Happening>) {
    s.request.retryCount + Count(s.activities, IsRetryDispatched) == Count(hs, SaysRetry)
  }

  /** The request is loaded once, and once more for each retry counted. */
  predicate LoadsBalance(s: System, hs: seq<Happening>) {
    Count(hs, Loads) + Count(s.activities, IsLoading) == 1 + s.request.retryCount
  }

  /** The task's retrier is asked about each load that fails, and about no other. */
  predicate FailuresBalance(s: System, hs: seq<Happening>) {
    Count(hs, LoadFails) == Count(hs, TaskRetrierAnswers) + Count(s.activities, IsTaskRetrierAsked)
  }

  /** The request finishes loading when a load succeeds, or fails and is not to be retried. */
  predicate FinishesBalance(s: System, hs: seq<Happening>) {
    Count(hs, LoadSucceeds) + Count(hs, TaskRetrierRefuses) == Count(hs, Finishes) + Count(s.activities, IsFinishing)
  }

  /** A serializer's retrier is asked about each serializer that fails, and about no other. */
  predicate ParsesBalance(s: System, hs: seq<Happening>) {
    Count(hs, ParseFails) == Count(hs, SerializerRetrierAnswers) + Count(s.activities, IsSerializerRetrierAsked)
  }

  /** A serializer completes when it succeeds, or fails and is not to be retried. */
  predicate CompletionsBalance(s: System, hs: seq<Happening>) {
    Count(hs, ParseSucceeds) + Count(hs, SerializerRetrierRefuses) == Count(hs, Completes) + Count(s.activities, IsCompleting)
  }

  predicate Balanced(s: System, hs: seq<Happening>) {
    && RetriesBalance(s, hs) && LoadsBalance(s, hs) && FailuresBalance(s, hs)
    && FinishesBalance(s, hs) && ParsesBalance(s, hs) && CompletionsBalance(s, hs)
  }

  /** How a step changes one count of activities, and one of happenings. */
  lemma StepCounts(s: System, e: Event, hs: seq<Happening>, p: Activity -> bool, q: Happening -> bool)
    requires e.Step? && e.k < |s.activities|
    ensures var a := s.activities[e.k]; var next := Advance(s.request, a, e.failed, e.retry).1;
            && |next| <= 1
            && Count(Next(s, e).activities, p) + (if p(a) then 1 else 0) ==
               Count(s.activities, p) + (if next != [] && p(next[0]) then 1 else 0)
            && Count(hs + HappeningOf(s, e), q) ==
               Count(hs, q) + (if q(Happening(a, e.failed, e.retry)) then 1 else 0)
  {
    hide Count;
    var a := s.activities[e.k];
    var next := Advance(s.request, a, e.failed, e.retry).1;
    CountReplaced(s.activities, e.k, next, p);
    if next != [] {
      CountOne(next[0], p);
      assert next == [next[0]];
    } else {
      CountOne(a, p);
    }
    CountBoth(hs, HappeningOf(s, e), q);
    CountOne(Happening(a, e.failed, e.retry), q);
  }

  /** What leads to a retry, to a load, and to a count. */
  lemma AdvanceRetries(m: MutableState, a: Activity, failed: bool, retry: bool)
    ensures var (m', next, _) := Advance(m, a, failed, retry);
            && m'.retryCount == m.retryCount + (if a.RetryDispatched? then 1 else 0)
            && (next != [] && IsRetryDispatched(next[0]) <==> SaysRetry(Happening(a, failed, retry)))
            && (next != [] && IsLoading(next[0]) <==> a.RetryDispatched? || a.Resetting?)
  {
    hide NextSerializer;
  }

  /** What leads to the other activities that are counted. */
  lemma AdvanceKinds(m: MutableState, a: Activity, failed: bool, retry: bool)
    ensures var next, h := Advance(m, a, failed, retry).1, Happening(a, failed, retry);
            && (next != [] && IsTaskRetrierAsked(next[0]) <==> LoadFails(h))
            && (next != [] && IsFinishing(next[0]) <==> LoadSucceeds(h) || TaskRetrierRefuses(h))
            && (next != [] && IsSerializerRetrierAsked(next[0]) <==> ParseFails(h))
            && (next != [] && IsCompleting(next[0]) <==> ParseSucceeds(h) || SerializerRetrierRefuses(h))
  {
    hide NextSerializer;
  }

  lemma StepRetryCount(s: System, e: Event)
    requires e.Step? && e.k < |s.activities|
    ensures Next(s, e).request == Advance(s.request, s.activities[e.k], e.failed, e.retry).0
  {
    hide Advance;
  }

  lemma RetriesStep(s: System, e: Event, hs: seq<Happening>)
    requires e.Step? && e.k < |s.activities| && RetriesBalance(s, hs)
    ensures RetriesBalance(Next(s, e), hs + HappeningOf(s, e))
  {
    StepCounts(s, e, hs, IsRetryDispatched, SaysRetry);
    StepRetryCount(s, e);
    AdvanceRetries(s.request, s.activities[e.k], e.failed, e.retry);
    hide Count, HappeningOf, Next, Advance, SaysRetry;
  }

  lemma LoadsStep(s: System, e: Event, hs: seq<Happening>)
    requires e.Step? && e.k < |s.activities| && LoadsBalance(s, hs)
    ensures LoadsBalance(Next(s, e), hs + HappeningOf(s, e))
  {
    StepCounts(s, e, hs, IsLoading, Loads);
    StepRetryCount(s, e);
    AdvanceRetries(s.request, s.activities[e.k], e.failed, e.retry);
    hide Count, HappeningOf, Next, Advance;
  }

  lemma FailuresStep(s: System, e: Event, hs: seq<Happening>)
    requires e.Step? && e.k < |s.activities| && FailuresBalance(s, hs)
    ensures FailuresBalance(Next(s, e), hs + HappeningOf(s, e))
  {
    StepCounts(s, e, hs, IsTaskRetrierAsked, LoadFails);
    StepCounts(s, e, hs, IsTaskRetrierAsked, TaskRetrierAnswers);
    AdvanceKinds(s.request, s.activities[e.k], e.failed, e.retry);
    hide Count, HappeningOf, Next, Advance;
  }

  lemma FinishesStep(s: System, e: Event, hs: seq<Happening>)
    requires e.Step? && e.k < |s.activities| && FinishesBalance(s, hs)
    ensures FinishesBalance(Next(s, e), hs + HappeningOf(s, e))
  {
    StepCounts(s, e, hs, IsFinishing, LoadSucceeds);
    StepCounts(s, e, hs, IsFinishing, TaskRetrierRefuses);
    StepCounts(s, e, hs, IsFinishing, Finishes);
    AdvanceKinds(s.request, s.activities[e.k], e.failed, e.retry);
    hide Count, HappeningOf, Next, Advance;
  }

  lemma ParsesStep(s: System, e: Event, hs: seq<Happening>)
    requires e.Step? && e.k < |s.activities| && ParsesBalance(s, hs)
    ensures ParsesBalance(Next(s, e), hs + HappeningOf(s, e))
  {
    StepCounts(s, e, hs, IsSerializerRetrierAsked, ParseFails);
    StepCounts(s, e, hs, IsSerializerRetrierAsked, SerializerRetrierAnswers);
    AdvanceKinds(s.request, s.activities[e.k], e.failed, e.retry);
    hide Count, HappeningOf, Next, Advance;
  }

  lemma CompletionsStep(s: System, e: Event, hs: seq<Happening>)
    requires e.Step? && e.k < |s.activities| && CompletionsBalance(s, hs)
    ensures CompletionsBalance(Next(s, e), hs + HappeningOf(s, e))
  {
    StepCounts(s, e, hs, IsCompleting, ParseSucceeds);
    StepCounts(s, e, hs, IsCompleting, SerializerRetrierRefuses);
    StepCounts(s, e, hs, IsCompleting, Completes);
    AdvanceKinds(s.request, s.activities[e.k], e.failed, e.retry);
    hide Count, HappeningOf, Next, Advance;
  }

  lemma EventBalanced(s: System, e: Event, hs: seq<Happening>)
    requires Enabled(s, e) && Balanced(s, hs)
    ensures Balanced(Next(s, e), hs + HappeningOf(s, e))
  {
    if e.Step? {
      RetriesStep(s, e, hs);
      LoadsStep(s, e, hs);
      FailuresStep(s, e, hs);
      FinishesStep(s, e, hs);
      ParsesStep(s, e, hs);
      CompletionsStep(s, e, hs);
      hide RetriesBalance, LoadsBalance, FailuresBalance, FinishesBalance, ParsesBalance, CompletionsBalance, Next, HappeningOf;
    } else {
      assert hs + HappeningOf(s, e) == hs;
      if Next(s, e).activities != s.activities { ProcessingAdded(s.activities); }
      hide Count;
    }
  }

  /** A handler registered after the end has the serializers processed again, which counts for nothing here. */
  lemma ProcessingAdded(xs: seq<Activity>)
    ensures Count(xs + [Processing], IsRetryDispatched) == Count(xs, IsRetryDispatched)
    ensures Count(xs + [Processing], IsLoading) == Count(xs, IsLoading)
    ensures Count(xs + [Processing], IsTaskRetrierAsked) == Count(xs, IsTaskRetrierAsked)
    ensures Count(xs + [Processing], IsFinishing) == Count(xs, IsFinishing)
    ensures Count(xs + [Processing], IsSerializerRetrierAsked) == Count(xs, IsSerializerRetrierAsked)
    ensures Count(xs + [Processing], IsCompleting) == Count(xs, IsCompleting)
  {
    CountBoth(xs, [Processing], IsRetryDispatched);
    CountBoth(xs, [Processing], IsLoading);
    CountBoth(xs, [Processing], IsTaskRetrierAsked);
    CountBoth(xs, [Processing], IsFinishing);
    CountBoth(xs, [Processing], IsSerializerRetrierAsked);
    CountBoth(xs, [Processing], IsCompleting);
    CountOne(Processing, IsRetryDispatched);
    CountOne(Processing, IsLoading);
    CountOne(Processing, IsTaskRetrierAsked);
    CountOne(Processing, IsFinishing);
    CountOne(Processing, IsSerializerRetrierAsked);
    CountOne(Processing, IsCompleting);
    hide Count;
  }

  lemma {:induction false} RunBalanced(s: System, es: seq<Event>, hs: seq<Happening>)
    requires Balanced(s, hs)
    ensures Balanced(Run(s, es), hs + Happenings(s, es))
    decreases |es|
  {
    hide Balanced, Next, Enabled, HappeningOf;
    if es == [] {
      assert hs + Happenings(s, es) == hs;
    } else if Enabled(s, es[0]) {
      EventBalanced(s, es[0], hs);
      RunBalanced(Next(s, es[0]), es[1..], hs + HappeningOf(s, es[0]));
      assert hs + HappeningOf(s, es[0]) + Happenings(Next(s, es[0]), es[1..]) == hs + Happenings(s, es);
    } else {
      RunBalanced(s, es[1..], hs);
    }
  }

  lemma StartBalanced()
    ensures Balanced(START, [])
  {
    assert START.activities == [Loading];
    CountOne(Loading, IsRetryDispatched);
    CountOne(Loading, IsLoading);
    CountOne(Loading, IsTaskRetrierAsked);
    CountOne(Loading, IsFinishing);
    CountOne(Loading, IsSerializerRetrierAsked);
    CountOne(Loading, IsCompleting);
  }

  /**
    In every run, with whatever handlers registered at whatever time: each time a retrier says to retry, the request
    is retried, and no other time; it is loaded once and once more for each retry; a retrier is asked about exactly
    the loads and the serializers that fail; and loading or serializing goes on exactly after a success and after a
    failure that is not to be retried.
   */
  lemma RetriesFollowAnswers(es: seq<Event>)
    ensures var s, hs := Run(START, es), Happenings(START, es);
            && s.request.retryCount + Count(s.activities, IsRetryDispatched) == Count(hs, SaysRetry)
            && Count(hs, Loads) + Count(s.activities, IsLoading) == 1 + s.request.retryCount
            && Count(hs, LoadFails) == Count(hs, TaskRetrierAnswers) + Count(s.activities, IsTaskRetrierAsked)
            && Count(hs, LoadSucceeds) + Count(hs, TaskRetrierRefuses) == Count(hs, Finishes) + Count(s.activities, IsFinishing)
            && Count(hs, ParseFails) == Count(hs, SerializerRetrierAnswers) + Count(s.activities, IsSerializerRetrierAsked)
            && Count(hs, ParseSucceeds) + Count(hs, SerializerRetrierRefuses) == Count(hs, Completes) + Count(s.activities, IsCompleting)
  {
    StartBalanced();
    RunBalanced(START, es, []);
    assert [] + Happenings(START, es) == Happenings(START, es);
    hide Run, Happenings, Count;
  }

  /**
    In every run, the completions called are a prefix of one completion for each handler registered on time, in the
    order of registration and with the response of the pass that the retriers have asked for; once nothing is in
    flight they are all of them, and the request is finished. A handler registered after the pipeline was found empty,
    but before it was emptied, is in neither.
   */
  lemma HandlersCalledOnceInOrder(es: seq<Event>)
    requires NoneAfterFinish(START, es)
    ensures var s := Run(START, es); var expected := AllOf(OnTime(s.registered), Count(Happenings(START, es), SaysRetry));
            && s.called <= expected
            && (s.activities == [] ==> s.called == expected && s.request.state == Finished)
  {
    RetriesFollowAnswers(es);
    HandlersInOrder(es);
    RunKeeps(START, es);
    var s := Run(START, es);
    hide Run, Happenings, OnTime, AllOf, NoneAfterFinish, Count;
    NoneCalledBeforeRetry(s);
  }

  /** While a retry is dispatched, no handler has been called. */
  lemma NoneCalledBeforeRetry(s: System)
    requires Inv(s)
    ensures s.called == [] || Count(s.activities, IsRetryDispatched) == 0
    ensures s.activities == [] ==> Count(s.activities, IsRetryDispatched) == 0
  {
    hide OnTime, AllOf, InOrder, NextIs;
    if s.activities != [] {
      CountOne(s.activities[0], IsRetryDispatched);
      assert s.activities == [s.activities[0]];
    } else {
      CountOne(Processing, IsRetryDispatched);
    }
    hide Count;
  }
}

/**
  In which order a stream request does its work: chunks are parsed before they are handled, exactly for the streams
  that parse, and completions are released in the order in which they were handed over.
 */
module StreamOrder {
  import opened Counting
  import opened StreamRequest
  import opened StreamRuns

  /** The activities that take the steps of a run, in order. */
  function Taken(s: System, es: seq<Event>): seq<Activity>
    decreases |es|
  {
    if es == [] then []
    else if !Enabled(s, es[0]) then Taken(s, es[1..])
    else TakenBy(s, es[0]) + Taken(Next(s, es[0]), es[1..])
  }

  function TakenBy(s: System, e: Event): seq<Activity>
    requires Enabled(s, e)
  {
    if e.Step? then [s.activities[e.k]] else []
  }

  // ----- Parsing -----

  function Parses(x: Execution): Activity -> bool { (a: Activity) => a == Serialize(x) }
  function Handles(x: Execution): Activity -> bool { (a: Activity) => a == CallHandler(x) }

  /** Between its parsing and its handling. */
  function IsParsed(x: Execution): Activity -> bool { (a: Activity) => a == Serialized(x) || a == CallHandler(x) }
  function IsParsing(x: Execution): Activity -> bool { (a: Activity) => a == Serialize(x) || a == Serialized(x) }

  /** A stream that parses has parsed whatever is handled or about to be; any other stream parses nothing. */
  predicate ParsedFirst(s: System, taken: seq<Activity>, x: Execution) {
    if x.stream.serializes then
      Count(taken, Parses(x)) == Count(taken, Handles(x)) + Count(s.activities, IsParsed(x))
    else
      Count(taken, Parses(x)) == 0 && Count(s.activities, IsParsing(x)) == 0
  }

  lemma AdvanceParses(s: State, a: Activity, x: Execution)
    ensures var next := Advance(s, a).1;
            && Count(next, IsParsed(x)) ==
               (if a == Serialize(x) then 1 else 0) + (if a == Serialized(x) then 1 else 0)
               + (if IsDelivery(a, x) && !x.stream.serializes then 1 else 0)
            && Count(next, IsParsing(x)) ==
               (if a == Serialize(x) then 1 else 0) + (if IsDelivery(a, x) && x.stream.serializes then 1 else 0)
  {
    var next := Advance(s, a).1;
    hide Update, Complete;
    if |next| == 2 {
      assert next == [next[0]] + [next[1]];
      CountBoth([next[0]], [next[1]], IsParsed(x));
      CountBoth([next[0]], [next[1]], IsParsing(x));
      CountOne(next[1], IsParsed(x));
      CountOne(next[1], IsParsing(x));
    }
    if next != [] {
      CountOne(next[0], IsParsed(x));
      CountOne(next[0], IsParsing(x));
    } else {
      CountOne(a, IsParsed(x));
      CountOne(a, IsParsing(x));
    }
    hide Count;
  }

  /** The step hands the chunk to the stream. */
  predicate IsDelivery(a: Activity, x: Execution) {
    a.Deliver? && a.left != [] && x == Execution(a.left[0], a.chunk)
  }

  lemma StepParses(s: System, e: Event, taken: seq<Activity>, x: Execution)
    requires e.Step? && Enabled(s, e) && ParsedFirst(s, taken, x)
    ensures ParsedFirst(Next(s, e), taken + TakenBy(s, e), x)
  {
    var a := s.activities[e.k];
    var next := Advance(s.state, a).1;
    AdvanceParses(s.state, a, x);
    CountReplaced(s.activities, e.k, next, IsParsed(x));
    CountReplaced(s.activities, e.k, next, IsParsing(x));
    CountBoth(taken, [a], Parses(x));
    CountBoth(taken, [a], Handles(x));
    CountOne(a, Parses(x));
    CountOne(a, Handles(x));
    assert Next(s, e).activities == s.activities[..e.k] + next + s.activities[e.k + 1..] by { hide Advance; }
    hide Count, Advance, Next;
    if !x.stream.serializes && a == Serialize(x) { NoneAt(s.activities, e.k, IsParsing(x)); }
  }

  lemma {:induction false} NoneAt(xs: seq<Activity>, k: nat, p: Activity -> bool)
    requires k < |xs| && Count(xs, p) == 0
    ensures !p(xs[k])
  {
    CountReplaced(xs, k, [], p);
    CountOne(xs[k], p);
  }

  lemma EventParses(s: System, e: Event, taken: seq<Activity>, x: Execution)
    requires Enabled(s, e) && ParsedFirst(s, taken, x)
    ensures ParsedFirst(Next(s, e), taken + TakenBy(s, e), x)
  {
    if e.Step? {
      StepParses(s, e, taken, x);
    } else {
      assert taken + TakenBy(s, e) == taken;
      var more := if e.Arrive? then [Deliver(s.state.streams, e.chunk)] else if e.HandOver? then [Completing(e.c)] else [];
      assert Next(s, e).activities == s.activities + more;
      CountBoth(s.activities, more, IsParsed(x));
      CountBoth(s.activities, more, IsParsing(x));
      if more != [] {
        CountOne(more[0], IsParsed(x));
        CountOne(more[0], IsParsing(x));
        assert more == [more[0]];
      } else {
        CountOne(Updating, IsParsed(x));
        CountOne(Updating, IsParsing(x));
      }
      hide Count;
    }
  }

  lemma {:induction false} RunParses(s: System, es: seq<Event>, taken: seq<Activity>, x: Execution)
    requires ParsedFirst(s, taken, x)
    ensures ParsedFirst(Run(s, es), taken + Taken(s, es), x)
    decreases |es|
  {
    hide ParsedFirst, Next, Enabled, TakenBy;
    if es == [] {
      assert taken + Taken(s, es) == taken;
    } else if Enabled(s, es[0]) {
      EventParses(s, es[0], taken, x);
      RunParses(Next(s, es[0]), es[1..], taken + TakenBy(s, es[0]), x);
      assert taken + TakenBy(s, es[0]) + Taken(Next(s, es[0]), es[1..]) == taken + Taken(s, es);
    } else {
      RunParses(s, es[1..], taken, x);
    }
  }

  /**
    In every run, a chunk for a stream that parses has been parsed as often as it has been handled or is about to be,
    so never later; and a chunk for any other stream is never parsed.
   */
  lemma ParsedBeforeHandled(es: seq<Event>, x: Execution)
    ensures var s, taken := Run(START, es), Taken(START, es);
            if x.stream.serializes then
              Count(taken, Parses(x)) == Count(taken, Handles(x)) + Count(s.activities, IsParsed(x))
            else
              Count(taken, Parses(x)) == 0
  {
    RunParses(START, es, [], x);
    assert [] + Taken(START, es) == Taken(START, es);
    hide Run, Taken, Count;
  }

  // ----- The order of completions -----

  /** The completions handed over, in the order in which they reached the gate. */
  function Offered(taken: seq<Activity>): seq<CompletionEvent> {
    if taken == [] then []
    else Offered(taken[..|taken| - 1]) + (if taken[|taken| - 1].Completing? then [taken[|taken| - 1].c] else [])
  }

  function Names(log: seq<Released>): (cs: seq<CompletionEvent>)
    ensures |cs| == |log|
  {
    seq(|log|, i requires 0 <= i < |log| => log[i].c)
  }

  /** What has been let through, and then what waits, is what was offered, in that order. */
  predicate InTurn(s: System, taken: seq<Activity>) {
    Names(s.released) + s.state.enqueuedCompletionEvents == Offered(taken)
  }

  lemma OfferedMore(taken: seq<Activity>, a: Activity)
    ensures Offered(taken + [a]) == Offered(taken) + (if a.Completing? then [a.c] else [])
  {
    assert (taken + [a])[..|taken|] == taken;
  }

  lemma NamesMore(log: seq<Released>, cs: seq<CompletionEvent>, received: nat, handled: nat)
    ensures Names(log + LogAll(cs, received, handled)) == Names(log) + cs
  {
  }

  lemma StepInTurn(s: System, e: Event, taken: seq<Activity>)
    requires e.Step? && Enabled(s, e) && Inv(s) && InTurn(s, taken)
    ensures InTurn(Next(s, e), taken + TakenBy(s, e))
  {
    var a := s.activities[e.k];
    hide Next, Advance, Releases, Names, Offered, LogAll, AllHandledWhenReleased, Counted;
    var out, s' := Releases(s.state, a), Advance(s.state, a).0;
    OfferedMore(taken, a);
    NamesMore(s.released, out, |s.received|, |s.handled|);
    StepReleases(s, e);
    GateKeepsOrder(s.state, a);
    InTurnStill(Names(s.released), out, s'.enqueuedCompletionEvents, s.state.enqueuedCompletionEvents,
                if a.Completing? then [a.c] else [], Offered(taken));
  }

  lemma InTurnStill<T>(before: seq<T>, out: seq<T>, after: seq<T>, queued: seq<T>, more: seq<T>, offered: seq<T>)
    requires before + queued == offered && out + after == queued + more
    ensures before + out + after == offered + more
  {
    assert before + out + after == before + (out + after);
    assert offered + more == before + (queued + more);
  }

  lemma StepReleases(s: System, e: Event)
    requires e.Step? && Enabled(s, e)
    ensures Next(s, e).released == s.released + LogAll(Releases(s.state, s.activities[e.k]), |s.received|, |s.handled|)
    ensures Next(s, e).state == Advance(s.state, s.activities[e.k]).0
  {
    hide Advance, Releases, LogAll;
  }

  /** A step lets through the longest-waiting completions, and lets one that arrives wait behind the others. */
  lemma GateKeepsOrder(s: State, a: Activity)
    requires s.enqueuedCompletionEvents != [] ==> s.numberOfExecutingStreams > 0
    ensures Releases(s, a) + Advance(s, a).0.enqueuedCompletionEvents ==
            s.enqueuedCompletionEvents + (if a.Completing? then [a.c] else [])
  {
  }

  lemma {:induction false} RunInTurn(s: System, es: seq<Event>, taken: seq<Activity>)
    requires Inv(s) && InTurn(s, taken)
    ensures InTurn(Run(s, es), taken + Taken(s, es))
    decreases |es|
  {
    hide InTurn, Inv, Next, Enabled, TakenBy;
    if es == [] {
      assert taken + Taken(s, es) == taken;
    } else if Enabled(s, es[0]) {
      EventInTurn(s, es[0], taken);
      EventKeeps(s, es[0]);
      RunInTurn(Next(s, es[0]), es[1..], taken + TakenBy(s, es[0]));
      assert taken + TakenBy(s, es[0]) + Taken(Next(s, es[0]), es[1..]) == taken + Taken(s, es);
    } else {
      RunInTurn(s, es[1..], taken);
    }
  }

  lemma EventInTurn(s: System, e: Event, taken: seq<Activity>)
    requires Enabled(s, e) && Inv(s) && InTurn(s, taken)
    ensures InTurn(Next(s, e), taken + TakenBy(s, e))
  {
    if e.Step? {
      StepInTurn(s, e, taken);
    } else {
      assert taken + TakenBy(s, e) == taken;
      hide Names, Offered, Inv, Executions;
    }
  }

  /** In every run, completions are let through in the order in which they reached the gate, and the others wait in that order. */
  lemma CompletionsInOrder(es: seq<Event>)
    ensures var s := Run(START, es);
            Names(s.released) + s.state.enqueuedCompletionEvents == Offered(Taken(START, es))
  {
    RunInTurn(START, es, []);
    assert [] + Taken(START, es) == Taken(START, es);
    hide Run, Taken;
  }

  // ----- The order of streams -----

  /** The streams registered by the events, in order. */
  function Appended(es: seq<Event>): seq<Stream> {
    if es == [] then [] else (if es[0].Append? then [es[0].stream] else []) + Appended(es[1..])
  }

  lemma {:induction false} RunStreams(s: System, es: seq<Event>)
    ensures Run(s, es).state.streams == s.state.streams + Appended(es)
    decreases |es|
  {
    if es != [] {
      hide Next, Enabled;
      var next := if Enabled(s, es[0]) then Next(s, es[0]) else s;
      EventStreams(s, es[0]);
      RunStreams(next, es[1..]);
      JoinFirst(s.state.streams, if es[0].Append? then [es[0].stream] else [], Appended(es[1..]));
    } else {
      assert s.state.streams + [] == s.state.streams;
    }
  }

  lemma JoinFirst<T>(a: seq<T>, b: seq<T>, c: seq<T>)
    ensures a + b + c == a + (b + c)
  {
  }

  lemma EventStreams(s: System, e: Event)
    ensures var next := if Enabled(s, e) then Next(s, e) else s;
            next.state.streams == s.state.streams + (if e.Append? then [e.stream] else [])
  {
    hide LogAll, Executions;
    assert s.state.streams + [] == s.state.streams;
    if e.Step? && e.k < |s.activities| { StepStreams(s.state, s.activities[e.k]); }
    hide Advance, Releases;
  }

  lemma StepStreams(s: State, a: Activity)
    ensures Advance(s, a).0.streams == s.streams
  {
  }

  /** In every run the streams that a chunk is handed to are those registered so far, in the order of registration. */
  lemma StreamsInOrder(es: seq<Event>, chunk: Chunk)
    ensures var s := Run(START, es); var next := Next(s, Arrive(chunk));
            next.activities == s.activities + [Deliver(Appended(es), chunk)]
  {
    RunStreams(START, es);
    assert [] + Appended(es) == Appended(es);
    hide Run, Executions, Appended;
  }

  /** What a chunk starts: an execution for each stream, in order, with its parsing first where the stream parses. */
  function Started(streams: seq<Stream>, chunk: Chunk): (started: seq<Activity>)
    ensures |started| == |streams|
  {
    seq(|streams|, i requires 0 <= i < |streams| =>
      if streams[i].serializes then Serialize(Execution(streams[i], chunk)) else CallHandler(Execution(streams[i], chunk)))
  }

  /** The steps of a delivery that is at position `k`, and moves one on with each execution that it starts. */
  function Deliveries(k: nat, n: nat): (es: seq<Event>)
    ensures |es| == n
  {
    seq(n, i requires 0 <= i < n => Step(k + i))
  }

  /** A delivery starts its executions in the order of the streams. */
  lemma {:induction false} DeliveredInOrder(s: System, before: seq<Activity>, streams: seq<Stream>, chunk: Chunk)
    requires s.activities == before + [Deliver(streams, chunk)]
    ensures Run(s, Deliveries(|before|, |streams|)).activities == before + Started(streams, chunk) + [Deliver([], chunk)]
    decreases |streams|
  {
    var es := Deliveries(|before|, |streams|);
    if streams == [] {
      assert before + Started(streams, chunk) == before;
    } else {
      var first := Started(streams, chunk)[0];
      var next := Next(s, es[0]);
      assert s.activities[..|before|] == before && s.activities[|before| + 1..] == [];
      assert next.activities == (before + [first]) + [Deliver(streams[1..], chunk)];
      assert es[1..] == Deliveries(|before + [first]|, |streams| - 1);
      hide Next;
      DeliveredInOrder(next, before + [first], streams[1..], chunk);
      assert Started(streams, chunk) == [first] + Started(streams[1..], chunk);
      assert before + [first] + Started(streams[1..], chunk) == before + ([first] + Started(streams[1..], chunk));
    }
  }
}

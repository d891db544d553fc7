/**
  The completion gate of `DataStreamRequest`: a counter of the stream handlers still executing, and the
  completion events that wait for it to reach zero.
 */
module StreamRequest {
  /** A registered stream closure; some parse a chunk on the serialization queue before they call the handler. */
  datatype Stream = Stream(id: nat, serializes: bool)

  type Chunk = seq<nat>

  type CompletionEvent = nat

  /** `StreamMutableState`, without the bound output stream. */
  datatype State = State(streams: seq<Stream>, numberOfExecutingStreams: int, enqueuedCompletionEvents: seq<CompletionEvent>)

  // ----- Lock sections -----

  function AddStream(s: State, stream: Stream): State {
    s.(streams := s.streams + [stream])
  }

  function Receive(s: State): State {
    s.(numberOfExecutingStreams := s.numberOfExecutingStreams + |s.streams|)
  }

  /** The state after one execution ends, and the completion events that it releases. */
  function Update(s: State): (State, seq<CompletionEvent>) {
    var s' := s.(numberOfExecutingStreams := s.numberOfExecutingStreams - 1);
    if s'.numberOfExecutingStreams == 0 then (s'.(enqueuedCompletionEvents := []), s.enqueuedCompletionEvents) else (s', [])
  }

  /** A completion is released at once when nothing executes, and waits otherwise. */
  function Complete(s: State, c: CompletionEvent): (State, seq<CompletionEvent>) {
    if s.numberOfExecutingStreams == 0 then (s, [c])
    else (s.(enqueuedCompletionEvents := s.enqueuedCompletionEvents + [c]), [])
  }

  // ----- The request object -----

  class DataStreamRequest {
    var streams: seq<Stream>
    var numberOfExecutingStreams: int
    var enqueuedCompletionEvents: seq<CompletionEvent>

    function Abs(): State
      reads this
    {
      State(streams, numberOfExecutingStreams, enqueuedCompletionEvents)
    }

    constructor ()
      ensures Abs() == State([], 0, [])
    {
      streams, numberOfExecutingStreams, enqueuedCompletionEvents := [], 0, [];
    }

    method AppendStream(stream: Stream)
      modifies this
      ensures Abs() == AddStream(old(Abs()), stream)
    {
      streams := streams + [stream];
    }

    /** `didReceive`; the closures to call are those registered at this moment. */
    method DidReceive() returns (toCall: seq<Stream>)
      modifies this
      ensures Abs() == Receive(old(Abs())) && toCall == old(streams)
    {
      numberOfExecutingStreams := numberOfExecutingStreams + |streams|;
      toCall := streams;
    }

    /** `updateAndCompleteIfPossible`. */
    method UpdateAndCompleteIfPossible() returns (released: seq<CompletionEvent>)
      modifies this
      ensures (Abs(), released) == Update(old(Abs()))
    {
      numberOfExecutingStreams := numberOfExecutingStreams - 1;
      if numberOfExecutingStreams != 0 || enqueuedCompletionEvents == [] {
        return [];
      }
      released := enqueuedCompletionEvents;
      enqueuedCompletionEvents := [];
    }

    /** The closure that `appendStreamCompletion` hands to the serializer pipeline. */
    method CompleteOrEnqueue(c: CompletionEvent) returns (released: seq<CompletionEvent>)
      modifies this
      ensures (Abs(), released) == Complete(old(Abs()), c)
    {
      if numberOfExecutingStreams != 0 {
        enqueuedCompletionEvents := enqueuedCompletionEvents + [c];
        return [];
      }
      released := [c];
    }
  }
}

/**
  What a form's streams make of it, read by read and write by write: the bytes delivered, the first error, and how
  much of a buffer a file takes.
 */
module MultipartOutcomes {
  import opened MultipartEncoding
  import opened MultipartFraming
  import opened Options

  // ----- Reading -----

  /** The first `n` reads give bytes. */
  predicate Gives(input: seq<Read>, n: nat) {
    n <= |input| && forall i :: 0 <= i < n ==> input[i].Got? && input[i].data != []
  }

  /** What the first `n` reads give, one behind the other. */
  function Given(input: seq<Read>, n: nat): Bytes
    requires Gives(input, n)
  {
    if n == 0 then [] else Given(input, n - 1) + input[n - 1].data
  }

  lemma {:induction false} GivenFirst(input: seq<Read>, n: nat)
    requires Gives(input, n) && n > 0
    ensures Gives(input[1..], n - 1) && Given(input, n) == input[0].data + Given(input[1..], n - 1)
  {
    if n > 1 {
      GivenFirst(input, n - 1);
    } else {
      assert input[0].data + [] == [] + input[0].data;
    }
  }

  /** A stream delivers what its reads give up to its end, or to an empty read; a read that fails is its error. */
  lemma {:induction false} StreamExactly(input: seq<Read>, n: nat)
    requires Gives(input, n)
    requires n < |input| ==> input[n].ReadFailed? || input[n].data == []
    ensures StreamData(input) ==
            if n < |input| && input[n].ReadFailed? then Err(InputStreamReadFailed(input[n].code)) else Ok(Given(input, n))
    decreases n
  {
    if n > 0 {
      GivenFirst(input, n);
      StreamExactly(input[1..], n - 1);
      hide Given;
    }
  }

  /** The first part that is not complete decides the error: what its stream failed with, or its two lengths. */
  lemma {:induction false} FirstErrorReported(boundary: Bytes, vs: seq<PartView>, i: nat)
    requires i < |vs| && (forall k :: 0 <= k < i ==> Complete(vs[k])) && !Complete(vs[i])
    ensures var r, d := EncodeParts(boundary, vs), StreamData(vs[i].input);
            && r.Err?
            && (d.Err? ==> r.error == d.error)
            && (d.Ok? ==> r.error.UnexpectedInputStreamLength? && r.error.bytesExpected == vs[i].length
                          && r.error.bytesRead == |d.data|)
    decreases i
  {
    hide StreamData, BoundaryData;
    if i > 0 {
      assert Complete(vs[0]);
      FirstErrorReported(boundary, vs[1..], i - 1);
    }
  }

  // ----- Writing a buffer -----

  /** The bytes that the answers from call `k` up to `next` take. */
  function Taken(behaviour: nat -> Write, k: nat, next: nat): nat
    decreases next - k
  {
    if k >= next then 0
    else (match behaviour(k) case Accepts(n) => n case _ => 0) + Taken(behaviour, k + 1, next)
  }

  /**
    Writing goes on until the buffer is taken or an answer takes nothing; the file gets as much of it as the answers
    take; and the error is that of the last answer, if that is one.
   */
  lemma {:induction false} BytesTaken(f: File, buffer: Bytes)
    ensures var (f', e) := WriteBytes(f, buffer); var taken := Taken(f.behaviour, f.calls, f'.calls);
            && f'.calls >= f.calls
            && f'.written == f.written + (if taken < |buffer| then buffer[..taken] else buffer)
            && (taken < |buffer| <==> f'.calls > f.calls && !f.behaviour(f'.calls - 1).Accepts?)
            && (e.Some? <==> f'.calls > f.calls && f.behaviour(f'.calls - 1).WriteFailed?)
            && (e.Some? ==> e.value == OutputStreamWriteFailed(f.behaviour(f'.calls - 1).code))
            && forall i :: f.calls <= i < f'.calls - 1 ==> f.behaviour(i).Accepts?
    decreases |buffer|
  {
    if buffer == [] {
      assert f.written + buffer == f.written;
    } else if f.behaviour(f.calls).Accepts? {
      var n := f.behaviour(f.calls).n;
      var k := if n < |buffer| then n else |buffer|;
      var more := f.(written := f.written + buffer[..k], calls := f.calls + 1);
      BytesTaken(more, buffer[k..]);
      Pieces(f.written, buffer, k, Taken(f.behaviour, f.calls + 1, WriteBytes(more, buffer[k..]).0.calls));
    } else {
      assert f.written + buffer[..0] == f.written;
    }
  }

  lemma Pieces(before: Bytes, buffer: Bytes, k: nat, more: nat)
    requires k <= |buffer|
    ensures before + buffer[..k] + (if more < |buffer[k..]| then buffer[k..][..more] else buffer[k..])
            == before + (if k + more < |buffer| then buffer[..k + more] else buffer)
  {
    var rest := if more < |buffer[k..]| then buffer[k..][..more] else buffer[k..];
    assert buffer[..k] + rest == if k + more < |buffer| then buffer[..k + more] else buffer;
    assert before + buffer[..k] + rest == before + (buffer[..k] + rest);
  }

  // ----- Writing a form -----

  /** A failed write ends the writing with its own error. */
  lemma {:induction false} LastWriteFails(f: File, chunks: seq<Chunk>)
    requires forall c <- chunks :: c.Data?
    ensures var (f', e) := WriteChunks(f, chunks);
            e.Some? ==> f'.calls > 0 && f.behaviour(f'.calls - 1).WriteFailed?
                        && e.value == OutputStreamWriteFailed(f.behaviour(f'.calls - 1).code)
    decreases |chunks|
  {
    if chunks != [] {
      assert chunks[0] in chunks;
      BytesTaken(f, chunks[0].data);
      BytesExactly(f, chunks[0].data);
      LastWriteFails(WriteBytes(f, chunks[0].data).0, chunks[1..]);
      hide WriteBytes, Taken, AskedFor, AllAccept, SomeFails;
    }
  }

  /** A stream that breaks ends the writing with its error, behind what was written before, unless a write failed first. */
  lemma {:induction false} BrokenStreamReported(f: File, before: seq<Chunk>, code: int, after: seq<Chunk>)
    requires forall c <- before :: c.Data?
    ensures var (f', e) := WriteChunks(f, before);
            WriteChunks(f, before + [Broken(code)] + after) ==
            (f', if e.Some? then e else Some(InputStreamReadFailed(code)))
    decreases |before|
  {
    var all := before + [Broken(code)] + after;
    if before == [] {
      assert all[0] == Broken(code);
    } else {
      assert before[0] in before;
      assert all[0] == before[0] && all[1..] == before[1..] + [Broken(code)] + after;
      BrokenStreamReported(WriteBytes(f, before[0].data).0, before[1..], code, after);
      hide WriteBytes;
    }
  }
}

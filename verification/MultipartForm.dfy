/**
  The form object: body parts over input streams that are consumed as they are read, boundary flags, the
  in-memory encoder and the file writer.
 */
module MultipartForm {
  import opened MultipartEncoding
  import opened MultipartFraming
  import opened Options

  class InputStream {
    var input: seq<Read>

    constructor (input: seq<Read>)
      ensures this.input == input
    {
      this.input := input;
    }

    predicate HasBytesAvailable()
      reads this
    {
      input != []
    }

    method ReadNext() returns (r: Read)
      requires input != []
      modifies this
      ensures r == old(input)[0] && input == old(input)[1..]
    {
      r := input[0];
      input := input[1..];
    }
  }

  class OutputStream {
    const behaviour: nat -> Write
    var calls: nat
    var written: Bytes

    function Abs(): File
      reads this
    {
      File(written, calls, behaviour)
    }

    constructor (behaviour: nat -> Write)
      ensures Abs() == File([], 0, behaviour)
    {
      this.behaviour := behaviour;
      calls, written := 0, [];
    }

    /** The loop that hands a buffer over piece by piece while the stream has space. */
    method WriteBuffer(buffer: Bytes) returns (e: Option<FormError>)
      modifies this
      ensures (Abs(), e) == WriteBytes(old(Abs()), buffer)
    {
      var left := buffer;
      while left != []
        invariant WriteBytes(Abs(), left) == WriteBytes(old(Abs()), buffer)
        decreases |left|
      {
        var answer := behaviour(calls);
        calls := calls + 1;
        match answer {
          case NoSpace => return None;
          case WriteFailed(code) => return Some(OutputStreamWriteFailed(code));
          case Accepts(n) =>
            var k := if n < |left| then n else |left|;
            written := written + left[..k];
            left := left[k..];
        }
      }
      e := None;
    }
  }

  class BodyPart {
    const headers: seq<Header>
    const bodyStream: InputStream
    const bodyContentLength: nat
    var hasInitialBoundary: bool
    var hasFinalBoundary: bool

    constructor (headers: seq<Header>, bodyStream: InputStream, bodyContentLength: nat)
      ensures this.headers == headers && this.bodyStream == bodyStream && this.bodyContentLength == bodyContentLength
      ensures !hasInitialBoundary && !hasFinalBoundary
    {
      this.headers, this.bodyStream, this.bodyContentLength := headers, bodyStream, bodyContentLength;
      hasInitialBoundary, hasFinalBoundary := false, false;
    }

    function View(): PartView
      reads this, bodyStream
    {
      PartView(headers, bodyStream.input, bodyContentLength, hasInitialBoundary, hasFinalBoundary)
    }

    /** `encodeBodyStream`: reads to the end, and checks the length. */
    method EncodeBodyStream() returns (r: Result)
      modifies bodyStream
      ensures r == EncodeBody(old(View()))
      ensures bodyStream.input == StreamLeft(old(bodyStream.input))
    {
      var encoded: Bytes := [];
      var ended := false;
      PrependTwice([], [], StreamData(bodyStream.input));
      while !ended && bodyStream.HasBytesAvailable()
        invariant !ended ==> Prepend(encoded, StreamData(bodyStream.input)) == StreamData(old(bodyStream.input))
        invariant !ended ==> StreamLeft(bodyStream.input) == StreamLeft(old(bodyStream.input))
        invariant ended ==> Ok(encoded) == StreamData(old(bodyStream.input))
        invariant ended ==> bodyStream.input == StreamLeft(old(bodyStream.input))
        decreases |bodyStream.input|
      {
        var got := bodyStream.ReadNext();
        if got.ReadFailed? {
          return Err(InputStreamReadFailed(got.code));
        }
        assert encoded + [] == encoded;
        if got.data != [] {
          PrependTwice(encoded, got.data, StreamData(bodyStream.input));
          encoded := encoded + got.data;
        } else {
          ended := true;
        }
      }
      assert encoded + [] == encoded;
      if |encoded| != bodyContentLength {
        return Err(UnexpectedInputStreamLength(bodyContentLength, |encoded|));
      }
      r := Ok(encoded);
    }

    /** The part's bytes, under the boundaries its flags ask for. */
    method Encode(boundary: Bytes) returns (r: Result)
      modifies bodyStream
      ensures r == EncodePart(boundary, old(View()))
      ensures bodyStream.input == StreamLeft(old(bodyStream.input))
    {
      var encoded := BoundaryData(if hasInitialBoundary then Initial else Encapsulated, boundary);
      encoded := encoded + EncodeHeaders(headers);
      var body := EncodeBodyStream();
      if body.Err? {
        return body;
      }
      encoded := encoded + body.data;
      var final := if hasFinalBoundary then BoundaryData(Final, boundary) else [];
      OneBuffer(BoundaryData(if hasInitialBoundary then Initial else Encapsulated, boundary), EncodeHeaders(headers), body.data);
      r := Ok(encoded + final);
    }

    /** `writeBodyStream`: passes each piece on, and checks no length. */
    method WriteBodyStream(out: OutputStream) returns (e: Option<FormError>)
      modifies bodyStream, out
      ensures (out.Abs(), e) == WriteChunks(old(out.Abs()), BodyChunks(old(bodyStream.input)))
      ensures e.None? ==> bodyStream.input == StreamLeft(old(bodyStream.input))
    {
      while bodyStream.HasBytesAvailable()
        invariant StreamLeft(bodyStream.input) == StreamLeft(old(bodyStream.input))
        invariant out.Abs().behaviour == old(out.Abs()).behaviour
        invariant WriteChunks(out.Abs(), BodyChunks(bodyStream.input)) == WriteChunks(old(out.Abs()), BodyChunks(old(bodyStream.input)))
        decreases |bodyStream.input|
      {
        var got := bodyStream.ReadNext();
        if got.ReadFailed? {
          return Some(InputStreamReadFailed(got.code));
        }
        if got.data == [] {
          return None;
        }
        FirstChunk(out.Abs(), Data(got.data), BodyChunks(bodyStream.input));
        e := out.WriteBuffer(got.data);
        if e.Some? {
          return;
        }
      }
      e := None;
    }

    /** The part's boundary, headers, body and final boundary, each written in turn. */
    method Write(boundary: Bytes, out: OutputStream) returns (e: Option<FormError>)
      modifies bodyStream, out
      ensures (out.Abs(), e) == WriteChunks(old(out.Abs()), PartChunks(boundary, old(View())))
      ensures e.None? ==> bodyStream.input == StreamLeft(old(bodyStream.input))
    {
      ghost var first := Data(BoundaryData(if hasInitialBoundary then Initial else Encapsulated, boundary));
      ghost var heads := Data(EncodeHeaders(headers));
      ghost var body := BodyChunks(bodyStream.input);
      ghost var last := if hasFinalBoundary then [Data(BoundaryData(Final, boundary))] else [];
      FourPieces(out.Abs(), first, heads, body, last);
      e := out.WriteBuffer(BoundaryData(if hasInitialBoundary then Initial else Encapsulated, boundary));
      if e.Some? {
        return;
      }
      e := out.WriteBuffer(EncodeHeaders(headers));
      if e.Some? {
        return;
      }
      e := WriteBodyStream(out);
      if e.Some? {
        return;
      }
      if hasFinalBoundary {
        e := out.WriteBuffer(BoundaryData(Final, boundary));
      }
    }
  }

  lemma {:induction false} ChunksInTurn(f: File, xs: seq<Chunk>, ys: seq<Chunk>)
    ensures var (f', e) := WriteChunks(f, xs);
            WriteChunks(f, xs + ys) == if e.Some? then (f', e) else WriteChunks(f', ys)
    decreases |xs|
  {
    if xs == [] {
      assert xs + ys == ys;
    } else {
      assert (xs + ys)[1..] == xs[1..] + ys;
      if xs[0].Data? {
        ChunksInTurn(WriteBytes(f, xs[0].data).0, xs[1..], ys);
      }
      hide WriteBytes;
    }
  }

  /** The four pieces of a part, written one after the other until one fails. */
  lemma FourPieces(f: File, first: Chunk, heads: Chunk, body: seq<Chunk>, last: seq<Chunk>)
    requires first.Data? && heads.Data?
    ensures var (f1, e1) := WriteBytes(f, first.data);
            var (f2, e2) := WriteBytes(f1, heads.data);
            var (f3, e3) := WriteChunks(f2, body);
            WriteChunks(f, [first, heads] + body + last)
            == if e1.Some? then (f1, e1) else if e2.Some? then (f2, e2) else if e3.Some? then (f3, e3) else WriteChunks(f3, last)
  {
    var (f1, e1) := WriteBytes(f, first.data);
    var (f2, e2) := WriteBytes(f1, heads.data);
    assert [first, heads] + body + last == [first] + ([heads] + (body + last));
    FirstChunk(f, first, [heads] + (body + last));
    FirstChunk(f1, heads, body + last);
    ChunksInTurn(f2, body, last);
    hide WriteBytes, WriteChunks;
  }

  lemma OneBuffer(b: Bytes, h: Bytes, d: Bytes)
    ensures b + h + d == b + (h + d)
  {
  }

  lemma FirstChunk(f: File, c: Chunk, more: seq<Chunk>)
    requires c.Data?
    ensures var (f', e) := WriteBytes(f, c.data);
            WriteChunks(f, [c] + more) == if e.Some? then (f', e) else WriteChunks(f', more)
  {
    assert ([c] + more)[1..] == more;
  }

  lemma NextPart(boundary: Bytes, vs: seq<PartView>, encoded: Bytes)
    requires vs != []
    ensures Prepend(encoded, EncodeParts(boundary, vs))
            == match EncodePart(boundary, vs[0])
               case Err(e) => Err(e)
               case Ok(data) => Prepend(encoded + data, EncodeParts(boundary, vs[1..]))
  {
    hide EncodePart;
    if EncodePart(boundary, vs[0]).Ok? {
      PrependTwice(encoded, EncodePart(boundary, vs[0]).data, EncodeParts(boundary, vs[1..]));
    }
  }

  lemma NoParts(boundary: Bytes, encoded: Bytes)
    ensures Prepend(encoded, EncodeParts(boundary, [])) == Ok(encoded)
  {
  }

  lemma NextChunks(f: File, boundary: Bytes, vs: seq<PartView>)
    requires vs != []
    ensures var (f', e) := WriteChunks(f, PartChunks(boundary, vs[0]));
            WriteChunks(f, FormChunks(boundary, vs)) == if e.Some? then (f', e) else WriteChunks(f', FormChunks(boundary, vs[1..]))
  {
    ChunksInTurn(f, PartChunks(boundary, vs[0]), FormChunks(boundary, vs[1..]));
  }

  lemma NoChunks(f: File, boundary: Bytes)
    ensures WriteChunks(f, FormChunks(boundary, [])) == (f, None)
  {
  }

  class MultipartFormData {
    const boundary: Bytes
    var bodyParts: seq<BodyPart>
    var bodyPartError: Option<FormError>

    ghost function Streams(): set<InputStream>
      reads this
    {
      set part <- bodyParts :: part.bodyStream
    }

    /** Each part, and each part's stream, is an object of its own. */
    ghost predicate Separate()
      reads this
    {
      forall i, j :: 0 <= i < j < |bodyParts| ==> bodyParts[i] != bodyParts[j] && bodyParts[i].bodyStream != bodyParts[j].bodyStream
    }

    ghost function Views(): (vs: seq<PartView>)
      reads this, bodyParts, Streams()
      ensures |vs| == |bodyParts|
    {
      seq(|bodyParts|, i requires 0 <= i < |bodyParts| reads this, bodyParts, Streams() => bodyParts[i].View())
    }

    constructor (boundary: Bytes)
      ensures this.boundary == boundary && bodyParts == [] && bodyPartError == None
    {
      this.boundary := boundary;
      bodyParts := [];
      bodyPartError := None;
    }

    method Append(bodyStream: InputStream, bodyContentLength: nat, headers: seq<Header>)
      modifies this`bodyParts
      ensures |bodyParts| == |old(bodyParts)| + 1 && bodyParts[..|old(bodyParts)|] == old(bodyParts)
      ensures Views() == old(Views()) + [PartView(headers, bodyStream.input, bodyContentLength, false, false)]
      ensures old(Separate()) && bodyStream !in old(Streams()) ==> Separate()
    {
      var part := new BodyPart(headers, bodyStream, bodyContentLength);
      bodyParts := bodyParts + [part];
    }

    /** Flags the first part as initial and the last as final; no flag is ever cleared. */
    method MarkBoundaries()
      requires Separate()
      modifies bodyParts
      ensures Views() == Marked(old(Views()))
    {
      if bodyParts != [] {
        bodyParts[0].hasInitialBoundary := true;
        bodyParts[|bodyParts| - 1].hasFinalBoundary := true;
      }
    }

    /** `encode`: all parts in order, or the error of the first that fails. */
    method Encode() returns (r: Result)
      requires Separate()
      modifies bodyParts, Streams()
      ensures bodyPartError.Some? ==> r == Err(bodyPartError.value) && Views() == old(Views())
      ensures bodyPartError.None? ==> r == EncodeParts(boundary, Marked(old(Views())))
      ensures bodyPartError.None? && r.Ok? ==> Views() == AfterEncode(old(Views()))
    {
      if bodyPartError.Some? {
        return Err(bodyPartError.value);
      }
      MarkBoundaries();
      r := EncodeAll();
    }

    /** The loop of `encode`, after the boundaries have been flagged. */
    method EncodeAll() returns (r: Result)
      requires Separate()
      modifies Streams()
      ensures r == EncodeParts(boundary, old(Views()))
      ensures r.Ok? ==> forall k :: 0 <= k < |bodyParts| ==> Views()[k] == Drained(old(Views())[k])
    {
      hide EncodePart, EncodeParts, StreamLeft, Prepend;
      var encoded: Bytes := [];
      ghost var vs := Views();
      PrependTwice([], [], EncodeParts(boundary, vs));
      assert vs[0..] == vs;
      for i := 0 to |bodyParts|
        invariant forall k :: i <= k < |bodyParts| ==> bodyParts[k].View() == vs[k]
        invariant forall k :: 0 <= k < i ==> bodyParts[k].View() == Drained(vs[k])
        invariant Prepend(encoded, EncodeParts(boundary, vs[i..])) == EncodeParts(boundary, vs)
      {
        NextPart(boundary, vs[i..], encoded);
        assert vs[i..][1..] == vs[i + 1..];
        var encodedData := bodyParts[i].Encode(boundary);
        if encodedData.Err? {
          return encodedData;
        }
        encoded := encoded + encodedData.data;
      }
      NoParts(boundary, encoded);
      r := Ok(encoded);
    }

    /** `writeEncodedData`, once the output stream is open. */
    method WriteEncodedData(out: OutputStream) returns (e: Option<FormError>)
      requires Separate()
      modifies bodyParts, Streams(), out
      ensures bodyPartError.Some? ==> e == bodyPartError && out.Abs() == old(out.Abs()) && Views() == old(Views())
      ensures bodyPartError.None? ==> (out.Abs(), e) == WriteChunks(old(out.Abs()), FormChunks(boundary, Marked(old(Views()))))
      ensures bodyPartError.None? && e.None? ==> Views() == AfterEncode(old(Views()))
    {
      if bodyPartError.Some? {
        return bodyPartError;
      }
      MarkBoundaries();
      e := WriteAll(out);
    }

    /** The loop of `writeEncodedData`, after the boundaries have been flagged. */
    method WriteAll(out: OutputStream) returns (e: Option<FormError>)
      requires Separate()
      modifies Streams(), out
      ensures (out.Abs(), e) == WriteChunks(old(out.Abs()), FormChunks(boundary, old(Views())))
      ensures e.None? ==> forall k :: 0 <= k < |bodyParts| ==> Views()[k] == Drained(old(Views())[k])
    {
      hide WriteChunks, PartChunks, FormChunks, StreamLeft;
      ghost var vs := Views();
      assert vs[0..] == vs;
      for i := 0 to |bodyParts|
        invariant forall k :: i <= k < |bodyParts| ==> bodyParts[k].View() == vs[k]
        invariant forall k :: 0 <= k < i ==> bodyParts[k].View() == Drained(vs[k])
        invariant WriteChunks(out.Abs(), FormChunks(boundary, vs[i..])) == WriteChunks(old(out.Abs()), FormChunks(boundary, vs))
      {
        NextChunks(out.Abs(), boundary, vs[i..]);
        assert vs[i..][1..] == vs[i + 1..];
        e := bodyParts[i].Write(boundary, out);
        if e.Some? {
          return;
        }
      }
      NoChunks(out.Abs(), boundary);
      e := None;
    }
  }
}

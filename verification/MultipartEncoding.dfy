/**
  What encoding a form in memory and writing it to a file make of its parts: input streams that deliver their
  bytes in pieces, boundary flags that stay set, and output streams that may run out of room.
 */
module MultipartEncoding {
  import opened MultipartFraming
  import opened Options

  /** What one read of an input stream gives. */
  datatype Read = Got(data: Bytes) | ReadFailed(code: int)

  type Positive = n: nat | 0 < n witness 1

  /** What an output stream does when it is next asked to take bytes. */
  datatype Write = Accepts(n: Positive) | NoSpace | WriteFailed(code: int)

  datatype FormError =
    | InputStreamReadFailed(code: int)
    | UnexpectedInputStreamLength(bytesExpected: nat, bytesRead: nat)
    | OutputStreamWriteFailed(code: int)
    | BodyPartFailed(code: int)

  datatype Result = Ok(data: Bytes) | Err(error: FormError)

  /** A body part as it stands, with what its stream has left to deliver. */
  datatype PartView = PartView(headers: seq<Header>, input: seq<Read>, length: nat, initial: bool, final: bool)

  // ----- In memory -----

  /** Everything a stream delivers until it fails or has no more. */
  function StreamData(input: seq<Read>): Result {
    if input == [] then Ok([])
    else
      match input[0]
      case ReadFailed(code) => Err(InputStreamReadFailed(code))
      case Got(data) => if data == [] then Ok([]) else Prepend(data, StreamData(input[1..]))
  }

  /** What a stream has left once that much has been taken. */
  function StreamLeft(input: seq<Read>): seq<Read> {
    if input == [] then []
    else if input[0].ReadFailed? || input[0].data == [] then input[1..]
    else StreamLeft(input[1..])
  }

  function Prepend(data: Bytes, r: Result): Result {
    match r
    case Ok(more) => Ok(data + more)
    case Err(_) => r
  }

  lemma PrependTwice(a: Bytes, b: Bytes, r: Result)
    ensures Prepend(a, Prepend(b, r)) == Prepend(a + b, r)
    ensures Prepend([], r) == r
  {
    if r.Ok? {
      assert a + (b + r.data) == a + b + r.data;
    }
  }

  function EncodeBody(v: PartView): Result {
    match StreamData(v.input)
    case Err(e) => Err(e)
    case Ok(data) => if |data| == v.length then Ok(data) else Err(UnexpectedInputStreamLength(v.length, |data|))
  }

  function EncodePart(boundary: Bytes, v: PartView): Result {
    match EncodeBody(v)
    case Err(e) => Err(e)
    case Ok(body) => Ok(Framed(boundary, Payload(Part(v.headers, body)), v.initial, v.final))
  }

  function EncodeParts(boundary: Bytes, vs: seq<PartView>): Result {
    if vs == [] then Ok([])
    else
      match EncodePart(boundary, vs[0])
      case Err(e) => Err(e)
      case Ok(data) => Prepend(data, EncodeParts(boundary, vs[1..]))
  }

  /** The flags that encoding sets, on top of those already set. */
  function Marked(vs: seq<PartView>): (r: seq<PartView>)
    ensures |r| == |vs|
  {
    if vs == [] then []
    else
      var r := vs[0 := vs[0].(initial := true)];
      r[|vs| - 1 := r[|vs| - 1].(final := true)]
  }

  function Drained(v: PartView): PartView {
    v.(input := StreamLeft(v.input))
  }

  /** How a form stands after it has been encoded. */
  function AfterEncode(vs: seq<PartView>): (r: seq<PartView>)
    ensures |r| == |vs|
  {
    var m := Marked(vs);
    seq(|m|, i requires 0 <= i < |m| => Drained(m[i]))
  }

  // ----- When the result is a well-framed form -----

  function BodyData(v: PartView): Bytes {
    match StreamData(v.input)
    case Ok(data) => data
    case Err(_) => []
  }

  function PartOf(v: PartView): Part {
    Part(v.headers, BodyData(v))
  }

  function PartsOf(vs: seq<PartView>): (ps: seq<Part>)
    ensures |ps| == |vs|
  {
    seq(|vs|, i requires 0 <= i < |vs| => PartOf(vs[i]))
  }

  /** A part whose stream delivers the length it was given. */
  predicate Complete(v: PartView) {
    StreamData(v.input).Ok? && |StreamData(v.input).data| == v.length
  }

  /** The flags of a form whose parts were only ever appended: no part but the first is marked as first. */
  predicate OnlyFirstInitial(vs: seq<PartView>, first: bool) {
    forall i :: 0 <= i < |vs| ==> vs[i].initial == (first && i == 0)
  }

  /** The bytes of the final boundaries of parts that are no longer last. */
  function StaleBytes(boundary: Bytes, vs: seq<PartView>): nat {
    if |vs| <= 1 then 0
    else (if vs[0].final then |BoundaryData(Final, boundary)| else 0) + StaleBytes(boundary, vs[1..])
  }

  lemma PartsOfRest(vs: seq<PartView>)
    requires vs != []
    ensures Payloads(PartsOf(vs))[0] == Payload(PartOf(vs[0]))
    ensures Payloads(PartsOf(vs))[1..] == Payloads(PartsOf(vs[1..]))
  {
  }

  /** Encoding succeeds exactly when every stream delivers what it was said to hold. */
  lemma {:induction false} EncodesWhenComplete(boundary: Bytes, vs: seq<PartView>)
    ensures EncodeParts(boundary, vs).Ok? <==> forall v <- vs :: Complete(v)
  {
    if vs != [] {
      EncodesWhenComplete(boundary, vs[1..]);
      assert EncodePart(boundary, vs[0]).Ok? <==> Complete(vs[0]);
      assert EncodeParts(boundary, vs).Ok? <==> Complete(vs[0]) && EncodeParts(boundary, vs[1..]).Ok?;
      hide EncodePart, EncodeParts, Complete;
      assert vs == [vs[0]] + vs[1..];
    }
  }

  /** Stale final boundaries are the only difference from a form framed once. */
  lemma {:induction false} EncodedLength(boundary: Bytes, vs: seq<PartView>, first: bool)
    requires (forall v <- vs :: Complete(v)) && OnlyFirstInitial(vs, first)
    requires vs != [] ==> vs[|vs| - 1].final
    ensures var r := EncodeParts(boundary, vs); var f := FramesFrom(boundary, Payloads(PartsOf(vs)), first);
            r.Ok? && |r.data| == |f| + StaleBytes(boundary, vs) && (StaleBytes(boundary, vs) == 0 ==> r.data == f)
    decreases |vs|
  {
    if vs != [] {
      EncodedLength(boundary, vs[1..], false);
      PartsOfRest(vs);
      FinalNotEmpty(boundary);
      hide Payload, Payloads, PartsOf, StreamData, BoundaryData;
      assert vs[0] in vs;
    }
  }

  lemma FinalNotEmpty(boundary: Bytes)
    ensures BoundaryData(Final, boundary) != []
  {
  }

  lemma {:induction false} NoStaleBytes(boundary: Bytes, vs: seq<PartView>)
    ensures StaleBytes(boundary, vs) == 0 <==> forall i :: 0 <= i < |vs| - 1 ==> !vs[i].final
  {
    FinalNotEmpty(boundary);
    hide BoundaryData;
    if |vs| > 1 {
      NoStaleBytes(boundary, vs[1..]);
      if forall i :: 0 <= i < |vs| - 1 ==> !vs[i].final {
        assert forall i :: 0 <= i < |vs[1..]| - 1 ==> vs[1..][i] == vs[i + 1];
      }
      if !(forall i :: 0 <= i < |vs| - 1 ==> !vs[i].final) && !vs[0].final {
        var i :| 0 <= i < |vs| - 1 && vs[i].final;
        assert vs[1..][i - 1].final;
      }
    }
  }

  lemma MarkedComplete(vs: seq<PartView>)
    ensures (forall v <- Marked(vs) :: Complete(v)) <==> forall v <- vs :: Complete(v)
  {
    var m := Marked(vs);
    assert forall i :: 0 <= i < |vs| ==> (Complete(m[i]) <==> Complete(vs[i]));
    hide Complete;
    if forall v <- m :: Complete(v) {
      forall i | 0 <= i < |vs| ensures Complete(vs[i]) { assert m[i] in m; }
    }
    if forall v <- vs :: Complete(v) {
      forall i | 0 <= i < |vs| ensures Complete(m[i]) { assert vs[i] in vs; }
    }
  }

  /**
    A form is encoded as one framing of its parts exactly when no part but the last still carries the final
    flag. Encoding sets that flag and nothing clears it, so it is stale once a part follows.
   */
  lemma EncodedOnce(boundary: Bytes, vs: seq<PartView>)
    requires forall v <- vs :: Complete(v)
    requires forall i :: 1 <= i < |vs| ==> !vs[i].initial
    ensures EncodeParts(boundary, Marked(vs)).Ok?
    ensures EncodeParts(boundary, Marked(vs)).data == Encoding(boundary, PartsOf(vs))
            <==> forall i :: 0 <= i < |vs| - 1 ==> !vs[i].final
  {
    if vs != [] {
      var m := Marked(vs);
      assert PartsOf(m) == PartsOf(vs);
      MarkedComplete(vs);
      hide Complete, PartsOf;
      EncodedLength(boundary, m, true);
      NoStaleBytes(boundary, m);
      hide EncodeParts, FramesFrom, StaleBytes, Payloads;
      assert forall i :: 0 <= i < |vs| - 1 ==> m[i].final == vs[i].final;
    }
  }

  /** A form encoded, extended and encoded again is never the framing of the parts it then has. */
  lemma EncodedAgain(boundary: Bytes, vs: seq<PartView>, v: PartView)
    requires vs != [] && !v.initial && (forall i :: 1 <= i < |vs| ==> !vs[i].initial)
    ensures var all := AfterEncode(vs) + [v];
            EncodeParts(boundary, Marked(all)) != Ok(Encoding(boundary, PartsOf(all)))
  {
    var all := AfterEncode(vs) + [v];
    assert all[|vs| - 1].final;
    hide Complete;
    MarkedComplete(all);
    if forall u <- all :: Complete(u) {
      EncodedOnce(boundary, all);
    } else {
      EncodesWhenComplete(boundary, Marked(all));
    }
    hide EncodeParts, Marked, PartsOf;
  }

  /** A form encoded once, after its last part was appended, is read back exactly when its parts are clean. */
  lemma EncodeReadsBack(boundary: Bytes, vs: seq<PartView>)
    requires CR !in boundary && forall v <- vs :: Complete(v) && !v.initial && !v.final
    ensures EncodeParts(boundary, Marked(vs)).Ok?
    ensures Decode(boundary, EncodeParts(boundary, Marked(vs)).data) == Some(PartsOf(vs))
            <==> forall p <- PartsOf(vs) :: CleanPart(boundary, p)
  {
    hide Complete, CleanPart;
    EncodedOnce(boundary, vs);
    FormRecovered(boundary, PartsOf(vs));
    hide EncodeParts, Marked, Decode, PartsOf;
  }

  // ----- To a file -----

  /** An output file: what it holds, and how it answers each write. */
  datatype File = File(written: Bytes, calls: nat, behaviour: nat -> Write)

  datatype Chunk = Data(data: Bytes) | Broken(code: int)

  /** The write loop: it stops without an error when the stream has no space. */
  function WriteBytes(f: File, buffer: Bytes): (File, Option<FormError>)
    decreases |buffer|
  {
    if buffer == [] then (f, None)
    else
      match f.behaviour(f.calls)
      case NoSpace => (f.(calls := f.calls + 1), None)
      case WriteFailed(code) => (f.(calls := f.calls + 1), Some(OutputStreamWriteFailed(code)))
      case Accepts(n) =>
        var k := if n < |buffer| then n else |buffer|;
        WriteBytes(f.(written := f.written + buffer[..k], calls := f.calls + 1), buffer[k..])
  }

  function WriteChunks(f: File, chunks: seq<Chunk>): (File, Option<FormError>)
    decreases |chunks|
  {
    if chunks == [] then (f, None)
    else
      match chunks[0]
      case Broken(code) => (f, Some(InputStreamReadFailed(code)))
      case Data(data) =>
        var (f', e) := WriteBytes(f, data);
        if e.Some? then (f', e) else WriteChunks(f', chunks[1..])
  }

  function BodyChunks(input: seq<Read>): seq<Chunk> {
    if input == [] then []
    else
      match input[0]
      case ReadFailed(code) => [Broken(code)]
      case Got(data) => if data == [] then [] else [Data(data)] + BodyChunks(input[1..])
  }

  /** A part goes out as its boundary, its headers, each piece of its body, and its final boundary. */
  function PartChunks(boundary: Bytes, v: PartView): seq<Chunk> {
    [Data(BoundaryData(if v.initial then Initial else Encapsulated, boundary)), Data(EncodeHeaders(v.headers))]
    + BodyChunks(v.input) + (if v.final then [Data(BoundaryData(Final, boundary))] else [])
  }

  function FormChunks(boundary: Bytes, vs: seq<PartView>): seq<Chunk> {
    if vs == [] then [] else PartChunks(boundary, vs[0]) + FormChunks(boundary, vs[1..])
  }

  /** The bytes of the chunks up to a broken one. */
  function Joined(chunks: seq<Chunk>): Bytes {
    if chunks == [] || chunks[0].Broken? then [] else chunks[0].data + Joined(chunks[1..])
  }

  lemma {:induction false} JoinedBoth(xs: seq<Chunk>, ys: seq<Chunk>)
    requires forall c <- xs :: c.Data?
    ensures Joined(xs + ys) == Joined(xs) + Joined(ys)
  {
    if xs == [] {
      assert xs + ys == ys;
    } else {
      assert xs[0] in xs;
      assert (xs + ys)[1..] == xs[1..] + ys;
      JoinedBoth(xs[1..], ys);
    }
  }

  lemma {:induction false} BodyJoined(input: seq<Read>)
    requires StreamData(input).Ok?
    ensures (forall c <- BodyChunks(input) :: c.Data?) && Joined(BodyChunks(input)) == StreamData(input).data
  {
    if input != [] && input[0].data != [] {
      BodyJoined(input[1..]);
    }
  }

  /** A part that encodes goes out as the same bytes. */
  lemma SingleJoined(c: Chunk)
    requires c.Data?
    ensures Joined([c]) == c.data && Joined([]) == []
  {
    assert [c][1..] == [];
  }

  lemma PiecesJoined(first: Chunk, heads: Chunk, body: seq<Chunk>, last: seq<Chunk>)
    requires first.Data? && heads.Data? && (forall c <- body :: c.Data?) && (forall c <- last :: c.Data?)
    ensures Joined([first, heads] + body + last) == first.data + heads.data + Joined(body) + Joined(last)
  {
    hide Joined;
    JoinedBoth([first, heads] + body, last);
    JoinedBoth([first, heads], body);
    JoinedBoth([first], [heads]);
    SingleJoined(first);
    SingleJoined(heads);
    assert [first] + [heads] == [first, heads];
  }

  lemma PartJoined(boundary: Bytes, v: PartView)
    requires EncodePart(boundary, v).Ok?
    ensures (forall c <- PartChunks(boundary, v) :: c.Data?)
    ensures Joined(PartChunks(boundary, v)) == EncodePart(boundary, v).data
  {
    hide BoundaryData, EncodeHeaders, BodyChunks, StreamData, Joined;
    BodyJoined(v.input);
    var first, heads := Data(BoundaryData(if v.initial then Initial else Encapsulated, boundary)), Data(EncodeHeaders(v.headers));
    var last := Data(BoundaryData(Final, boundary));
    PiecesJoined(first, heads, BodyChunks(v.input), if v.final then [last] else []);
    SingleJoined(last);
  }

  lemma {:induction false} FormJoined(boundary: Bytes, vs: seq<PartView>)
    requires EncodeParts(boundary, vs).Ok?
    ensures (forall c <- FormChunks(boundary, vs) :: c.Data?)
    ensures Joined(FormChunks(boundary, vs)) == EncodeParts(boundary, vs).data
  {
    if vs != [] {
      PartJoined(boundary, vs[0]);
      FormJoined(boundary, vs[1..]);
      hide PartChunks, EncodePart;
      JoinedBoth(PartChunks(boundary, vs[0]), FormChunks(boundary, vs[1..]));
    }
  }

  /** What the write loop puts in the file is a prefix, and all of it if every write finds room. */
  lemma {:induction false} WritesPrefix(f: File, buffer: Bytes)
    ensures var (f', e) := WriteBytes(f, buffer);
            && f.written <= f'.written <= f.written + buffer && f'.behaviour == f.behaviour
            && ((forall k :: f.behaviour(k).Accepts?) ==> e.None? && f'.written == f.written + buffer)
    decreases |buffer|
  {
    if buffer != [] && f.behaviour(f.calls).Accepts? {
      var n := f.behaviour(f.calls).n;
      var k := if n < |buffer| then n else |buffer|;
      var next := f.(written := f.written + buffer[..k], calls := f.calls + 1);
      WritesPrefix(next, buffer[k..]);
      assert next.written + buffer[k..] == f.written + buffer;
    } else {
      assert f.written <= f.written + buffer;
      assert buffer == [] ==> f.written == f.written + buffer;
    }
  }

  /** Pieces may be missing from the file, but a file of the full length holds the full bytes. */
  lemma {:induction false} FullLengthIsComplete(f: File, chunks: seq<Chunk>)
    ensures var f' := WriteChunks(f, chunks).0;
            && f.written <= f'.written && |f'.written| <= |f.written| + |Joined(chunks)|
            && (|f'.written| == |f.written| + |Joined(chunks)| ==> f'.written == f.written + Joined(chunks))
    decreases |chunks|
  {
    if chunks != [] && chunks[0].Data? {
      var (f1, e) := WriteBytes(f, chunks[0].data);
      WritesPrefix(f, chunks[0].data);
      var more := Joined(chunks[1..]);
      if e.None? {
        FullLengthIsComplete(f1, chunks[1..]);
      }
      if |f1.written| == |f.written| + |chunks[0].data| {
        assert f1.written == f.written + chunks[0].data;
      }
      hide WriteBytes;
      assert f.written + (chunks[0].data + more) == f.written + chunks[0].data + more;
    }
  }

  // ----- Exactly which files are complete, and which losses are reported -----

  /** The call after those that writing `n` bytes makes, from call `k` on: it stops at an answer that takes nothing. */
  function AskedFor(behaviour: nat -> Write, k: nat, n: nat): (next: nat)
    ensures next >= k
    decreases n
  {
    if n == 0 then k
    else
      match behaviour(k)
      case NoSpace => k + 1
      case WriteFailed(_) => k + 1
      case Accepts(m) => AskedFor(behaviour, k + 1, if m < n then n - m else 0)
  }

  /** The call after those that writing pieces of these lengths makes: it goes on after a stream without space. */
  function Asked(behaviour: nat -> Write, k: nat, lengths: seq<nat>): (next: nat)
    ensures next >= k
    decreases |lengths|
  {
    if lengths == [] then k
    else
      var next := AskedFor(behaviour, k, lengths[0]);
      if k < next && behaviour(next - 1).WriteFailed? then next else Asked(behaviour, next, lengths[1..])
  }

  function Lengths(chunks: seq<Chunk>): (ls: seq<nat>)
    ensures |ls| == |chunks|
  {
    seq(|chunks|, i requires 0 <= i < |chunks| => if chunks[i].Data? then |chunks[i].data| else 0)
  }

  /** Every answer to the calls from `k` up to `next` takes some bytes. */
  predicate AllAccept(behaviour: nat -> Write, k: nat, next: nat) {
    forall i :: k <= i < next ==> behaviour(i).Accepts?
  }

  /** One of the answers is an error. */
  predicate SomeFails(behaviour: nat -> Write, k: nat, next: nat) {
    exists i :: k <= i < next && behaviour(i).WriteFailed?
  }

  /** One of the answers is that there is no space. */
  predicate SomeNoSpace(behaviour: nat -> Write, k: nat, next: nat) {
    exists i :: k <= i < next && behaviour(i).NoSpace?
  }

  lemma {:induction false} BytesExactly(f: File, buffer: Bytes)
    ensures var (f', e) := WriteBytes(f, buffer); var next := AskedFor(f.behaviour, f.calls, |buffer|);
            && f'.calls == next && f'.behaviour == f.behaviour
            && (f'.written == f.written + buffer <==> AllAccept(f.behaviour, f.calls, next))
            && (e.Some? <==> SomeFails(f.behaviour, f.calls, next))
            && (e.Some? <==> f.calls < next && f.behaviour(next - 1).WriteFailed?)
    decreases |buffer|
  {
    if buffer != [] && f.behaviour(f.calls).Accepts? {
      var n := f.behaviour(f.calls).n;
      var k := if n < |buffer| then n else |buffer|;
      var more := f.(written := f.written + buffer[..k], calls := f.calls + 1);
      BytesExactly(more, buffer[k..]);
      assert more.written + buffer[k..] == f.written + buffer;
      var next := AskedFor(f.behaviour, f.calls, |buffer|);
      LaterAnswers(f.behaviour, f.calls, f.calls + 1, next);
      hide AllAccept, SomeFails;
    } else if buffer != [] {
      assert f.behaviour(f.calls + 1 - 1) == f.behaviour(f.calls);
    }
  }

  /** Answers up to `next`, the first of them taken apart. */
  lemma LaterAnswers(behaviour: nat -> Write, k: nat, mid: nat, next: nat)
    requires k <= mid <= next
    ensures AllAccept(behaviour, k, next) <==> AllAccept(behaviour, k, mid) && AllAccept(behaviour, mid, next)
    ensures SomeFails(behaviour, k, next) <==> SomeFails(behaviour, k, mid) || SomeFails(behaviour, mid, next)
  {
    if SomeFails(behaviour, k, next) {
      var i :| k <= i < next && behaviour(i).WriteFailed?;
      assert i < mid || mid <= i;
    }
  }

  lemma {:induction false} ChunksExactly(f: File, chunks: seq<Chunk>)
    requires forall c <- chunks :: c.Data?
    ensures var (f', e) := WriteChunks(f, chunks); var next := Asked(f.behaviour, f.calls, Lengths(chunks));
            && f'.calls == next
            && (f'.written == f.written + Joined(chunks) <==> AllAccept(f.behaviour, f.calls, next))
            && (e.Some? <==> SomeFails(f.behaviour, f.calls, next))
    decreases |chunks|
  {
    if chunks != [] {
      assert chunks[0] in chunks;
      var (f1, e) := WriteBytes(f, chunks[0].data);
      BytesExactly(f, chunks[0].data);
      ChunksExactly(f1, chunks[1..]);
      PieceAsked(f, chunks);
      LaterAnswers(f.behaviour, f.calls, f1.calls, Asked(f.behaviour, f.calls, Lengths(chunks)));
      FailureStops(f.behaviour, f.calls, f1.calls);
      FirstPiece(f, chunks);
      hide WriteBytes, WriteChunks, Asked, AskedFor, AllAccept, SomeFails, Joined, Lengths;
    }
  }

  /** Writing the first piece either ends the writing with its error, or goes on to the others. */
  lemma PieceAsked(f: File, chunks: seq<Chunk>)
    requires chunks != [] && chunks[0].Data?
    ensures var (f1, e) := WriteBytes(f, chunks[0].data); var rest := chunks[1..];
            f1.calls <= Asked(f.behaviour, f.calls, Lengths(chunks))
            == if e.Some? then f1.calls else Asked(f.behaviour, f1.calls, Lengths(rest))
  {
    hide WriteBytes, Asked, AskedFor, AllAccept, SomeFails;
    BytesExactly(f, chunks[0].data);
    LengthsUnfold(chunks);
    hide Lengths;
    AskedUnfold(f.behaviour, f.calls, Lengths(chunks));
  }

  lemma LengthsUnfold(chunks: seq<Chunk>)
    requires chunks != [] && chunks[0].Data?
    ensures Lengths(chunks)[0] == |chunks[0].data| && Lengths(chunks)[1..] == Lengths(chunks[1..])
  {
  }

  lemma AskedUnfold(behaviour: nat -> Write, k: nat, lengths: seq<nat>)
    requires lengths != []
    ensures var next := AskedFor(behaviour, k, lengths[0]);
            Asked(behaviour, k, lengths)
            == if k < next && behaviour(next - 1).WriteFailed? then next else Asked(behaviour, next, lengths[1..])
  {
  }

  lemma FailureStops(behaviour: nat -> Write, k: nat, next: nat)
    ensures SomeFails(behaviour, k, next) ==> !AllAccept(behaviour, k, next)
  {
  }

  /** Where not all answers accept and none fails, some say that there is no space. */
  lemma SilentLoss(behaviour: nat -> Write, next: nat)
    ensures !AllAccept(behaviour, 0, next) && !SomeFails(behaviour, 0, next)
            <==> SomeNoSpace(behaviour, 0, next) && !SomeFails(behaviour, 0, next)
  {
    if !AllAccept(behaviour, 0, next) && !SomeFails(behaviour, 0, next) {
      var i :| 0 <= i < next && !behaviour(i).Accepts?;
      assert behaviour(i).NoSpace?;
    }
  }

  /** The file is complete only if its first piece is, and what follows it. */
  lemma FirstPiece(f: File, chunks: seq<Chunk>)
    requires chunks != [] && chunks[0].Data?
    ensures var f1 := WriteBytes(f, chunks[0].data).0; var f' := WriteChunks(f, chunks).0;
            f'.written == f.written + Joined(chunks) <==>
            f1.written == f.written + chunks[0].data && f'.written == f1.written + Joined(chunks[1..])
  {
    var (f1, e) := WriteBytes(f, chunks[0].data);
    var f', rest := WriteChunks(f, chunks).0, Joined(chunks[1..]);
    assert f' == if e.Some? then f1 else WriteChunks(f1, chunks[1..]).0;
    assert Joined(chunks) == chunks[0].data + rest;
    WritesPrefix(f, chunks[0].data);
    FullLengthIsComplete(f1, chunks[1..]);
    hide WriteBytes, WriteChunks, Joined;
    Halves(f.written, chunks[0].data, rest, f1.written, f'.written);
  }

  lemma Halves(before: Bytes, first: Bytes, rest: Bytes, mid: Bytes, after: Bytes)
    requires before <= mid <= before + first && mid <= after && |after| <= |mid| + |rest|
    ensures after == before + (first + rest) <==> mid == before + first && after == mid + rest
  {
    assert before + (first + rest) == before + first + rest;
    if after == before + first + rest {
      assert |mid| == |before + first|;
    }
  }

  /**
    For a form that encodes in memory, the file gets the same bytes if and only if every write it asks for finds
    room; and an error is reported if and only if one of them fails. So bytes are lost without an error exactly
    when some write finds no space and none fails. Which writes are asked for follows from the answers and the
    lengths of the pieces.
   */
  lemma FileHoldsEncoding(boundary: Bytes, vs: seq<PartView>, behaviour: nat -> Write)
    requires EncodeParts(boundary, vs).Ok?
    ensures var data, chunks := EncodeParts(boundary, vs).data, FormChunks(boundary, vs);
            var (f, e) := WriteChunks(File([], 0, behaviour), chunks);
            var asked := Asked(behaviour, 0, Lengths(chunks));
            && f.calls == asked
            && (f.written == data <==> AllAccept(behaviour, 0, asked))
            && (e.Some? <==> SomeFails(behaviour, 0, asked))
            && (f.written != data && e.None? <==> SomeNoSpace(behaviour, 0, asked) && !SomeFails(behaviour, 0, asked))
  {
    hide WriteChunks, FormChunks, EncodeParts, Joined, Asked, Lengths, AllAccept, SomeFails, SomeNoSpace;
    FormJoined(boundary, vs);
    var chunks, data := FormChunks(boundary, vs), EncodeParts(boundary, vs).data;
    ChunksExactly(File([], 0, behaviour), chunks);
    assert [] + Joined(chunks) == data;
    SilentLoss(behaviour, Asked(behaviour, 0, Lengths(chunks)));
    var (f, e) := WriteChunks(File([], 0, behaviour), chunks);
    assert f.written != data && e.None? <==> !AllAccept(behaviour, 0, f.calls) && !SomeFails(behaviour, 0, f.calls);
  }

  /** A stream that never has room leaves the file as it was, and no write reports it. */
  lemma {:induction false} NoSpaceGoesUnreported(f: File, chunks: seq<Chunk>)
    requires (forall k :: f.behaviour(k).NoSpace?) && (forall c <- chunks :: c.Data?)
    ensures var (f', e) := WriteChunks(f, chunks); e.None? && f'.written == f.written
    decreases |chunks|
  {
    if chunks != [] {
      assert chunks[0] in chunks;
      NoSpaceGoesUnreported(WriteBytes(f, chunks[0].data).0, chunks[1..]);
    }
  }

  lemma {:induction false} StreamsDeliver(boundary: Bytes, vs: seq<PartView>)
    requires forall v <- vs :: StreamData(v.input).Ok?
    ensures forall c <- FormChunks(boundary, vs) :: c.Data?
  {
    if vs != [] {
      assert vs[0] in vs;
      BodyJoined(vs[0].input);
      StreamsDeliver(boundary, vs[1..]);
      hide BoundaryData, BodyChunks, EncodeHeaders;
    }
  }

  /**
    Writing to a file does not check the lengths that encoding in memory insists on: it fails only where a write
    fails.
   */
  lemma FileIgnoresLengths(boundary: Bytes, vs: seq<PartView>, behaviour: nat -> Write)
    requires forall v <- vs :: StreamData(v.input).Ok?
    ensures var chunks := FormChunks(boundary, vs);
            WriteChunks(File([], 0, behaviour), chunks).1.Some? <==>
            SomeFails(behaviour, 0, Asked(behaviour, 0, Lengths(chunks)))
    ensures EncodeParts(boundary, vs).Ok? <==> forall v <- vs :: |StreamData(v.input).data| == v.length
  {
    StreamsDeliver(boundary, vs);
    ChunksExactly(File([], 0, behaviour), FormChunks(boundary, vs));
    EncodesWhenComplete(boundary, vs);
    hide WriteChunks, FormChunks, EncodeParts, StreamData, Asked, Lengths, SomeFails;
  }
}

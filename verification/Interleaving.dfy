/**
  Arrays among other fields: the entries of one array may stand anywhere in a message, and are gathered in order
  without influencing what the fields around them decode to.
 */
module Interleaving {
  import opened Options
  import opened Bits
  import opened Wire
  import opened Scalars
  import opened Schema
  import opened Encoding
  import opened Decoding
  import opened Messages
  import opened Merging

  // ----- Where the payload of a field ends -----

  /** What a field leaves unread, whatever it is decoded into. */
  function AfterPayload(f: Field, wireType: nat, bs: seq<byte>): Option<seq<byte>> {
    if f.ltype.Submessage? || (f.htype.Repeated? && wireType == WT_STRING && Packable(f.ltype)) then
      match Substream(bs) case Fail => None case Done(_, rest) => Some(rest)
    else
      match DecScalar(f, bs) case Fail => None case Done(_, rest) => Some(rest)
  }

  lemma ValueFramed(f: Field, base: Value, bs: seq<byte>, t: seq<byte>)
    requires (if f.ltype.Submessage? then Substream(bs).Done? && Substream(bs).rest == []
              else DecScalar(f, bs).Done? && DecScalar(f, bs).rest == [])
    ensures DecValue(f, base, bs).Done? ==> DecValue(f, base, bs).rest == []
    ensures DecValue(f, base, bs + t) == Extend(DecValue(f, base, bs), t)
  {
    hide DecScalar, Substream, DecNoinit;
    if f.ltype.Submessage? {
      SubstreamLocal(bs, t);
    } else {
      DecScalarLocal(f, bs, t);
    }
  }

  /** A whole payload decodes to the same slot, or is refused, whatever follows it. */
  lemma FieldFramed(f: Field, wireType: nat, s: Slot, bs: seq<byte>, t: seq<byte>)
    requires AfterPayload(f, wireType, bs) == Some([])
    ensures DecField(f, wireType, s, bs).Done? ==> DecField(f, wireType, s, bs).rest == []
    ensures DecField(f, wireType, s, bs + t) == Extend(DecField(f, wireType, s, bs), t)
  {
    hide DecScalar, Substream, DecValue, DecPacked;
    if f.htype.Repeated? && wireType == WT_STRING && Packable(f.ltype) {
      SubstreamLocal(bs, t);
    } else {
      var base := match f.htype case Repeated => VNone case Oneof => UnionBase(f, s) case _ => ValueOf(s);
      ValueFramed(f, base, bs, t);
    }
  }

  // ----- One field that is not the array -----

  /** `u` is one complete field, known or unknown, that is not decoded into the slot `i`. */
  predicate Elsewhere(fields: seq<Field>, i: nat, u: seq<byte>) {
    match DecTag(u)
    case Tag(tag, wireType, rest) =>
      (match Find(fields, tag)
       case None => SkipField(wireType, rest) == Done((), [])
       case Some(j) => Home(fields, j) != i && AfterPayload(fields[j], wireType, rest) == Some([]))
    case _ => false
  }

  /** The array without a count that was met last is not the one at `i`. */
  predicate Apart(fields: seq<Field>, i: nat, seen: Progress) {
    seen.fixed.Some? && seen.fixed.value < |fields| ==> Home(fields, seen.fixed.value) != i
  }

  /** Another field is begun, and decoded into, as if the slot `i` were not there. */
  lemma {:induction false} SlotIgnored(fields: seq<Field>, i: nat, slots: seq<Slot>, seen: Progress, s: Slot, j: nat)
    requires i < |fields| == |slots| && j < |fields| && Home(fields, j) != i && Apart(fields, i, seen)
    ensures MayBegin(fields, slots[i := s], seen, j) == MayBegin(fields, slots, seen, j)
    ensures Current(fields, slots[i := s], seen, j) == Current(fields, slots, seen, j)
    ensures Apart(fields, i, See(fields, seen, j))
    ensures forall v :: Put(slots[i := s], Home(fields, j), v) == Put(slots, Home(fields, j), v)[i := s]
  {
    hide Home;
  }

  /** A round on another field, with more input behind it and other contents in the slot `i`. */
  lemma {:induction false} RoundElsewhere(fields: seq<Field>, i: nat, slots: seq<Slot>, seen: Progress, s: Slot, u: seq<byte>, t: seq<byte>)
    requires i < |fields| == |slots| && Elsewhere(fields, i, u) && Apart(fields, i, seen)
    ensures u != []
    ensures var n := LoopRound(fields, slots, seen, u);
            && LoopRound(fields, slots, seen, u + t) == (if n.Next? then Next(n.slots, n.seen, t) else RoundFail)
            && LoopRound(fields, slots[i := s], seen, u + t) ==
               (if n.Next? then Next(Put(n.slots, i, s), n.seen, t) else RoundFail)
            && (n.Next? ==> |n.slots| == |fields| && Apart(fields, i, n.seen))
  {
    assert u != [];
    DecTagLocal(u, t);
    var tag := DecTag(u);
    hide DecTag, DecField, SkipField, Find, AfterPayload, Home, MayBegin, Current, See, Apart;
    var j := Find(fields, tag.tag);
    assert [] + t == t;
    if j.None? {
      SkipFieldLocal(tag.wireType, tag.rest, t);
    } else {
      FieldFramed(fields[j.value], tag.wireType, Current(fields, slots, seen, j.value), tag.rest, t);
      SlotIgnored(fields, i, slots, seen, s, j.value);
    }
  }

  // ----- A stream -----

  /** A piece of a stream: entries of the array, or another field. */
  datatype Piece = Entries(chunk: Chunk) | Other(field: seq<byte>)

  function StreamBytes(f: Field, ps: seq<Piece>): seq<byte> {
    if ps == [] then []
    else (match ps[0] case Entries(c) => ChunkBytes(f, c) case Other(u) => u) + StreamBytes(f, ps[1..])
  }

  /** The stream without the array. */
  function OtherBytes(ps: seq<Piece>): seq<byte> {
    if ps == [] then [] else (if ps[0].Other? then ps[0].field else []) + OtherBytes(ps[1..])
  }

  function StreamItems(ps: seq<Piece>): seq<Value> {
    if ps == [] then [] else (if ps[0].Entries? then ChunkItems(ps[0].chunk) else []) + StreamItems(ps[1..])
  }

  predicate WfPiece(fields: seq<Field>, i: nat, p: Piece)
    requires i < |fields|
  {
    match p
    case Entries(c) => WfChunk(fields[i], c)
    case Other(u) => Elsewhere(fields, i, u)
  }

  /** The array at `i` has a count, and packs. */
  predicate CountedArray(fields: seq<Field>, i: nat) {
    && ValidSchema(fields) && i < |fields|
    && fields[i].htype.Repeated? && !FixedCount(fields[i]) && Packable(fields[i].ltype)
  }

  /** A counted array is gone on with whatever else was met. */
  lemma {:induction false} CountedHolding(fields: seq<Field>, i: nat, cur: seq<Slot>, seen: Progress, done: seq<Value>)
    requires CountedArray(fields, i) && |cur| == |fields| && |done| <= fields[i].arraySize
    ensures Holding(fields, i, cur[i := Rep(done)], seen, done) && See(fields, seen, i) == seen
  {
    HomeIdempotent(fields, i);
    hide ValidSchema;
  }

  /** The outcome `r` of a loop, had the array at `i` been there with the given entries. */
  function WithArray(r: Loop, fields: seq<Field>, i: nat, items: seq<Value>): Loop
    requires i < |fields|
  {
    if r.LoopDone? && |items| <= fields[i].arraySize then r.(slots := Put(r.slots, i, Rep(items))) else LoopFail
  }

  lemma {:induction false} Nothing(fields: seq<Field>, i: nat, cur: seq<Slot>, seen: Progress, done: seq<Value>, ps: seq<Piece>)
    requires i < |fields| == |cur| && |done| <= fields[i].arraySize && ps == []
    ensures DecLoop(fields, cur[i := Rep(done)], seen, StreamBytes(fields[i], ps)) ==
            WithArray(DecLoop(fields, cur, seen, OtherBytes(ps)), fields, i, done + StreamItems(ps))
  {
    assert done + [] == done;
  }

  /** A chunk of the array at the head of a stream. */
  lemma {:induction false} EntriesStep(fields: seq<Field>, i: nat, cur: seq<Slot>, seen: Progress, done: seq<Value>, c: Chunk, rest: seq<Piece>)
    requires CountedArray(fields, i) && |cur| == |fields| && |done| <= fields[i].arraySize && WfChunk(fields[i], c)
    ensures var ps := [Entries(c)] + rest;
            && OtherBytes(ps) == OtherBytes(rest)
            && done + StreamItems(ps) == done + ChunkItems(c) + StreamItems(rest)
            && DecLoop(fields, cur[i := Rep(done)], seen, StreamBytes(fields[i], ps)) ==
               if |done| + |ChunkItems(c)| <= fields[i].arraySize
               then DecLoop(fields, cur[i := Rep(done + ChunkItems(c))], seen, StreamBytes(fields[i], rest)) else LoopFail
  {
    var ps := [Entries(c)] + rest;
    assert ps[0] == Entries(c) && ps[1..] == rest;
    hide DecLoop, WfChunk, ChunkBytes, ChunkItems, Holding, See;
    JoinFirst(done, ChunkItems(c), StreamItems(rest));
    CountedHolding(fields, i, cur, seen, done);
    hide CountedArray;
    ChunkStep(fields, i, cur[i := Rep(done)], seen, done, c, StreamBytes(fields[i], rest));
    assert cur[i := Rep(done)][i := Rep(done + ChunkItems(c))] == cur[i := Rep(done + ChunkItems(c))];
  }

  /** Another field at the head of a stream, with the array in it and without. */
  lemma {:induction false} OtherStep(fields: seq<Field>, i: nat, cur: seq<Slot>, seen: Progress, done: seq<Value>, u: seq<byte>, rest: seq<Piece>)
    requires i < |fields| == |cur| && Elsewhere(fields, i, u) && Apart(fields, i, seen)
    ensures u != []
    ensures var ps, n := [Other(u)] + rest, LoopRound(fields, cur, seen, u);
            && StreamItems(ps) == StreamItems(rest)
            && DecLoop(fields, cur, seen, OtherBytes(ps)) ==
               (if n.Next? then DecLoop(fields, n.slots, n.seen, OtherBytes(rest)) else LoopFail)
            && DecLoop(fields, cur[i := Rep(done)], seen, StreamBytes(fields[i], ps)) ==
               (if n.Next? then DecLoop(fields, Put(n.slots, i, Rep(done)), n.seen, StreamBytes(fields[i], rest)) else LoopFail)
            && (n.Next? ==> |n.slots| == |fields| && Apart(fields, i, n.seen))
  {
    var ps := [Other(u)] + rest;
    assert ps[0] == Other(u) && ps[1..] == rest;
    var f := fields[i];
    assert OtherBytes(ps) == u + OtherBytes(rest) && StreamBytes(f, ps) == u + StreamBytes(f, rest);
    hide LoopRound, OtherBytes, StreamBytes, Elsewhere, Apart, DecLoop;
    RoundElsewhere(fields, i, cur, seen, Rep(done), u, OtherBytes(rest));
    RoundElsewhere(fields, i, cur, seen, Rep(done), u, StreamBytes(f, rest));
    LoopUnfold(fields, cur, seen, u + OtherBytes(rest));
    LoopUnfold(fields, cur[i := Rep(done)], seen, u + StreamBytes(f, rest));
  }

  /**
    The entries of a counted array may stand anywhere between other fields: they are appended to what the array
    held, in the order of the stream, exactly as long as they fit it, and everything else is decoded as if the array
    were not in the stream.
   */
  lemma {:induction false} LoopInterleaved(fields: seq<Field>, i: nat, cur: seq<Slot>, seen: Progress, done: seq<Value>, ps: seq<Piece>)
    requires CountedArray(fields, i) && |cur| == |fields| && |done| <= fields[i].arraySize && Apart(fields, i, seen)
    requires forall k :: 0 <= k < |ps| ==> WfPiece(fields, i, ps[k])
    ensures DecLoop(fields, cur[i := Rep(done)], seen, StreamBytes(fields[i], ps)) ==
            WithArray(DecLoop(fields, cur, seen, OtherBytes(ps)), fields, i, done + StreamItems(ps))
    ensures var r := DecLoop(fields, cur, seen, OtherBytes(ps));
            r.LoopDone? && |done + StreamItems(ps)| <= fields[i].arraySize ==> Apart(fields, i, r.seen)
    decreases |ps|
  {
    if ps == [] {
      Nothing(fields, i, cur, seen, done, ps);
    } else {
      hide DecLoop, StreamBytes, OtherBytes, StreamItems, Elsewhere, WfChunk, CountedArray, Apart, WithArray;
      var p, rest := ps[0], ps[1..];
      assert WfPiece(fields, i, p);
      match p {
        case Entries(c) =>
          EntriesStep(fields, i, cur, seen, done, c, rest);
          if |done| + |ChunkItems(c)| <= fields[i].arraySize {
            LoopInterleaved(fields, i, cur, seen, done + ChunkItems(c), rest);
          }
        case Other(u) =>
          OtherStep(fields, i, cur, seen, done, u, rest);
          var n := LoopRound(fields, cur, seen, u);
          if n.Next? {
            LoopInterleaved(fields, i, n.slots, n.seen, done, rest);
          }
      }
    }
  }

  /** The same for whole messages, required fields and arrays without a count included. */
  lemma {:induction false} ArrayAnywhere(fields: seq<Field>, i: nat, slots: seq<Slot>, done: seq<Value>, ps: seq<Piece>)
    requires CountedArray(fields, i) && |slots| == |fields| && slots[i] == Rep(done) && |done| <= fields[i].arraySize
    requires forall k :: 0 <= k < |ps| ==> WfPiece(fields, i, ps[k])
    ensures var others, items := DecNoinit(fields, slots, OtherBytes(ps)), done + StreamItems(ps);
            DecNoinit(fields, slots, StreamBytes(fields[i], ps)) ==
            if others.Done? && |items| <= fields[i].arraySize then Done(Put(others.value, i, Rep(items)), others.rest)
            else Fail
  {
    assert slots[i := Rep(done)] == slots;
    hide DecLoop, StreamBytes, OtherBytes, StreamItems, Elsewhere, WfChunk, CountedArray, AllRequiredSeen;
    LoopInterleaved(fields, i, slots, UNSEEN, done, ps);
  }

  /** Where the entries stand does not matter, nor how they are cut into chunks: only their order does. */
  lemma {:induction false} EntriesMove(fields: seq<Field>, i: nat, slots: seq<Slot>, done: seq<Value>, ps: seq<Piece>, qs: seq<Piece>)
    requires CountedArray(fields, i) && |slots| == |fields| && slots[i] == Rep(done) && |done| <= fields[i].arraySize
    requires forall k :: 0 <= k < |ps| ==> WfPiece(fields, i, ps[k])
    requires forall k :: 0 <= k < |qs| ==> WfPiece(fields, i, qs[k])
    requires OtherBytes(ps) == OtherBytes(qs) && StreamItems(ps) == StreamItems(qs)
    ensures DecNoinit(fields, slots, StreamBytes(fields[i], ps)) == DecNoinit(fields, slots, StreamBytes(fields[i], qs))
  {
    ArrayAnywhere(fields, i, slots, done, ps);
    ArrayAnywhere(fields, i, slots, done, qs);
    hide *;
  }
}

/**
  How decoding composes: decoders ignore the bytes after those they consume, so concatenated messages merge,
  unknown fields can be inserted anywhere between fields, and packed and unpacked arrays mix freely.
 */
module Merging {
  import opened Bits
  import opened Wire
  import opened Scalars
  import opened Schema
  import opened Encoding
  import opened Decoding
  import opened Messages

  // ----- Locality -----

  lemma TakeLocal(bs: seq<byte>, n: nat, t: seq<byte>)
    requires Take(bs, n).Done?
    ensures Take(bs + t, n) == Extend(Take(bs, n), t)
  {
    assert (bs + t)[..n] == bs[..n] && (bs + t)[n..] == bs[n..] + t;
  }

  lemma DecScalarLocal(f: Field, bs: seq<byte>, t: seq<byte>)
    requires !f.ltype.Submessage? && DecScalar(f, bs).Done?
    ensures DecScalar(f, bs + t) == Extend(DecScalar(f, bs), t)
  {
    hide DecVarint32, DecVarint, Narrow, LengthAccepted, FromLittleEndian;
    if f.ltype.Varint? || f.ltype.Uvarint? || f.ltype.Svarint? {
      DecVarintLocal(bs, t);
    } else if f.ltype.Fixed32? {
      TakeLocal(bs, 4, t);
    } else if f.ltype.Fixed64? {
      TakeLocal(bs, 8, t);
    } else {
      DecVarint32Local(bs, t);
      var d := DecVarint32(bs);
      if !f.ltype.Bool? && !(f.ltype.FixedLengthBytes? && d.value == 0) {
        TakeLocal(d.rest, d.value, t);
      }
    }
  }

  lemma SubstreamLocal(bs: seq<byte>, t: seq<byte>)
    requires Substream(bs).Done?
    ensures Substream(bs + t) == Extend(Substream(bs), t)
  {
    hide DecVarint32;
    DecVarint32Local(bs, t);
    TakeLocal(DecVarint32(bs).rest, DecVarint32(bs).value, t);
  }

  lemma DecValueLocal(f: Field, base: Value, bs: seq<byte>, t: seq<byte>)
    requires DecValue(f, base, bs).Done?
    ensures DecValue(f, base, bs + t) == Extend(DecValue(f, base, bs), t)
  {
    hide DecScalar, Substream, DecNoinit;
    if f.ltype.Submessage? {
      SubstreamLocal(bs, t);
    } else {
      DecScalarLocal(f, bs, t);
    }
  }

  lemma DecFieldLocal(f: Field, wireType: nat, s: Slot, bs: seq<byte>, t: seq<byte>)
    requires DecField(f, wireType, s, bs).Done?
    ensures DecField(f, wireType, s, bs + t) == Extend(DecField(f, wireType, s, bs), t)
  {
    hide DecValue, Substream, DecPacked;
    if f.htype.Repeated? && wireType == WT_STRING && Packable(f.ltype) {
      SubstreamLocal(bs, t);
    } else {
      var base := match f.htype case Repeated => VNone case Oneof => UnionBase(f, s) case _ => ValueOf(s);
      DecValueLocal(f, base, bs, t);
    }
  }

  lemma DecUnknownLocal(fields: seq<Field>, tag: nat, wireType: nat, bs: seq<byte>, t: seq<byte>)
    requires DecUnknown(fields, tag, wireType, bs).Done?
    ensures DecUnknown(fields, tag, wireType, bs + t) == Extend(DecUnknown(fields, tag, wireType, bs), t)
  {
    hide DecVarint32, SkipField;
    if fields == [] && tag == 0 {
      DecVarint32Local(bs, t);
    } else {
      SkipFieldLocal(wireType, bs, t);
    }
  }

  // ----- The field loop on concatenated input -----

  lemma LoopRoundLocal(fields: seq<Field>, slots: seq<Slot>, seen: Progress, bs: seq<byte>, t: seq<byte>)
    requires bs != [] && !LoopRound(fields, slots, seen, bs).RoundFail?
    ensures LoopRound(fields, slots, seen, bs + t) ==
            match LoopRound(fields, slots, seen, bs)
            case RoundEnd(rest) => RoundEnd(rest + t)
            case Next(slots', seen', rest) => Next(slots', seen', rest + t)
  {
    hide DecTag, DecField, DecUnknown, Find, MayBegin, Current;
    DecTagLocal(bs, t);
    var tag := DecTag(bs);
    if tag.Tag? {
      var i := Find(fields, tag.tag);
      if i.None? {
        DecUnknownLocal(fields, tag.tag, tag.wireType, tag.rest, t);
      } else {
        DecFieldLocal(fields[i.value], tag.wireType, Current(fields, slots, seen, i.value), tag.rest, t);
      }
    }
  }

  /** The loop stops early only at a zero tag; otherwise it has consumed everything. */
  lemma {:induction false} LoopConsumesAll(fields: seq<Field>, slots: seq<Slot>, seen: Progress, bs: seq<byte>)
    requires var r := DecLoop(fields, slots, seen, bs); r.LoopDone? && !r.terminated
    ensures DecLoop(fields, slots, seen, bs).rest == []
    decreases |bs|
  {
    if bs != [] {
      LoopUnfold(fields, slots, seen, bs);
      var n := LoopRound(fields, slots, seen, bs);
      hide DecLoop, LoopRound;
      LoopConsumesAll(fields, n.slots, n.seen, n.rest);
    }
  }

  /** Appending bytes: the loop continues with them, or, after a zero tag, never looks at them. */
  lemma {:induction false} LoopAppend(fields: seq<Field>, slots: seq<Slot>, seen: Progress, s1: seq<byte>, s2: seq<byte>)
    requires DecLoop(fields, slots, seen, s1).LoopDone?
    ensures var r := DecLoop(fields, slots, seen, s1);
            DecLoop(fields, slots, seen, s1 + s2) ==
            if r.terminated then LoopDone(r.slots, r.seen, r.rest + s2, true)
            else DecLoop(fields, r.slots, r.seen, s2)
    decreases |s1|
  {
    if s1 == [] {
      assert s1 + s2 == s2;
    } else {
      LoopUnfold(fields, slots, seen, s1);
      LoopUnfold(fields, slots, seen, s1 + s2);
      hide DecLoop, LoopRound;
      LoopRoundLocal(fields, slots, seen, s1, s2);
      var n := LoopRound(fields, slots, seen, s1);
      if n.Next? {
        LoopAppend(fields, n.slots, n.seen, n.rest, s2);
      }
    }
  }

  /** What was met before, with some more required fields. */
  function WithRequired(more: set<nat>, seen: Progress): Progress {
    seen.(required := more + seen.required)
  }

  /** The set of required fields met does not influence the loop. */
  lemma {:induction false} LoopSeen(fields: seq<Field>, slots: seq<Slot>, more: set<nat>, seen: Progress, bs: seq<byte>)
    ensures DecLoop(fields, slots, WithRequired(more, seen), bs) ==
            match DecLoop(fields, slots, seen, bs)
            case LoopFail => LoopFail
            case LoopDone(slots', seen', rest, terminated) => LoopDone(slots', WithRequired(more, seen'), rest, terminated)
    decreases |bs|
  {
    if bs != [] {
      LoopUnfold(fields, slots, WithRequired(more, seen), bs);
      LoopUnfold(fields, slots, seen, bs);
      RoundSeen(fields, slots, more, seen, bs);
      hide DecLoop, LoopRound, WithRequired;
      var n := LoopRound(fields, slots, seen, bs);
      if n.Next? {
        LoopSeen(fields, n.slots, more, n.seen, n.rest);
      }
    }
  }

  lemma RoundSeen(fields: seq<Field>, slots: seq<Slot>, more: set<nat>, seen: Progress, bs: seq<byte>)
    requires bs != []
    ensures LoopRound(fields, slots, WithRequired(more, seen), bs) ==
            match LoopRound(fields, slots, seen, bs)
            case Next(slots', seen', rest) => Next(slots', WithRequired(more, seen'), rest)
            case other => other
  {
    var tag := DecTag(bs);
    if tag.Tag? && Find(fields, tag.tag).Some? {
      SeeMore(fields, slots, more, seen, Find(fields, tag.tag).value);
    }
    hide DecTag, DecField, DecUnknown, Find, MayBegin, Current, See, WithRequired;
  }

  lemma SeeMore(fields: seq<Field>, slots: seq<Slot>, more: set<nat>, seen: Progress, i: nat)
    requires i < |fields|
    ensures MayBegin(fields, slots, WithRequired(more, seen), i) == MayBegin(fields, slots, seen, i)
    ensures Current(fields, slots, WithRequired(more, seen), i) == Current(fields, slots, seen, i)
    ensures See(fields, WithRequired(more, seen), i) == WithRequired(more, See(fields, seen, i))
  {
    assert more + (seen.required + {i}) == more + seen.required + {i};
  }

  /** A description without fixed-count arrays leaves nothing to remember of them. */
  predicate NoFixedCount(fields: seq<Field>) {
    forall i :: 0 <= i < |fields| ==> !FixedCount(fields[i])
  }

  lemma {:induction false} NothingFixed(fields: seq<Field>, slots: seq<Slot>, seen: Progress, bs: seq<byte>)
    requires NoFixedCount(fields) && seen.fixed.None? && DecLoop(fields, slots, seen, bs).LoopDone?
    ensures DecLoop(fields, slots, seen, bs).seen.fixed.None?
    decreases |bs|
  {
    if bs != [] {
      LoopUnfold(fields, slots, seen, bs);
      var n := LoopRound(fields, slots, seen, bs);
      assert n.Next? ==> n.seen.fixed.None? by { hide DecTag, DecField, DecUnknown, Find, MayBegin, Current; }
      hide DecLoop, LoopRound;
      if n.Next? { NothingFixed(fields, n.slots, n.seen, n.rest); }
    }
  }

  // ----- Concatenation is merge -----

  /** `s` is a whole number of fields that the loop accepts from `slots`, with no zero tag among them. */
  predicate CompleteFields(fields: seq<Field>, slots: seq<Slot>, s: seq<byte>) {
    var r := DecLoop(fields, slots, UNSEEN, s);
    r.LoopDone? && !r.terminated
  }

  /** The loop after `r1`, as if no required field had been met before. */
  function Resumed(fields: seq<Field>, r1: Loop, s2: seq<byte>): Loop
    requires r1.LoopDone?
  {
    DecLoop(fields, r1.slots, Progress({}, r1.seen.fixed), s2)
  }

  /**
    Decoding the concatenation of two messages is decoding the second into the result of the first, going on in an
    array without a count that the first ended with; and it succeeds exactly when the second is accepted, the two
    together hold every required field, and the last array without a count is full.
   */
  lemma ConcatenationMerges(fields: seq<Field>, slots: seq<Slot>, s1: seq<byte>, s2: seq<byte>)
    requires CompleteFields(fields, slots, s1)
    ensures var r1 := DecLoop(fields, slots, UNSEEN, s1);
            var r2 := Resumed(fields, r1, s2);
            DecNoinit(fields, slots, s1 + s2) ==
            if r2.LoopDone? && FixedFull(fields, r2.slots, r2.seen) && AllRequiredSeen(fields, r1.seen.required + r2.seen.required)
            then Done(r2.slots, r2.rest) else Fail
  {
    hide DecLoop, AllRequiredSeen;
    var r1 := DecLoop(fields, slots, UNSEEN, s1);
    LoopAppend(fields, slots, UNSEEN, s1, s2);
    LoopSeen(fields, r1.slots, r1.seen.required, Progress({}, r1.seen.fixed), s2);
    assert WithRequired(r1.seen.required, Progress({}, r1.seen.fixed)) == r1.seen by {
      assert r1.seen.required + {} == r1.seen.required;
    }
  }

  /** Without fixed-count arrays, decoding two messages in turn is decoding their concatenation. */
  lemma TwoMessagesInTurn(fields: seq<Field>, slots: seq<Slot>, s1: seq<byte>, s2: seq<byte>)
    requires NoFixedCount(fields) && CompleteFields(fields, slots, s1)
    ensures var d1 := DecNoinit(fields, slots, s1);
            d1.Done? && DecNoinit(fields, d1.value, s2).Done? ==>
              d1.rest == [] && DecNoinit(fields, slots, s1 + s2) == DecNoinit(fields, d1.value, s2)
  {
    hide DecLoop;
    ConcatenationMerges(fields, slots, s1, s2);
    LoopConsumesAll(fields, slots, UNSEEN, s1);
    NothingFixed(fields, slots, UNSEEN, s1);
    var r1 := DecLoop(fields, slots, UNSEEN, s1);
    if Resumed(fields, r1, s2).LoopDone? { NothingFixed(fields, r1.slots, UNSEEN, s2); }
  }

  /** After a zero tag nothing is merged: what follows stays in the stream. */
  lemma ZeroTagStops(fields: seq<Field>, slots: seq<Slot>, s1: seq<byte>, s2: seq<byte>)
    requires var r := DecLoop(fields, slots, UNSEEN, s1); r.LoopDone? && r.terminated
    ensures DecNoinit(fields, slots, s1 + s2) == Extend(DecNoinit(fields, slots, s1), s2)
  {
    hide DecLoop;
    LoopAppend(fields, slots, UNSEEN, s1, s2);
  }

  // ----- Unknown fields -----

  /** One complete field whose tag the description does not have. */
  predicate UnknownField(fields: seq<Field>, u: seq<byte>) {
    match DecTag(u)
    case Tag(tag, wireType, rest) =>
      tag != 0 && Find(fields, tag).None? && SkipField(wireType, rest) == Done((), [])
    case _ => false
  }

  /** Inserting an unknown field between two fields changes nothing, whether decoding succeeds or not. */
  lemma UnknownFieldTransparent(fields: seq<Field>, slots: seq<Slot>, s1: seq<byte>, u: seq<byte>, s2: seq<byte>)
    requires CompleteFields(fields, slots, s1) && UnknownField(fields, u)
    ensures DecNoinit(fields, slots, s1 + u + s2) == DecNoinit(fields, slots, s1 + s2)
  {
    var r := DecLoop(fields, slots, UNSEEN, s1);
    LoopAppend(fields, slots, UNSEEN, s1, u + s2);
    LoopAppend(fields, slots, UNSEEN, s1, s2);
    assert s1 + u + s2 == s1 + (u + s2);
    assert u != [];
    LoopUnfold(fields, r.slots, r.seen, u + s2);
    assert LoopRound(fields, r.slots, r.seen, u) == Next(r.slots, r.seen, []);
    LoopRoundLocal(fields, r.slots, r.seen, u, s2);
    assert [] + s2 == s2;
    hide DecLoop, LoopRound;
  }

  // ----- Packed and unpacked arrays -----

  /** A piece of a packable array on the wire. */
  datatype Chunk = Packed(items: seq<Value>) | Single(item: Value)

  function ChunkItems(c: Chunk): seq<Value> {
    if c.Packed? then c.items else [c.item]
  }

  function AllItems(cs: seq<Chunk>): seq<Value> {
    if cs == [] then [] else ChunkItems(cs[0]) + AllItems(cs[1..])
  }

  function ChunkBytes(f: Field, c: Chunk): seq<byte> {
    match c
    case Packed(items) => EncTag(WT_STRING, f.tag) + EncString(EncItems(f, items).bytes)
    case Single(item) => FieldTag(f) + EncValue(f, item).bytes
  }

  function AllBytes(f: Field, cs: seq<Chunk>): seq<byte> {
    if cs == [] then [] else ChunkBytes(f, cs[0]) + AllBytes(f, cs[1..])
  }

  predicate WfChunk(f: Field, c: Chunk) {
    && (forall k :: 0 <= k < |ChunkItems(c)| ==> WfValue(f, ChunkItems(c)[k]))
    && (c.Packed? ==> |EncItems(f, c.items).bytes| < U32)
  }

  /** A chunk is appended if it fits, and fails the loop if it does not. */
  lemma ChunkStep(fields: seq<Field>, i: nat, cur: seq<Slot>, seen: Progress, done: seq<Value>, c: Chunk, t: seq<byte>)
    requires Holding(fields, i, cur, seen, done) && Packable(fields[i].ltype) && WfChunk(fields[i], c)
    ensures DecLoop(fields, cur, seen, ChunkBytes(fields[i], c) + t) ==
            if |done| + |ChunkItems(c)| <= fields[i].arraySize
            then DecLoop(fields, cur[i := Rep(done + ChunkItems(c))], See(fields, seen, i), t) else LoopFail
  {
    hide DecLoop, EncItems, EncValue, DecScalar, EncTag, EncString, ValidField, WfValue, See;
    match c {
      case Packed(items) =>
        assert ChunkItems(c) == items;
        hide Holding;
        PackedChunk(fields, i, cur, seen, done, items, t);
      case Single(item) =>
        assert WfValue(fields[i], ChunkItems(c)[0]) && ValidField(fields[i]);
        hide Holding;
        ScalarRoundTrip(fields[i], item, t);
        SingleEntry(fields, i, cur, seen, done, item, item, t);
    }
  }

  /**
    Any mix of packed chunks, empty ones included, and single entries decodes to the entries in order, appended to
    what the array held, exactly as long as they fit the array; otherwise decoding fails.
   */
  lemma {:induction false} PackedAndUnpackedAgree(fields: seq<Field>, i: nat, cur: seq<Slot>, seen: Progress, done: seq<Value>, cs: seq<Chunk>, t: seq<byte>)
    requires Holding(fields, i, cur, seen, done) && Packable(fields[i].ltype) && cs != []
    requires forall k :: 0 <= k < |cs| ==> WfChunk(fields[i], cs[k])
    ensures DecLoop(fields, cur, seen, AllBytes(fields[i], cs) + t) ==
            if |done| + |AllItems(cs)| <= fields[i].arraySize
            then DecLoop(fields, cur[i := Rep(done + AllItems(cs))], See(fields, seen, i), t) else LoopFail
    decreases |cs|
  {
    assert i < |fields| == |cur|;
    hide DecLoop, AllBytes, AllItems, WfChunk, ChunkBytes, ChunkItems, See, Holding;
    var f, items := fields[i], ChunkItems(cs[0]);
    ChunksUnfold(f, cs, done, t);
    ChunkStep(fields, i, cur, seen, done, cs[0], AllBytes(f, cs[1..]) + t);
    if |done| + |items| <= f.arraySize {
      var next := cur[i := Rep(done + items)];
      StillHolding(fields, i, cur, seen, done, done + items);
      if |cs| == 1 {
        NoChunks(f, cs[1..], done + items, t);
      } else {
        PackedAndUnpackedAgree(fields, i, next, See(fields, seen, i), done + items, cs[1..], t);
        assert next[i := Rep(done + AllItems(cs))] == cur[i := Rep(done + AllItems(cs))] by { hide *; }
      }
    }
  }

  lemma NoChunks(f: Field, cs: seq<Chunk>, done: seq<Value>, t: seq<byte>)
    requires cs == []
    ensures AllBytes(f, cs) + t == t && done + AllItems(cs) == done && |AllItems(cs)| == 0
  {
  }

  lemma ChunksUnfold(f: Field, cs: seq<Chunk>, done: seq<Value>, t: seq<byte>)
    requires cs != []
    ensures AllBytes(f, cs) + t == ChunkBytes(f, cs[0]) + (AllBytes(f, cs[1..]) + t)
    ensures done + AllItems(cs) == done + ChunkItems(cs[0]) + AllItems(cs[1..])
    ensures |AllItems(cs)| == |ChunkItems(cs[0])| + |AllItems(cs[1..])|
  {
    hide ChunkBytes, ChunkItems;
    JoinFirst(ChunkBytes(f, cs[0]), AllBytes(f, cs[1..]), t);
    JoinFirst(done, ChunkItems(cs[0]), AllItems(cs[1..]));
  }

  lemma JoinFirst<T>(a: seq<T>, b: seq<T>, c: seq<T>)
    ensures (a + b) + c == a + (b + c)
  {
  }
}

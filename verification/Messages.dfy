/**
  Well-formed messages, the form in which a decoder returns them, and what is written and read for one item or
  one array of them.
 */
module Messages {
  import opened Options
  import opened Bits
  import opened Wire
  import opened Scalars
  import opened Schema
  import opened Encoding
  import opened Decoding

  // ----- Well-formed messages -----

  predicate WfValue(f: Field, v: Value)
    decreases f, 0
  {
    match f.ltype
    case Bool => v.VBool?
    case Varint | Svarint => v.VInt? && IsWidth(f.dataSize) && FitsSigned(v.n, f.dataSize)
    case Uvarint => v.VInt? && IsWidth(f.dataSize) && FitsUnsigned(v.n, f.dataSize)
    case Fixed32 => v.VInt? && FitsUnsigned(v.n, 4)
    case Fixed64 => v.VInt? && FitsUnsigned(v.n, 8)
    case Bytes => v.VBytes? && |v.bs| + BYTES_OFFSET <= f.dataSize
    case String => v.VBytes? && |v.bs| < f.dataSize && 0 !in v.bs
    case FixedLengthBytes => v.VBytes? && |v.bs| == f.dataSize
    case Submessage(sub) =>
      v.VMsg? && WfMessage(sub, v.slots) && |EncMessage(sub, v.slots).bytes| < U32
  }

  predicate WfSlot(f: Field, s: Slot)
    decreases f, 1
  {
    match f.htype
    case Required => s.One? && WfValue(f, s.v)
    case Optional =>
      if f.sizeOffset != 0 then s.Opt? && (s.has ==> WfValue(f, s.v)) else s.One? && WfValue(f, s.v)
    case Repeated =>
      && s.Rep? && |s.items| <= f.arraySize && (f.sizeOffset == 0 ==> |s.items| == f.arraySize)
      && (forall k :: 0 <= k < |s.items| ==> WfValue(f, s.items[k]))
      && (Packable(f.ltype) ==> |EncItems(f, s.items).bytes| < U32)
    case Oneof => s.Union? && (s.which == f.tag ==> WfValue(f, s.v))
  }

  /** Every length fits its 32-bit prefix, counts fit their arrays, strings have room for their terminator. */
  predicate WfMessage(fields: seq<Field>, slots: seq<Slot>)
    decreases fields
  {
    |slots| == |fields| && forall i :: 0 <= i < |fields| ==> WfSlot(fields[i], Get(slots, Home(fields, i)))
  }

  // ----- The message a decoder can be expected to return -----

  /** The member that the which-tag of the union at position `p` selects. */
  function ActiveMember(fields: seq<Field>, slots: seq<Slot>, p: nat): (r: Option<nat>)
    ensures r.Some? ==> r.value < |fields|
  {
    match Find(fields, Which(Get(slots, p)))
    case Some(m) => if fields[m].htype.Oneof? && Home(fields, m) == p then Some(m) else None
    case None => None
  }

  function CanonValue(f: Field, v: Value): Value
    decreases f, 0
  {
    if f.ltype.Submessage? then VMsg(Canon(f.ltype.fields, AsSlots(v))) else v
  }

  function CanonItems(f: Field, items: seq<Value>): (r: seq<Value>)
    ensures |r| == |items|
    decreases f, 1
  {
    seq(|items|, k requires 0 <= k < |items| => CanonValue(f, items[k]))
  }

  /** The slot at position `p` with absent data replaced by the defaults. */
  function CanonAt(fields: seq<Field>, slots: seq<Slot>, p: nat): Slot
    requires p < |fields|
    decreases fields, 0
  {
    var f, s := fields[p], Get(slots, p);
    match f.htype
    case Required => One(CanonValue(f, ValueOf(s)))
    case Optional =>
      if f.sizeOffset == 0 then One(CanonValue(f, ValueOf(s)))
      else if HasFlag(s) then Opt(true, CanonValue(f, ValueOf(s)))
      else DefaultSlot(f)
    case Repeated => Rep(CanonItems(f, Items(s)))
    case Oneof =>
      match ActiveMember(fields, slots, p)
      case Some(m) => Union(fields[m].tag, CanonValue(fields[m], ValueOf(s)))
      case None => Union(0, VNone)
  }

  /** A message with absent fields at their defaults and nothing in inactive unions. */
  function Canon(fields: seq<Field>, slots: seq<Slot>): (r: seq<Slot>)
    ensures |r| == |fields|
    decreases fields, 1
  {
    seq(|fields|, p requires 0 <= p < |fields| => CanonAt(fields, slots, p))
  }

  // ----- Single values -----

  lemma BoolRoundTrip(b: bool, t: seq<byte>)
    ensures DecVarint32(EncVarint(if b then 1 else 0) + t) == Done(if b then 1 else 0, t)
  {
    Varint32RoundTrip(if b then 1 else 0, t);
  }

  lemma StringRoundTrip(bs: seq<byte>, t: seq<byte>)
    requires |bs| < U32
    ensures DecVarint32(EncString(bs) + t) == Done(|bs|, bs + t)
    ensures Take(bs + t, |bs|) == Done(bs, t)
    ensures Substream(EncString(bs) + t) == Done(bs, t)
  {
    hide DecVarint32, EncVarint;
    assert EncString(bs) + t == EncVarint(|bs|) + (bs + t);
    Varint32RoundTrip(|bs|, bs + t);
    assert (bs + t)[..|bs|] == bs && (bs + t)[|bs|..] == t;
  }

  lemma WholeString(bs: seq<byte>, dataSize: nat)
    requires |bs| <= dataSize && 0 !in bs
    ensures CString(bs, dataSize) == bs
  {
    assert forall i :: 0 <= i < |bs| ==> bs[i] in bs;
    assert StringLength(bs, 0) == |bs|;
  }

  lemma VarintFieldRoundTrip(f: Field, v: Value, t: seq<byte>)
    requires f.ltype.Varint? || f.ltype.Uvarint? || f.ltype.Svarint?
    requires WfValue(f, v)
    ensures EncValue(f, v).ok && DecScalar(f, EncValue(f, v).bytes + t) == Done(v, t)
  {
    hide DecVarint, EncVarint, ToSigned, ToUnsigned;
    match f.ltype {
      case Varint =>
        SignedRoundTrip(v.n, f.dataSize);
        VarintRoundTrip(Low64(v.n), t);
      case Uvarint =>
        UnsignedSmall(v.n, f.dataSize);
        NarrowUnsignedMeaning(v.n, f.dataSize);
        VarintRoundTrip(Low64(v.n), t);
      case Svarint =>
        ZigZagFieldRoundTrip(v.n, f.dataSize);
        VarintRoundTrip(ZigZag(v.n), t);
    }
  }

  lemma UnsignedSmall(n: int, size: nat)
    requires IsWidth(size) && FitsUnsigned(n, size)
    ensures 0 <= n < U64 && Low64(n) == n
  {
  }

  lemma FixedFieldRoundTrip(f: Field, v: Value, t: seq<byte>)
    requires f.ltype.Fixed32? || f.ltype.Fixed64?
    requires WfValue(f, v)
    ensures EncValue(f, v).ok && DecScalar(f, EncValue(f, v).bytes + t) == Done(v, t)
  {
    var k := if f.ltype.Fixed32? then 4 else 8;
    hide LittleEndian, DecFixed;
    ToUnsignedMeaning(v.n, k);
    FixedRoundTrip(v.n, k, t);
  }

  lemma BytesFieldRoundTrip(f: Field, v: Value, t: seq<byte>)
    requires f.ltype.Bytes? || f.ltype.String? || f.ltype.FixedLengthBytes?
    requires ValidField(f) && WfValue(f, v)
    ensures EncValue(f, v).ok && DecScalar(f, EncValue(f, v).bytes + t) == Done(v, t)
  {
    hide DecVarint32, EncString, StringLength;
    StringRoundTrip(v.bs, t);
    if f.ltype.String? { WholeString(v.bs, f.dataSize); }
    if f.ltype.FixedLengthBytes? && |v.bs| == 0 {
      assert ZeroValue(f) == VBytes([]);
    }
  }

  lemma ScalarRoundTrip(f: Field, v: Value, t: seq<byte>)
    requires ValidField(f) && !f.ltype.Submessage? && WfValue(f, v)
    ensures EncValue(f, v).ok && DecScalar(f, EncValue(f, v).bytes + t) == Done(v, t)
  {
    match f.ltype {
      case Bool =>
        hide DecVarint32, EncVarint;
        BoolRoundTrip(v.b, t);
      case Varint | Uvarint | Svarint => VarintFieldRoundTrip(f, v, t);
      case Fixed32 | Fixed64 => FixedFieldRoundTrip(f, v, t);
      case _ => BytesFieldRoundTrip(f, v, t);
    }
  }

  // ----- Steps of the field loop -----

  /** A field with its tag in front is dispatched to its position. */
  lemma LoopStep(fields: seq<Field>, i: nat, cur: seq<Slot>, seen: Progress, wireType: nat, payload: seq<byte>, t: seq<byte>)
    requires ValidSchema(fields) && i < |fields| && wireType < 8 && MayBegin(fields, cur, seen, i)
    ensures DecLoop(fields, cur, seen, EncTag(wireType, fields[i].tag) + payload + t) ==
            match DecField(fields[i], wireType, Current(fields, cur, seen, i), payload + t)
            case Fail => LoopFail
            case Done(s, rest) => DecLoop(fields, Put(cur, Home(fields, i), s), See(fields, seen, i), rest)
  {
    hide DecTag, EncTag, DecField, Find, MayBegin, Current;
    assert ValidField(fields[i]);
    var bs := EncTag(wireType, fields[i].tag) + payload + t;
    assert bs == EncTag(wireType, fields[i].tag) + (payload + t);
    TagRoundTrip(fields[i].tag, wireType, payload + t);
    FindUnique(fields, i);
  }

  /** The first item of a packed payload is read back, and the rest is left. */
  lemma PackedStep(f: Field, done: seq<Value>, items: seq<Value>)
    requires ValidField(f) && Packable(f.ltype) && items != []
    requires WfValue(f, items[0]) && EncItems(f, items[1..]).ok
    ensures EncItems(f, items).ok
    ensures DecPacked(f, done, EncItems(f, items).bytes) ==
            if |done| < f.arraySize then DecPacked(f, done + [items[0]], EncItems(f, items[1..]).bytes) else None
  {
    hide DecScalar, EncValue, WfValue;
    ScalarRoundTrip(f, items[0], EncItems(f, items[1..]).bytes);
  }

  /** A packed payload appends its items exactly as long as they fit the array. */
  lemma {:induction false} PackedRoundTrip(f: Field, done: seq<Value>, items: seq<Value>)
    requires ValidField(f) && Packable(f.ltype) && |done| <= f.arraySize
    requires forall k :: 0 <= k < |items| ==> WfValue(f, items[k])
    ensures EncItems(f, items).ok
    ensures DecPacked(f, done, EncItems(f, items).bytes) ==
            if |done| + |items| <= f.arraySize then Some(done + items) else None
    decreases |items|
  {
    hide WfValue, ValidField, DecPacked, EncItems;
    if items == [] {
      NothingPacked(f, done, items);
    } else {
      PackedItemsOk(f, items[1..]);
      PackedStep(f, done, items);
      if |done| < f.arraySize {
        PackedRoundTrip(f, done + [items[0]], items[1..]);
        assert done + [items[0]] + items[1..] == done + items;
      }
    }
  }

  lemma NothingPacked(f: Field, done: seq<Value>, none: seq<Value>)
    requires none == [] && !f.ltype.Submessage?
    ensures EncItems(f, none) == EMPTY && DecPacked(f, done, []) == Some(done) && done + none == done
  {
  }

  lemma {:induction false} PackedItemsOk(f: Field, items: seq<Value>)
    requires ValidField(f) && Packable(f.ltype)
    requires forall k :: 0 <= k < |items| ==> WfValue(f, items[k])
    ensures EncItems(f, items).ok
  {
    if items != [] {
      PackedItemsOk(f, items[1..]);
      ScalarRoundTrip(f, items[0], []);
    }
  }

  // ----- Entries of an array -----

  /** The array at `i` may be gone on with, and holds `done`. */
  predicate Holding(fields: seq<Field>, i: nat, cur: seq<Slot>, seen: Progress, done: seq<Value>) {
    && ValidSchema(fields) && i < |fields| == |cur| && fields[i].htype.Repeated?
    && MayBegin(fields, cur, seen, i) && Current(fields, cur, seen, i) == Rep(done) && |done| <= fields[i].arraySize
  }

  /** Once an array has been met, it goes on where it was. */
  lemma StillHolding(fields: seq<Field>, i: nat, cur: seq<Slot>, seen: Progress, done: seq<Value>, more: seq<Value>)
    requires Holding(fields, i, cur, seen, done) && |more| <= fields[i].arraySize
    ensures Holding(fields, i, cur[i := Rep(more)], See(fields, seen, i), more)
    ensures See(fields, See(fields, seen, i), i) == See(fields, seen, i)
  {
    HomeIdempotent(fields, i);
    hide ValidSchema;
  }

  /** A packed chunk, which may be empty, is appended if it fits. */
  lemma PackedChunk(fields: seq<Field>, i: nat, cur: seq<Slot>, seen: Progress, done: seq<Value>, items: seq<Value>, t: seq<byte>)
    requires Holding(fields, i, cur, seen, done) && Packable(fields[i].ltype)
    requires (forall k :: 0 <= k < |items| ==> WfValue(fields[i], items[k])) && |EncItems(fields[i], items).bytes| < U32
    ensures DecLoop(fields, cur, seen, EncTag(WT_STRING, fields[i].tag) + EncString(EncItems(fields[i], items).bytes) + t) ==
            if |done| + |items| <= fields[i].arraySize
            then DecLoop(fields, cur[i := Rep(done + items)], See(fields, seen, i), t) else LoopFail
  {
    var f, body := fields[i], EncItems(fields[i], items).bytes;
    HomeIdempotent(fields, i);
    assert ValidField(f);
    hide EncItems, DecPacked, DecLoop, EncTag, EncString, Substream, ValidSchema, ValidField, WfValue, See;
    StringRoundTrip(body, t);
    PackedRoundTrip(f, done, items);
    LoopStep(fields, i, cur, seen, WT_STRING, EncString(body), t);
  }

  /** An entry with its own tag is appended if it fits. */
  lemma SingleEntry(fields: seq<Field>, i: nat, cur: seq<Slot>, seen: Progress, done: seq<Value>, item: Value, v: Value, t: seq<byte>)
    requires Holding(fields, i, cur, seen, done) && EncValue(fields[i], item).ok
    requires DecValue(fields[i], VNone, EncValue(fields[i], item).bytes + t) == Done(v, t)
    ensures DecLoop(fields, cur, seen, FieldTag(fields[i]) + EncValue(fields[i], item).bytes + t) ==
            if |done| < fields[i].arraySize
            then DecLoop(fields, cur[i := Rep(done + [v])], See(fields, seen, i), t) else LoopFail
  {
    var f := fields[i];
    HomeIdempotent(fields, i);
    hide EncValue, DecValue, DecLoop, EncTag, ValidSchema, See;
    LoopStep(fields, i, cur, seen, WireType(f.ltype), EncValue(f, item).bytes, t);
  }
}

/** Whatever bytes arrive, a decoder stores only what its destination has room for. */
module DecodedContents {
  import opened Bits
  import opened Wire
  import opened Scalars
  import opened Schema
  import opened Decoding

  // ----- Items -----

  lemma {:induction false} LittleEndianBound(bs: seq<byte>)
    ensures FromLittleEndian(bs) < Pow2(8 * |bs|)
  {
    if bs != [] {
      LittleEndianBound(bs[1..]);
      Pow2Byte(|bs| - 1);
    }
  }

  lemma FixedFits(bs: seq<byte>, k: nat)
    requires (k == 4 || k == 8) && DecFixed(bs, k).Done?
    ensures FitsUnsigned(DecFixed(bs, k).value, k)
  {
    LittleEndianBound(bs[..k]);
    Pow2Bytes(k);
  }

  lemma NarrowFits(f: Field, v: nat)
    requires (f.ltype.Varint? || f.ltype.Uvarint? || f.ltype.Svarint?) && Narrow(f, v).Some?
    ensures Fits(f, VInt(Narrow(f, v).value))
  {
    var n := Narrow(f, v).value;
    match f.ltype {
      case Varint => ToSignedMeaning(ToSigned(v, if f.dataSize == 8 then 8 else 4), f.dataSize);
      case Uvarint => ToUnsignedMeaning(v, f.dataSize);
      case _ => ToSignedMeaning(UnZigZag(v), f.dataSize);
    }
    hide ToSigned, ToUnsigned, UnZigZag;
  }

  lemma ScalarFits(f: Field, bs: seq<byte>)
    requires !f.ltype.Submessage? && DecScalar(f, bs).Done?
    ensures Fits(f, DecScalar(f, bs).value)
  {
    hide DecVarint, DecVarint32, Narrow, DecFixed;
    match f.ltype {
      case Varint | Uvarint | Svarint => NarrowFits(f, DecVarint(bs).value);
      case Fixed32 => FixedFits(bs, 4);
      case Fixed64 => FixedFits(bs, 8);
      case _ =>
    }
  }

  predicate AllFit(f: Field, items: seq<Value>) {
    |items| <= f.arraySize && forall k :: 0 <= k < |items| ==> Fits(f, items[k])
  }

  lemma OneMoreFits(f: Field, items: seq<Value>, v: Value)
    requires AllFit(f, items) && |items| < f.arraySize && Fits(f, v)
    ensures AllFit(f, items + [v])
  {
    hide Fits;
  }

  lemma {:induction false} PackedFits(f: Field, items: seq<Value>, bs: seq<byte>)
    requires !f.ltype.Submessage? && AllFit(f, items) && DecPacked(f, items, bs).Some?
    ensures AllFit(f, DecPacked(f, items, bs).value)
    decreases |bs|
  {
    if bs != [] {
      ScalarFits(f, bs);
      var d := DecScalar(f, bs);
      hide DecScalar;
      OneMoreFits(f, items, d.value);
      hide AllFit;
      PackedFits(f, items + [d.value], d.rest);
    }
  }

  // ----- Messages -----

  lemma {:induction false} ValueFits(f: Field, base: Value, bs: seq<byte>)
    requires ValidField(f) && DecValue(f, base, bs).Done?
    requires f.ltype.Submessage? && !f.htype.Repeated? ==> FitsMessage(f.ltype.fields, AsSlots(base))
    ensures Fits(f, DecValue(f, base, bs).value)
    decreases |bs|, 1
  {
    if f.ltype.Submessage? {
      var sub, d := f.ltype.fields, Substream(bs);
      DefaultsFit(sub);
      hide Substream, DecNoinit, FitsMessage, ValidSchema, Defaults;
      ContentsFit(sub, if f.htype.Repeated? then Defaults(sub) else AsSlots(base), d.value);
    } else {
      ScalarFits(f, bs);
      hide DecScalar;
    }
  }

  /** A field that fits before fits after; a union then holds the member just decoded. */
  lemma {:induction false} FieldFits(f: Field, wireType: nat, s: Slot, bs: seq<byte>)
    requires ValidField(f) && FitsSlot(f, s) && DecField(f, wireType, s, bs).Done?
    ensures var r := DecField(f, wireType, s, bs).value; FitsSlot(f, r) && (f.htype.Oneof? ==> r.which == f.tag)
    decreases |bs|, 2
  {
    hide Substream, DecPacked, DecValue, Fits, Defaults;
    if f.htype.Repeated? && wireType == WT_STRING && Packable(f.ltype) {
      PackedFits(f, Items(s), Substream(bs).value);
    } else {
      var base := match f.htype case Repeated => VNone case Oneof => UnionBase(f, s) case _ => ValueOf(s);
      if f.ltype.Submessage? && !f.htype.Repeated? { StartFits(f, s); }
      ValueFits(f, base, bs);
    }
  }

  /** What a submessage is decoded into holds a message of its type. */
  lemma StartFits(f: Field, s: Slot)
    requires ValidField(f) && FitsSlot(f, s) && f.ltype.Submessage? && !f.htype.Repeated?
    ensures FitsMessage(f.ltype.fields, AsSlots(if f.htype.Oneof? then UnionBase(f, s) else ValueOf(s)))
  {
    DefaultsFit(f.ltype.fields);
    hide FitsMessage, Defaults, ValidSchema;
  }

  /** Storing a field that fits leaves every other field fitting: those of the same union are no longer held. */
  lemma PutFits(fields: seq<Field>, slots: seq<Slot>, i: nat, s: Slot)
    requires ValidSchema(fields) && FitsMessage(fields, slots) && i < |fields|
    requires FitsSlot(fields[i], s) && (fields[i].htype.Oneof? ==> s.which == fields[i].tag)
    ensures FitsMessage(fields, Put(slots, Home(fields, i), s))
  {
    var h := Home(fields, i);
    forall j | 0 <= j < |fields| ensures FitsSlot(fields[j], Get(Put(slots, h, s), Home(fields, j))) {
      assert FitsSlot(fields[j], Get(slots, Home(fields, j)));
      if j != i && Home(fields, j) == h {
        HomeShared(fields, if i < j then i else j, if i < j then j else i);
        assert DistinctTags(fields);
      }
      hide Fits, ValidSchema;
    }
  }

  lemma CurrentFits(fields: seq<Field>, slots: seq<Slot>, seen: Progress, i: nat)
    requires FitsMessage(fields, slots) && i < |fields|
    ensures FitsSlot(fields[i], Current(fields, slots, seen, i))
  {
    assert FitsSlot(fields[i], Get(slots, Home(fields, i)));
    hide Fits;
  }

  lemma {:induction false} LoopFits(fields: seq<Field>, slots: seq<Slot>, seen: Progress, bs: seq<byte>)
    requires ValidSchema(fields) && FitsMessage(fields, slots) && DecLoop(fields, slots, seen, bs).LoopDone?
    ensures FitsMessage(fields, DecLoop(fields, slots, seen, bs).slots)
    decreases |bs|, 3
  {
    if bs != [] {
      LoopUnfold(fields, slots, seen, bs);
      var n := LoopRound(fields, slots, seen, bs);
      hide DecLoop, FitsMessage, ValidSchema;
      if n.Next? {
        RoundFits(fields, slots, seen, bs);
        hide LoopRound;
        LoopFits(fields, n.slots, n.seen, n.rest);
      }
    }
  }

  lemma {:induction false} RoundFits(fields: seq<Field>, slots: seq<Slot>, seen: Progress, bs: seq<byte>)
    requires ValidSchema(fields) && FitsMessage(fields, slots) && bs != [] && LoopRound(fields, slots, seen, bs).Next?
    ensures FitsMessage(fields, LoopRound(fields, slots, seen, bs).slots)
    decreases |bs|, 2
  {
    var tag := DecTag(bs);
    var found := Find(fields, tag.tag);
    if found.Some? {
      var i := found.value;
      assert ValidField(fields[i]);
      hide DecTag, DecField, Find, MayBegin, Current, FitsMessage, ValidSchema, FitsSlot;
      CurrentFits(fields, slots, seen, i);
      FieldFits(fields[i], tag.wireType, Current(fields, slots, seen, i), tag.rest);
      PutFits(fields, slots, i, DecField(fields[i], tag.wireType, Current(fields, slots, seen, i), tag.rest).value);
    }
  }

  lemma {:induction false} ContentsFit(fields: seq<Field>, slots: seq<Slot>, bs: seq<byte>)
    requires ValidSchema(fields) && FitsMessage(fields, slots) && DecNoinit(fields, slots, bs).Done?
    ensures FitsMessage(fields, DecNoinit(fields, slots, bs).value)
    decreases |bs|, 4
  {
    LoopFits(fields, slots, UNSEEN, bs);
    hide DecLoop, FitsMessage, ValidSchema;
  }

  /**
    For every input that is accepted, at any depth, arrays hold no more entries than they have room for, bytes and
    strings leave room for their header or terminator, and integers are of their width.
   */
  lemma DecodedFits(fields: seq<Field>, bs: seq<byte>)
    requires ValidSchema(fields) && DecMessage(fields, bs).Done?
    ensures FitsMessage(fields, DecMessage(fields, bs).value)
  {
    DefaultsFit(fields);
    ContentsFit(fields, Defaults(fields), bs);
  }
}

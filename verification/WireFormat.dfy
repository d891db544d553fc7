/**
  The bytes of every kind of item and field, told by the numbers of the Protocol Buffers encoding rather than by the
  constants that encoder and decoder share.
 */
module WireFormat {
  import opened Options
  import opened Bits
  import opened Wire
  import opened Scalars
  import opened Schema
  import opened Encoding
  import opened Decoding
  import opened Messages
  import opened RoundTrip

  // ----- Integers and tags -----

  /** Four bytes of a number, the least significant first. */
  function FourBytes(n: nat): seq<byte> {
    [n % 256, n / 256 % 256, n / 0x1_0000 % 256, n / 0x100_0000 % 256]
  }

  /** Fixed-width integers go out least significant byte first. */
  lemma LittleEndianBytes(n: nat)
    ensures LittleEndian(n, 4) == FourBytes(n)
    ensures LittleEndian(n, 8) == FourBytes(n) + FourBytes(n / 0x1_0000_0000)
  {
    LittleEndianFour(n, 0);
    LittleEndianFour(n, 4);
    LittleEndianFour(n / 0x1_0000_0000, 0);
    hide LittleEndian, FourBytes;
    NoBytes(n / 0x1_0000_0000);
    assert FourBytes(n) + [] == FourBytes(n);
  }

  lemma NoBytes(n: nat)
    ensures LittleEndian(n, 0) == [] && LittleEndian(n / 0x1_0000_0000, 0) == []
    ensures FourBytes(n) + [] == FourBytes(n)
  {
  }

  lemma LittleEndianFour(n: nat, k: nat)
    ensures LittleEndian(n, k + 4) == FourBytes(n) + LittleEndian(n / 0x1_0000_0000, k)
  {
    var a, b, c := n / 256, n / 0x1_0000, n / 0x100_0000;
    assert a / 256 == b && b / 256 == c && c / 256 == n / 0x1_0000_0000;
    OneByte(n, k + 3);
    OneByte(a, k + 2);
    OneByte(b, k + 1);
    OneByte(c, k);
    hide LittleEndian;
  }

  lemma OneByte(n: nat, k: nat)
    ensures LittleEndian(n, k + 1) == [n % 256] + LittleEndian(n / 256, k)
  {
  }

  /** And they come in that way. */
  lemma LittleEndianRead(a: byte, b: byte, c: byte, d: byte, t: seq<byte>)
    ensures DecFixed([a, b, c, d] + t, 4) == Done(a + 256 * b + 0x1_0000 * c + 0x100_0000 * d, t)
  {
    var bs := [a, b, c, d];
    assert (bs + t)[..4] == bs && (bs + t)[4..] == t;
    assert bs[1..] == [b, c, d] && [b, c, d][1..] == [c, d] && [c, d][1..] == [d] && [d][1..] == [];
    assert FromLittleEndian([d]) == d;
    assert FromLittleEndian([c, d]) == c + 256 * d;
    assert FromLittleEndian([b, c, d]) == b + 256 * (c + 256 * d);
  }

  /** The wire type of each type of field. */
  function WireNumber(l: LType): nat {
    match l
    case Bool | Varint | Uvarint | Svarint => 0
    case Fixed64 => 1
    case Bytes | String | Submessage(_) | FixedLengthBytes => 2
    case Fixed32 => 5
  }

  /** The number in front of a field: eight times its tag, and its wire type. */
  lemma TagNumber(f: Field, t: seq<byte>)
    requires 1 <= f.tag < 0x2000_0000
    ensures DecVarint(FieldTag(f) + t) == Done(8 * f.tag + WireNumber(f.ltype), t)
    ensures DecVarint(EncTag(2, f.tag) + t) == Done(8 * f.tag + 2, t)
  {
    VarintRoundTrip(8 * f.tag + WireType(f.ltype), t);
    VarintRoundTrip(8 * f.tag + 2, t);
    hide DecVarint, EncVarint;
  }

  // ----- What is skipped by the number of the wire type -----

  /** Four numbers stand for something that can be skipped; every other one is refused. */
  lemma SkippedByNumber(wireType: nat, bs: seq<byte>)
    ensures SkipField(1, bs) == if |bs| < 8 then Fail else Done((), bs[8..])
    ensures SkipField(5, bs) == if |bs| < 4 then Fail else Done((), bs[4..])
    ensures wireType !in {0, 1, 2, 5} ==> SkipField(wireType, bs) == Fail
  {
  }

  lemma VarintSkipped(bs: seq<byte>, n: nat)
    requires StartsVarint(bs, n)
    ensures SkipField(0, bs) == Done((), bs[n..])
  {
    SkipVarintMeaning(bs, n);
  }

  lemma NumberSkipped(v: nat, t: seq<byte>)
    ensures SkipField(0, EncVarint(v) + t) == Done((), t)
  {
    EncVarintShape(v, t);
    VarintSkipped(EncVarint(v) + t, |EncVarint(v)|);
    assert (EncVarint(v) + t)[|EncVarint(v)|..] == t;
  }

  lemma StringSkipped(bs: seq<byte>, t: seq<byte>)
    requires |bs| < U32
    ensures SkipField(2, EncString(bs) + t) == Done((), t)
  {
    StringRoundTrip(bs, t);
    hide DecVarint32, EncString;
  }

  // ----- The bytes of one item -----

  /** Each item on the wire, by its type: literally, or as the number that its varint stands for. */
  lemma ItemBytes(f: Field, v: Value, t: seq<byte>)
    requires ValidField(f) && WfValue(f, v)
    ensures var bs := EncValue(f, v).bytes;
            match f.ltype
            case Bool => bs == [if v.b then 1 else 0]
            case Varint => DecVarint(bs + t) == Done(if v.n < 0 then v.n + 0x1_0000_0000_0000_0000 else v.n, t)
            case Uvarint => DecVarint(bs + t) == Done(v.n, t)
            case Svarint => DecVarint(bs + t) == Done(if v.n < 0 then -2 * v.n - 1 else 2 * v.n, t)
            case Fixed32 => bs == FourBytes(v.n)
            case Fixed64 => bs == FourBytes(v.n) + FourBytes(v.n / 0x1_0000_0000)
            case Bytes | String | FixedLengthBytes => DecVarint(bs + t) == Done(|v.bs|, v.bs + t)
            case Submessage(sub) =>
              DecVarint(bs + t) == Done(|EncMessage(sub, v.slots).bytes|, EncMessage(sub, v.slots).bytes + t)
  {
    match f.ltype {
      case Bool =>
      case Fixed32 => FixedBytes(f, v);
      case Fixed64 => FixedBytes(f, v);
      case Submessage(sub) =>
        ItemOk(f, v);
        var body := EncMessage(sub, v.slots).bytes;
        hide EncMessage;
        PrefixedBytes(body, t);
      case Bytes => PrefixedBytes(v.bs, t);
      case FixedLengthBytes => PrefixedBytes(v.bs, t);
      case String =>
        WholeString(v.bs, f.dataSize);
        PrefixedBytes(v.bs, t);
        hide CString, EncString;
      case _ => VarintBytes(f, v, t);
    }
    hide DecVarint, EncVarint;
  }

  lemma PrefixedBytes(bs: seq<byte>, t: seq<byte>)
    requires |bs| < U64
    ensures DecVarint(EncString(bs) + t) == Done(|bs|, bs + t)
  {
    assert EncString(bs) + t == EncVarint(|bs|) + (bs + t);
    VarintRoundTrip(|bs|, bs + t);
    hide DecVarint, EncVarint;
  }

  lemma FixedBytes(f: Field, v: Value)
    requires f.ltype.Fixed32? || f.ltype.Fixed64?
    requires WfValue(f, v)
    ensures EncValue(f, v).bytes == FourBytes(v.n) + (if f.ltype.Fixed32? then [] else FourBytes(v.n / 0x1_0000_0000))
  {
    LittleEndianBytes(v.n);
    hide LittleEndian;
    ToUnsignedMeaning(v.n, if f.ltype.Fixed32? then 4 else 8);
    hide ToUnsigned, FourBytes;
    assert FourBytes(v.n) + [] == FourBytes(v.n);
  }

  lemma VarintBytes(f: Field, v: Value, t: seq<byte>)
    requires f.ltype.Varint? || f.ltype.Uvarint? || f.ltype.Svarint?
    requires WfValue(f, v)
    ensures v.VInt? && DecVarint(EncValue(f, v).bytes + t) ==
            Done(if f.ltype.Svarint? then (if v.n < 0 then -2 * v.n - 1 else 2 * v.n)
                 else if v.n < 0 then v.n + 0x1_0000_0000_0000_0000 else v.n, t)
  {
    hide DecVarint, EncVarint;
    if f.ltype.Svarint? {
      WideSigned(v.n, f.dataSize);
      ZigZagMeaning(v.n);
      VarintRoundTrip(ZigZag(v.n), t);
    } else {
      if f.ltype.Uvarint? { UnsignedSmall(v.n, f.dataSize); } else { WideSigned(v.n, f.dataSize); }
      VarintRoundTrip(Low64(v.n), t);
    }
    hide ZigZag;
  }

  lemma WideSigned(n: int, size: nat)
    requires IsWidth(size) && FitsSigned(n, size)
    ensures FitsSigned(n, 8)
    ensures Low64(n) == if n < 0 then n + 0x1_0000_0000_0000_0000 else n
  {
  }

  // ----- Every item and field can be skipped by the wire type it is given -----

  lemma ItemOk(f: Field, v: Value)
    requires ValidField(f) && WfValue(f, v)
    ensures EncValue(f, v).ok
  {
    if f.ltype.Submessage? { MessageRoundTrip(f.ltype.fields, v.slots); } else { ScalarRoundTrip(f, v, []); }
    hide DecScalar, EncMessage, DecNoinit, Canon;
  }

  /** A receiver that skips the item by its wire type consumes exactly the item. */
  lemma ItemSkipped(f: Field, v: Value, t: seq<byte>)
    requires ValidField(f) && WfValue(f, v)
    ensures SkipField(WireType(f.ltype), EncValue(f, v).bytes + t) == Done((), t)
  {
    ItemOk(f, v);
    match f.ltype {
      case Fixed32 => SkippedByNumber(5, EncValue(f, v).bytes + t);
      case Fixed64 => SkippedByNumber(1, EncValue(f, v).bytes + t);
      case Submessage(sub) =>
        var body := EncMessage(sub, v.slots).bytes;
        hide EncMessage;
        StringSkipped(body, t);
      case Bytes => StringSkipped(v.bs, t);
      case FixedLengthBytes => StringSkipped(v.bs, t);
      case String =>
        WholeString(v.bs, f.dataSize);
        StringSkipped(v.bs, t);
        hide CString;
      case Bool => NumberSkipped(if v.b then 1 else 0, t);
      case Svarint => NumberSkipped(ZigZag(v.n), t);
      case _ => NumberSkipped(Low64(v.n), t);
    }
    hide SkipField, EncString, EncVarint, ZigZag, LittleEndian;
  }

  /** So whatever the type, what stands behind the tag is what the wire type in the tag says. */
  lemma WrittenItemSkipped(f: Field, v: Value, t: seq<byte>)
    requires ValidField(f) && WfValue(f, v)
    ensures var rest := EncValue(f, v).bytes + t;
            DecTag(FieldTag(f) + EncValue(f, v).bytes + t) == Tag(f.tag, WireNumber(f.ltype), rest)
            && SkipField(WireNumber(f.ltype), rest) == Done((), t)
  {
    assert WireNumber(f.ltype) == WireType(f.ltype);
    hide EncValue, DecTag, EncTag, SkipField, WireNumber, WireType;
    var bs := EncValue(f, v).bytes;
    assert FieldTag(f) + bs + t == FieldTag(f) + (bs + t);
    TagRoundTrip(f.tag, WireType(f.ltype), bs + t);
    ItemSkipped(f, v, t);
  }

  /** What follows a tag that the description does not have is skipped, and the loop goes on behind it. */
  lemma TagSkipped(others: seq<Field>, slots: seq<Slot>, seen: Progress, tag: nat, wireType: nat, payload: seq<byte>, t: seq<byte>)
    requires Find(others, tag).None? && 1 <= tag < 0x2000_0000 && wireType < 8
    requires SkipField(wireType, payload + t) == Done((), t)
    ensures DecLoop(others, slots, seen, EncTag(wireType, tag) + payload + t) == DecLoop(others, slots, seen, t)
  {
    hide DecTag, EncTag, SkipField, Find;
    assert EncTag(wireType, tag) + payload + t == EncTag(wireType, tag) + (payload + t);
    TagRoundTrip(tag, wireType, payload + t);
  }

  lemma {:induction false} TaggedSkipped(others: seq<Field>, slots: seq<Slot>, seen: Progress, f: Field, items: seq<Value>, t: seq<byte>)
    requires ValidField(f) && f.htype.Repeated? && Find(others, f.tag).None?
    requires forall k :: 0 <= k < |items| ==> WfValue(f, items[k])
    ensures EncTagged(f, items).ok
    ensures DecLoop(others, slots, seen, EncTagged(f, items).bytes + t) == DecLoop(others, slots, seen, t)
    decreases |items|
  {
    hide DecLoop, EncValue, EncTagged, WfValue, Find;
    if items == [] {
      LastEntry(f, items, t);
    } else {
      TaggedSkipped(others, slots, seen, f, items[1..], t);
      ItemOk(f, items[0]);
      TaggedUnfold(f, items, t);
      var after := EncTagged(f, items[1..]).bytes + t;
      ItemSkipped(f, items[0], after);
      TagSkipped(others, slots, seen, f.tag, WireType(f.ltype), EncValue(f, items[0]).bytes, after);
    }
  }

  /**
    A receiver whose description lacks the field skips everything that the encoder wrote for it, whatever its type
    and kind, and nothing else.
   */
  lemma FieldSkipped(others: seq<Field>, slots: seq<Slot>, seen: Progress, f: Field, s: Slot, t: seq<byte>)
    requires ValidField(f) && WfSlot(f, s) && Find(others, f.tag).None?
    ensures EncField(f, s).ok
    ensures DecLoop(others, slots, seen, EncField(f, s).bytes + t) == DecLoop(others, slots, seen, t)
  {
    hide DecLoop, EncValue, EncTagged, EncItems, WfValue, Find, IsProto3Default, EncString, EncTag, SkipField;
    assert [] + t == t;
    if f.htype.Repeated? {
      if Items(s) == [] {
      } else if Packable(f.ltype) {
        var body := EncItems(f, Items(s)).bytes;
        PackedRoundTrip(f, [], Items(s));
        StringSkipped(body, t);
        TagSkipped(others, slots, seen, f.tag, 2, EncString(body), t);
      } else {
        TaggedSkipped(others, slots, seen, f, Items(s), t);
      }
    } else if IsPresent(f, s) {
      ItemOk(f, ValueOf(s));
      ItemSkipped(f, ValueOf(s), t);
      TagSkipped(others, slots, seen, f.tag, WireType(f.ltype), EncValue(f, ValueOf(s)).bytes, t);
    }
  }

  lemma {:induction false} FieldsSkipped(others: seq<Field>, slots: seq<Slot>, seen: Progress, fields: seq<Field>, b: seq<Slot>, i: nat, t: seq<byte>)
    requires ValidSchema(fields) && WfMessage(fields, b) && i <= |fields|
    requires forall j :: 0 <= j < |fields| ==> Find(others, fields[j].tag).None?
    ensures EncFrom(fields, b, i).ok
    ensures DecLoop(others, slots, seen, EncFrom(fields, b, i).bytes + t) == DecLoop(others, slots, seen, t)
    decreases |fields| - i
  {
    hide DecLoop, EncField, Find, ValidField, WfSlot;
    if i == |fields| {
      assert EncFrom(fields, b, i).bytes + t == t;
    } else {
      var s := Get(b, Home(fields, i));
      assert ValidField(fields[i]) && WfSlot(fields[i], s);
      FieldsSkipped(others, slots, seen, fields, b, i + 1, t);
      FieldSkipped(others, slots, seen, fields[i], s, EncFrom(fields, b, i + 1).bytes + t);
      FieldThenOthers(fields, b, i, t);
    }
  }

  /** A receiver that knows none of its fields skips a whole encoding, and goes on with what follows. */
  lemma MessageSkipped(others: seq<Field>, slots: seq<Slot>, seen: Progress, fields: seq<Field>, b: seq<Slot>, t: seq<byte>)
    requires ValidSchema(fields) && WfMessage(fields, b)
    requires forall i, j :: 0 <= i < |others| && 0 <= j < |fields| ==> others[i].tag != fields[j].tag
    ensures DecLoop(others, slots, seen, EncMessage(fields, b).bytes + t) == DecLoop(others, slots, seen, t)
  {
    FieldsSkipped(others, slots, seen, fields, b, 0, t);
    hide DecLoop, EncFrom;
  }

  /**
    In a description without fields, a tag of number 0 with any wire type but 0 stands in front of a varint: the cursor
    is on the list terminator, whose tag is 0 and whose type is read as a bool. In any other it is skipped by its wire type.
   */
  lemma TagZero(fields: seq<Field>, slots: seq<Slot>, seen: Progress, wireType: byte, v: nat, t: seq<byte>)
    requires ValidSchema(fields) && 1 <= wireType < 8 && v < 0x1_0000_0000
    ensures fields == [] ==> DecLoop(fields, slots, seen, [wireType] + EncVarint(v) + t) == DecLoop(fields, slots, seen, t)
    ensures var d := SkipField(wireType, t);
            fields != [] ==> DecLoop(fields, slots, seen, [wireType] + t) == if d.Done? then DecLoop(fields, slots, seen, d.rest) else LoopFail
  {
    forall i | 0 <= i < |fields| ensures fields[i].tag != 0 { assert ValidField(fields[i]); }
    hide ValidSchema, DecTag, DecVarint32, EncVarint, SkipField, DecField, MayBegin, Current, See;
    OneByteTag(wireType, t);
    if fields == [] {
      Varint32RoundTrip(v, t);
      OneByteTag(wireType, EncVarint(v) + t);
      assert [wireType] + EncVarint(v) + t == [wireType] + (EncVarint(v) + t);
    }
  }

  lemma OneByteTag(wireType: byte, t: seq<byte>)
    requires 1 <= wireType < 8
    ensures DecTag([wireType] + t) == Tag(0, wireType, t)
  {
    assert ([wireType] + t)[1..] == t;
  }

  // ----- The forms of an array -----

  /** Items stand back to back, in order. */
  lemma {:induction false} ItemsJoin(f: Field, xs: seq<Value>, ys: seq<Value>)
    ensures EncItems(f, xs + ys) == Then(EncItems(f, xs), EncItems(f, ys))
    ensures EncTagged(f, xs + ys) == Then(EncTagged(f, xs), EncTagged(f, ys))
  {
    hide EncValue, Then, FieldTag;
    if xs == [] {
      assert xs + ys == ys;
      NothingThen(EncItems(f, ys));
      NothingThen(EncTagged(f, ys));
    } else {
      assert (xs + ys)[1..] == xs[1..] + ys;
      ItemsJoin(f, xs[1..], ys);
      ThenAssociative(EncValue(f, xs[0]), EncItems(f, xs[1..]), EncItems(f, ys));
      ThenAssociative(EncValue(f, xs[0]), EncTagged(f, xs[1..]), EncTagged(f, ys));
      ThenAssociative(Emit(FieldTag(f)), Then(EncValue(f, xs[0]), EncTagged(f, xs[1..])), EncTagged(f, ys));
    }
  }

  lemma NothingThen(e: Enc)
    ensures Then(EMPTY, e) == e && Then(e, EMPTY) == e
  {
    assert [] + e.bytes == e.bytes && e.bytes + [] == e.bytes;
  }

  lemma ItemAlone(f: Field, v: Value)
    ensures EncItems(f, [v]) == EncValue(f, v)
    ensures EncTagged(f, [v]) == Then(Emit(FieldTag(f)), EncValue(f, v))
  {
    assert [v][1..] == [];
    hide EncValue, FieldTag;
    NothingThen(EncValue(f, v));
  }

  /**
    An array of booleans or integers is one length-prefixed field with the items back to back; any other has one
    field for each entry; an empty one is not written, and one that exceeds its size is refused.
   */
  lemma ArrayForm(f: Field, items: seq<Value>, t: seq<byte>)
    requires ValidField(f) && forall k :: 0 <= k < |items| ==> WfValue(f, items[k])
    requires |EncItems(f, items).bytes| < 0x1_0000_0000_0000_0000
    ensures EncArray(f, []) == Enc([], true)
    ensures items != [] ==> (EncArray(f, items).ok <==> |items| <= f.arraySize)
    ensures items != [] && |items| <= f.arraySize ==>
              var e, body := EncArray(f, items), EncItems(f, items).bytes;
              if f.ltype in {Bool, Varint, Uvarint, Svarint, Fixed32, Fixed64} then
                && DecVarint(e.bytes + t) == Done(8 * f.tag + 2, e.bytes[|e.bytes| - |EncString(body)|..] + t)
                && DecVarint(e.bytes[|e.bytes| - |EncString(body)|..] + t) == Done(|body|, body + t)
              else e == EncTagged(f, items)
  {
    if items != [] && |items| <= f.arraySize {
      hide WfValue, EncItems, EncTagged;
      if f.ltype in {Bool, Varint, Uvarint, Svarint, Fixed32, Fixed64} {
        PackedItemsOk(f, items);
        var body := EncItems(f, items).bytes;
        var tag := EncTag(2, f.tag);
        assert EncArray(f, items).bytes == tag + EncString(body);
        hide EncArray, EncString, EncTag;
        assert (tag + EncString(body))[|tag|..] == EncString(body);
        assert tag + EncString(body) + t == tag + (EncString(body) + t);
        TagNumber(f, EncString(body) + t);
        PrefixedBytes(body, t);
      } else {
        assert !Packable(f.ltype);
        AllItemsOk(f, items);
      }
    }
    hide DecVarint;
  }

  lemma {:induction false} AllItemsOk(f: Field, items: seq<Value>)
    requires ValidField(f) && forall k :: 0 <= k < |items| ==> WfValue(f, items[k])
    ensures EncTagged(f, items).ok
  {
    if items != [] {
      ItemOk(f, items[0]);
      AllItemsOk(f, items[1..]);
      hide EncValue, WfValue;
    }
  }

  // ----- Which fields are written, and where -----

  /** The bytes of the first `n` fields of the description, one behind the other. */
  function BytesOfFirst(fields: seq<Field>, slots: seq<Slot>, n: nat): seq<byte>
    requires n <= |fields|
  {
    if n == 0 then []
    else BytesOfFirst(fields, slots, n - 1) + EncField(fields[n - 1], Get(slots, Home(fields, n - 1))).bytes
  }

  lemma {:induction false} FieldsFollow(fields: seq<Field>, slots: seq<Slot>, n: nat)
    requires n <= |fields| && EncMessage(fields, slots).ok
    ensures EncFrom(fields, slots, n).ok
    ensures EncMessage(fields, slots).bytes == BytesOfFirst(fields, slots, n) + EncFrom(fields, slots, n).bytes
  {
    hide EncField, Get, Home;
    if n > 0 {
      FieldsFollow(fields, slots, n - 1);
      var e := EncField(fields[n - 1], Get(slots, Home(fields, n - 1))).bytes;
      assert EncFrom(fields, slots, n - 1).bytes == e + EncFrom(fields, slots, n).bytes;
    }
  }

  /** A message is its fields in the order of the description, and nothing else. */
  lemma FieldsInOrder(fields: seq<Field>, slots: seq<Slot>)
    requires EncMessage(fields, slots).ok
    ensures EncMessage(fields, slots).bytes == BytesOfFirst(fields, slots, |fields|)
  {
    FieldsFollow(fields, slots, |fields|);
    hide EncMessage, BytesOfFirst;
  }

  /** An encoding is empty exactly when none of its fields is written. */
  lemma {:induction false} NothingWritten(fields: seq<Field>, slots: seq<Slot>, i: nat)
    requires i <= |fields| && EncFrom(fields, slots, i).ok
    ensures EncFrom(fields, slots, i).bytes == [] <==>
            forall k :: i <= k < |fields| ==> EncField(fields[k], Get(slots, Home(fields, k))).bytes == []
    decreases |fields| - i
  {
    hide EncField, Get, Home;
    if i < |fields| { NothingWritten(fields, slots, i + 1); }
  }

  /** A field is written exactly when it is there; for a proto3 singular field that is: when it is not zero. */
  lemma WrittenExactly(f: Field, s: Slot)
    requires ValidField(f) && WfSlot(f, s)
    ensures EncField(f, s).bytes != [] <==>
            match f.htype
            case Required => true
            case Repeated => Items(s) != []
            case Oneof => Which(s) == f.tag
            case Optional =>
              if f.sizeOffset != 0 then HasFlag(s)
              else
                match f.ltype
                case Bool => AsBool(ValueOf(s))
                case Bytes | String => AsBytes(ValueOf(s)) != []
                case FixedLengthBytes => f.dataSize != 0
                case Submessage(sub) => !IsProto3Default(f, s)
                case _ => AsInt(ValueOf(s)) != 0
  {
    hide EncValue, WfValue;
    assert FieldTag(f) != [];
    hide FieldTag;
    if f.htype.Repeated? {
      ArrayWritten(f, Items(s));
      hide EncArray;
    } else if f.htype.Optional? && f.sizeOffset == 0 {
      SingularZero(f, s);
      hide IsProto3Default;
    }
  }

  lemma ArrayWritten(f: Field, items: seq<Value>)
    requires |items| <= f.arraySize
    ensures EncArray(f, items).bytes != [] <==> items != []
  {
    hide EncItems, EncValue;
    assert FieldTag(f) != [];
    hide FieldTag;
  }

  /** The zero of each type of proto3 singular field. */
  lemma SingularZero(f: Field, s: Slot)
    requires ValidField(f) && WfSlot(f, s) && f.htype.Optional? && f.sizeOffset == 0
    ensures IsProto3Default(f, s) <==>
            match f.ltype
            case Bool => !AsBool(ValueOf(s))
            case Bytes | String => AsBytes(ValueOf(s)) == []
            case FixedLengthBytes => f.dataSize == 0
            case Submessage(sub) => forall j :: 0 <= j < |sub| ==> IsProto3Default(sub[j], Get(AsSlots(ValueOf(s)), Home(sub, j)))
            case _ => AsInt(ValueOf(s)) == 0
  {
    if f.ltype.String? {
      assert AsBytes(ValueOf(s)) != [] ==> AsBytes(ValueOf(s))[0] in AsBytes(ValueOf(s));
    }
  }

  /** No unions and no arrays of fixed size 0, in the description or in proto3 submessages of it. */
  predicate Plain(fields: seq<Field>)
    decreases fields
  {
    forall i :: 0 <= i < |fields| ==> PlainField(fields[i])
  }

  predicate PlainField(f: Field)
    decreases f
  {
    && !f.htype.Oneof? && (FixedCount(f) ==> f.arraySize > 0)
    && (f.htype.Optional? && f.sizeOffset == 0 && f.ltype.Submessage? ==> Plain(f.ltype.fields))
  }

  /** A proto3 submessage that is left out has nothing to write; without unions, one with nothing to write is left out. */
  lemma {:induction false} SubmessageWritten(f: Field, s: Slot)
    requires ValidField(f) && WfSlot(f, s) && f.htype.Optional? && f.sizeOffset == 0 && f.ltype.Submessage?
    ensures EncField(f, s).bytes == [] ==> EncMessage(f.ltype.fields, AsSlots(ValueOf(s))).bytes == []
    ensures PlainField(f) ==> (EncField(f, s).bytes == [] <==> EncMessage(f.ltype.fields, AsSlots(ValueOf(s))).bytes == [])
    decreases f, 1
  {
    var sub, inner := f.ltype.fields, AsSlots(ValueOf(s));
    WrittenExactly(f, s);
    SingularZero(f, s);
    assert WfMessage(sub, inner) && ValidSchema(sub);
    hide EncField, EncFrom, DecNoinit, Canon, Defaults, IsProto3Default, WfMessage, WfSlot, ValidSchema, ValidField;
    SubmessageEmpty(sub, inner);
    ZeroesNotWritten(sub, inner);
    if PlainField(f) {
      assert Plain(sub);
      assert forall j :: 0 <= j < |sub| ==> PlainField(sub[j]);
    }
    hide PlainField, Get, Home;
  }

  lemma SubmessageEmpty(sub: seq<Field>, inner: seq<Slot>)
    requires ValidSchema(sub) && WfMessage(sub, inner)
    ensures EncMessage(sub, inner).bytes == [] <==>
            forall j :: 0 <= j < |sub| ==> EncField(sub[j], Get(inner, Home(sub, j))).bytes == []
  {
    MessageRoundTrip(sub, inner);
    NothingWritten(sub, inner, 0);
    hide EncField, EncFrom, DecNoinit, Canon, Defaults, WfMessage, ValidSchema;
  }

  lemma {:induction false} ZeroesNotWritten(fields: seq<Field>, slots: seq<Slot>)
    requires ValidSchema(fields) && WfMessage(fields, slots)
    ensures forall j :: 0 <= j < |fields| ==>
              var s := Get(slots, Home(fields, j));
              && (IsProto3Default(fields[j], s) ==> EncField(fields[j], s).bytes == [])
              && (PlainField(fields[j]) ==> (IsProto3Default(fields[j], s) <==> EncField(fields[j], s).bytes == []))
    decreases fields
  {
    forall j | 0 <= j < |fields|
      ensures var s := Get(slots, Home(fields, j));
              && (IsProto3Default(fields[j], s) ==> EncField(fields[j], s).bytes == [])
              && (PlainField(fields[j]) ==> (IsProto3Default(fields[j], s) <==> EncField(fields[j], s).bytes == []))
    {
      assert ValidField(fields[j]) && WfSlot(fields[j], Get(slots, Home(fields, j)));
      ZeroNotWritten(fields[j], Get(slots, Home(fields, j)));
    }
  }

  lemma {:induction false} ZeroNotWritten(f: Field, s: Slot)
    requires ValidField(f) && WfSlot(f, s)
    ensures IsProto3Default(f, s) ==> EncField(f, s).bytes == []
    ensures PlainField(f) ==> (IsProto3Default(f, s) <==> EncField(f, s).bytes == [])
    decreases f, 2
  {
    WrittenExactly(f, s);
    hide EncField, WfValue;
    if f.htype.Optional? && f.sizeOffset == 0 {
      SingularZero(f, s);
      if f.ltype.Submessage? { SubmessageWritten(f, s); }
      hide IsProto3Default;
    }
  }

  // ----- What the encoder refuses -----

  /** The sizes that an item must have: integers of a width of C, and bytes with room for their four-byte length. */
  predicate ItemFits(f: Field, v: Value)
    decreases f, 0
  {
    match f.ltype
    case Varint | Uvarint | Svarint => f.dataSize in {1, 2, 4, 8}
    case Bytes => |AsBytes(v)| + 4 <= f.dataSize
    case Submessage(sub) => MessageFits(sub, AsSlots(v))
    case _ => true
  }

  predicate FieldFitsArray(f: Field, s: Slot)
    decreases f, 1
  {
    if f.htype.Repeated? then |Items(s)| <= f.arraySize && forall k :: 0 <= k < |Items(s)| ==> ItemFits(f, Items(s)[k])
    else IsPresent(f, s) ==> ItemFits(f, ValueOf(s))
  }

  predicate MessageFits(fields: seq<Field>, slots: seq<Slot>)
    decreases fields
  {
    forall i :: 0 <= i < |fields| ==> FieldFitsArray(fields[i], Get(slots, Home(fields, i)))
  }

  /** Encoding succeeds exactly when no array exceeds its size, no bytes their member, and integers have C widths. */
  lemma {:induction false} EncodesExactly(fields: seq<Field>, slots: seq<Slot>)
    ensures EncMessage(fields, slots).ok <==> MessageFits(fields, slots)
    decreases fields, 3
  {
    forall i | 0 <= i < |fields|
      ensures EncField(fields[i], Get(slots, Home(fields, i))).ok <==> FieldFitsArray(fields[i], Get(slots, Home(fields, i)))
    {
      EncodesField(fields[i], Get(slots, Home(fields, i)));
    }
    FieldsOk(fields, slots, 0);
    hide EncField, FieldFitsArray, EncFrom;
  }

  lemma {:induction false} FieldsOk(fields: seq<Field>, slots: seq<Slot>, i: nat)
    requires i <= |fields|
    ensures EncFrom(fields, slots, i).ok <==> forall k :: i <= k < |fields| ==> EncField(fields[k], Get(slots, Home(fields, k))).ok
    decreases fields, 0, |fields| - i
  {
    hide EncField, Get, Home;
    if i < |fields| { FieldsOk(fields, slots, i + 1); }
  }

  lemma {:induction false} EncodesField(f: Field, s: Slot)
    ensures EncField(f, s).ok <==> FieldFitsArray(f, s)
    decreases f, 2
  {
    if f.htype.Repeated? {
      if Items(s) != [] { EncodesItems(f, Items(s)); }
      hide EncItems, EncTagged, ItemFits;
    } else if IsPresent(f, s) {
      EncodesItem(f, ValueOf(s));
      hide EncValue, ItemFits;
    }
  }

  lemma {:induction false} EncodesItems(f: Field, items: seq<Value>)
    ensures EncItems(f, items).ok <==> forall k :: 0 <= k < |items| ==> ItemFits(f, items[k])
    ensures EncTagged(f, items).ok <==> forall k :: 0 <= k < |items| ==> ItemFits(f, items[k])
    decreases f, 1, |items|
  {
    if items != [] {
      EncodesItem(f, items[0]);
      EncodesItems(f, items[1..]);
      hide ItemFits, EncValue;
      assert (forall k :: 0 <= k < |items| ==> ItemFits(f, items[k])) <==>
             ItemFits(f, items[0]) && forall k :: 0 <= k < |items[1..]| ==> ItemFits(f, items[1..][k]) by {
        assert items == [items[0]] + items[1..];
      }
    }
  }

  lemma {:induction false} EncodesItem(f: Field, v: Value)
    ensures EncValue(f, v).ok <==> ItemFits(f, v)
    decreases f, 0
  {
    if f.ltype.Submessage? { EncodesExactly(f.ltype.fields, AsSlots(v)); }
    hide EncMessage, MessageFits;
  }

  // ----- What the decoder makes of an item, written by this encoder or another -----

  /** Every number but zero is true. */
  lemma BoolRead(f: Field, v: nat, t: seq<byte>)
    requires f.ltype.Bool? && v < 0x1_0000_0000
    ensures DecScalar(f, EncVarint(v) + t) == Done(VBool(v != 0), t)
  {
    Varint32RoundTrip(v, t);
    hide DecVarint32, EncVarint;
  }

  /** Which lengths are accepted: with room for a four-byte count, or for a terminator, or exactly the fixed one. */
  lemma LengthsExactly(f: Field, raw: seq<byte>, t: seq<byte>)
    requires f.ltype.Bytes? || f.ltype.String? || f.ltype.FixedLengthBytes?
    requires f.dataSize <= 0xFFFF_FFFF && |raw| <= 0xFFFF_FFFF
    ensures var d := DecScalar(f, EncVarint(|raw|) + raw + t);
            if f.ltype.FixedLengthBytes? && raw == [] then
              d == Done(ZeroValue(f), t) && |AsBytes(ZeroValue(f))| == f.dataSize
              && forall k :: 0 <= k < f.dataSize ==> AsBytes(ZeroValue(f))[k] == 0
            else
              d == if (match f.ltype
                       case Bytes => |raw| + 4 <= f.dataSize
                       case String => |raw| + 1 <= f.dataSize
                       case _ => |raw| == f.dataSize) then Done(VBytes(raw), t)
                   else Fail
  {
    StringRoundTrip(raw, t);
    assert EncVarint(|raw|) + raw + t == EncString(raw) + t;
    hide DecVarint32, EncVarint, EncString, Take;
    LengthLimit(f, |raw|);
    hide LengthAccepted;
    if f.ltype.FixedLengthBytes? { ZeroBytes(f); }
    hide ZeroValue;
    if raw == [] { assert raw + t == t; }
  }

  lemma LengthLimit(f: Field, size: nat)
    requires f.ltype.Bytes? || f.ltype.String? || f.ltype.FixedLengthBytes?
    requires f.dataSize <= 0xFFFF_FFFF && size <= 0xFFFF_FFFF
    ensures LengthAccepted(f, size) <==>
            match f.ltype
            case Bytes => size + 4 <= f.dataSize
            case String => size + 1 <= f.dataSize
            case _ => size == 0 || size == f.dataSize
  {
  }

  lemma ZeroBytes(f: Field)
    requires f.ltype.FixedLengthBytes?
    ensures |AsBytes(ZeroValue(f))| == f.dataSize
    ensures forall k :: 0 <= k < f.dataSize ==> AsBytes(ZeroValue(f))[k] == 0
  {
  }

  /** A number of a signed field is read as the number of the field's width that the varint stands for. */
  lemma SignedRead(f: Field, v: nat, n: int, t: seq<byte>)
    requires f.ltype.Varint? && IsWidth(f.dataSize) && v < 0x1_0000_0000_0000_0000
    ensures DecScalar(f, EncVarint(v) + t) == Done(VInt(n), t) <==>
            FitsSigned(n, f.dataSize) && (n - v) % (if f.dataSize == 8 then 0x1_0000_0000_0000_0000 else 0x1_0000_0000) == 0
  {
    VarintRoundTrip(v, t);
    NarrowSignedExactly(v, f.dataSize, n);
    hide DecVarint, EncVarint, NarrowSigned;
  }

  /** Eight bytes, the least significant first. */
  lemma EightBytesRead(xs: seq<byte>, ys: seq<byte>, t: seq<byte>)
    requires |xs| == 4 && |ys| == 4
    ensures DecFixed(xs + ys + t, 8) == Done(FromLittleEndian(xs) + 0x1_0000_0000 * FromLittleEndian(ys), t)
  {
    assert (xs + ys + t)[..8] == xs + ys && (xs + ys + t)[8..] == t;
    LittleJoin(xs, ys);
    hide FromLittleEndian;
  }

  lemma LittleJoin(xs: seq<byte>, ys: seq<byte>)
    requires |xs| == 4
    ensures FromLittleEndian(xs + ys) == FromLittleEndian(xs) + 0x1_0000_0000 * FromLittleEndian(ys)
  {
    var a, b, c := xs[1..], xs[2..], xs[3..];
    assert a[1..] == b && b[1..] == c && c[1..] == [] && [] + ys == ys;
    NoLittle();
    hide FromLittleEndian;
    LittleBoth(xs, ys);
    LittleBoth(a, ys);
    LittleBoth(b, ys);
    LittleBoth(c, ys);
  }

  /** One byte more in front of both. */
  lemma LittleBoth(xs: seq<byte>, ys: seq<byte>)
    requires xs != []
    ensures FromLittleEndian(xs + ys) - FromLittleEndian(xs) == 256 * (FromLittleEndian(xs[1..] + ys) - FromLittleEndian(xs[1..]))
  {
    assert (xs + ys)[1..] == xs[1..] + ys;
    LittleStep(xs + ys);
    LittleStep(xs);
    hide FromLittleEndian;
  }

  lemma NoLittle()
    ensures FromLittleEndian([]) == 0
  {
  }

  lemma LittleStep(bs: seq<byte>)
    requires bs != []
    ensures FromLittleEndian(bs) == bs[0] + 256 * FromLittleEndian(bs[1..])
  {
  }
}

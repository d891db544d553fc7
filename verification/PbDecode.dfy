/**
  The decoder of pb_decode.c on streams. Each method is proved to read and return exactly what the functions
  of the module Decoding say, and to move the stream's position and count together: after a success the
  stream still ends where it did, and has the bytes left that the function leaves unread.
 */
module PbDecode {
  import opened Options
  import opened Bits
  import opened Wire
  import opened Scalars
  import opened Schema
  import opened Decoding
  import opened InputStream
  import opened RequiredBitmap
  import opened FieldCursor

  // ----- Helper functions -----

  /** `pb_decode_varint32_eof`; `eof` tells an empty stream from a broken varint. */
  method DecodeVarint32Eof(s: IStream) returns (ok: bool, value: nat, eof: bool)
    requires s.Valid()
    modifies s
    ensures s.Valid() && s.End() <= old(s.End())
    ensures var d := DecVarint32(old(s.Remaining()));
            ok == d.Done? && (ok ==> value == d.value < U32 && s.Left(old(s.End()), d.rest))
    ensures eof == (old(s.bytesLeft) == 0) && (eof ==> s.Left(old(s.End()), []))
  {
    eof, value := false, 0;
    var b;
    ok, b := s.ReadByte();
    if !ok {
      if s.bytesLeft == 0 {
        eof := true;
      }
      return;
    }
    if b < 0x80 {
      value := b;
      return;
    }
    var bitpos: nat, result: nat := 7, b % 128;
    ghost var bs := s.Remaining();
    while true
      invariant s.Valid() && s.End() == old(s.End()) && result < U32
      invariant DecVarint32From(bs, 7, old(s.Remaining()[0]) % 128) == DecVarint32From(s.Remaining(), bitpos, result)
      decreases s.bytesLeft
    {
      ok, b := s.ReadByte();
      if !ok {
        return;
      }
      if bitpos >= 32 {
        var signExtension := if bitpos < 63 then 0xFF else 0x01;
        if b % 128 != 0 && (result / 0x8000_0000 == 0 || b != signExtension) {
          ok := false;
          return;
        }
      } else {
        OrBound32(result, Shl32(b % 128, bitpos));
        result := Or(result, Shl32(b % 128, bitpos));
      }
      bitpos := (bitpos + 7) % 256;
      if b < 0x80 {
        break;
      }
    }
    if bitpos == 35 && b / 16 % 8 != 0 {
      ok := false;
      return;
    }
    value := result;
  }

  lemma OrBound32(a: nat, b: nat)
    requires a < U32 && b < U32
    ensures Or(a, b) < U32
  {
    var k := 32;
    Pow2Above(4, k);
    OrBound(a, b, k);
  }

  lemma OrBound64(a: nat, b: nat)
    requires a < U64 && b < U64
    ensures Or(a, b) < U64
  {
    var k := 64;
    Pow2Above(9, k);
    OrBound(a, b, k);
  }

  method DecodeVarint32(s: IStream) returns (ok: bool, value: nat)
    requires s.Valid()
    modifies s
    ensures s.Valid() && s.End() <= old(s.End())
    ensures var d := DecVarint32(old(s.Remaining()));
            ok == d.Done? && (ok ==> value == d.value < U32 && s.Left(old(s.End()), d.rest))
  {
    var eof;
    ok, value, eof := DecodeVarint32Eof(s);
  }

  method DecodeVarint(s: IStream) returns (ok: bool, value: nat)
    requires s.Valid()
    modifies s
    ensures s.Valid() && s.End() <= old(s.End())
    ensures var d := DecVarint(old(s.Remaining()));
            ok == d.Done? && (ok ==> value == d.value < U64 && s.Left(old(s.End()), d.rest))
  {
    var bitpos: nat, result: nat := 0, 0;
    value := 0;
    while true
      invariant s.Valid() && s.End() == old(s.End()) && result < U64
      invariant DecVarint(old(s.Remaining())) == DecVarintFrom(s.Remaining(), bitpos, result)
      decreases s.bytesLeft
    {
      if bitpos >= 64 {
        return false, 0;
      }
      var b;
      ok, b := s.ReadByte();
      if !ok {
        return;
      }
      OrBound64(result, Shl64(b % 128, bitpos));
      result := Or(result, Shl64(b % 128, bitpos));
      bitpos := bitpos + 7;
      if b < 0x80 {
        break;
      }
    }
    value := result;
  }

  method DecodeSvarint(s: IStream) returns (ok: bool, value: int)
    requires s.Valid()
    modifies s
    ensures s.Valid() && s.End() <= old(s.End())
    ensures var d := DecVarint(old(s.Remaining()));
            ok == d.Done? && (ok ==> value == UnZigZag(d.value) && s.Left(old(s.End()), d.rest))
  {
    var v;
    ok, v := DecodeVarint(s);
    value := 0;
    if !ok {
      return;
    }
    if v % 2 == 1 {
      value := ToSigned(0xFFFF_FFFF_FFFF_FFFF - v / 2, 8);
    } else {
      value := ToSigned(v / 2, 8);
    }
  }

  method SkipVarintBytes(s: IStream) returns (ok: bool)
    requires s.Valid()
    modifies s
    ensures s.Valid() && s.End() <= old(s.End())
    ensures var d := SkipVarint(old(s.Remaining()));
            ok == d.Done? && (ok ==> s.Left(old(s.End()), d.rest))
  {
    var buf := new byte[1](_ => 0);
    while true
      invariant fresh(buf) && buf.Length == 1
      invariant s.Valid() && s.End() == old(s.End())
      invariant SkipVarint(old(s.Remaining())) == SkipVarint(s.Remaining())
      decreases s.bytesLeft
    {
      ghost var bs := s.Remaining();
      ok := s.Read(buf, 1);
      if !ok {
        return;
      }
      assert buf[0] == buf[..1][0] == bs[0];
      if buf[0] < 0x80 {
        return;
      }
    }
  }

  method SkipString(s: IStream) returns (ok: bool)
    requires s.Valid()
    modifies s
    ensures s.Valid() && s.End() <= old(s.End())
    ensures var d := SkipField(WT_STRING, old(s.Remaining()));
            ok == d.Done? && (ok ==> s.Left(old(s.End()), d.rest))
  {
    var length;
    ok, length := DecodeVarint32(s);
    if ok {
      ok := s.Skip(length);
    }
  }

  /** `pb_skip_field`. */
  method SkipUnknown(s: IStream, wireType: nat) returns (ok: bool)
    requires s.Valid()
    modifies s
    ensures s.Valid() && s.End() <= old(s.End())
    ensures var d := SkipField(wireType, old(s.Remaining()));
            ok == d.Done? && (ok ==> s.Left(old(s.End()), d.rest))
  {
    if wireType == WT_VARINT {
      ok := SkipVarintBytes(s);
    } else if wireType == WT_64BIT {
      ok := s.Skip(8);
    } else if wireType == WT_STRING {
      ok := SkipString(s);
    } else if wireType == WT_32BIT {
      ok := s.Skip(4);
    } else {
      ok := false;
    }
  }

  /** `pb_decode_tag`. */
  method DecodeTag(s: IStream) returns (ok: bool, wireType: nat, tag: nat, eof: bool)
    requires s.Valid()
    modifies s
    ensures s.Valid() && s.End() <= old(s.End())
    ensures match DecTag(old(s.Remaining()))
            case TagFail => !ok && !eof
            case TagEof(rest) => !ok && eof && s.Left(old(s.End()), rest)
            case Tag(t, w, rest) => ok && tag == t && wireType == w && s.Left(old(s.End()), rest)
  {
    wireType, tag := 0, 0;
    ghost var before := s.Remaining();
    var temp;
    ok, temp, eof := DecodeVarint32Eof(s);
    if !ok {
      return;
    }
    if temp == 0 {
      eof := true;
      ok := false;
      return;
    }
    tag := temp / 8;
    wireType := temp % 8;
  }

  /** `pb_make_string_substream`: the parent is charged for the announced length at once. */
  method MakeSubstream(s: IStream) returns (ok: bool, substream: IStream)
    requires s.Valid()
    modifies s
    ensures s.Valid() && s.End() <= old(s.End()) && substream.Valid() && fresh(substream)
    ensures var d := Substream(old(s.Remaining()));
            ok == d.Done? &&
            (ok ==>
               && substream.source == s.source && substream.state == s.state
               && substream.Remaining() == d.value
               && substream.End() + s.bytesLeft == old(s.End())
               && s.bytesLeft == |d.rest|
               && s.source[substream.End()..old(s.End())] == d.rest)
  {
    var size;
    ok, size := DecodeVarint32(s);
    if !ok || s.bytesLeft < size {
      ok := false;
      substream := new IStream(s.source, s.state, 0);
      return;
    }
    substream := new IStream(s.source, s.state, size);
    s.bytesLeft := s.bytesLeft - size;
  }

  /** `pb_close_string_substream`: whatever the substream left unread is skipped. */
  method CloseSubstream(s: IStream, substream: IStream) returns (ok: bool)
    requires substream.Valid() && s != substream && s.source == substream.source
    requires substream.End() + s.bytesLeft <= |s.source|
    modifies s, substream
    ensures ok && s.Valid() && s.state == old(substream.End()) && s.bytesLeft == old(s.bytesLeft)
  {
    if substream.bytesLeft != 0 {
      ok := substream.Skip(substream.bytesLeft);
    }
    s.state := substream.state;
    ok := true;
  }

  // ----- Field decoders -----

  method DecBool(s: IStream, f: Field) returns (ok: bool, v: Value)
    requires s.Valid() && f.ltype.Bool?
    modifies s
    ensures s.Valid() && s.End() <= old(s.End())
    ensures var d := DecScalar(f, old(s.Remaining()));
            ok == d.Done? && (ok ==> v == d.value && s.Left(old(s.End()), d.rest))
  {
    var value;
    ok, value := DecodeVarint32(s);
    v := VBool(value != 0);
  }

  /** `pb_dec_varint`. */
  method DecVarintField(s: IStream, f: Field) returns (ok: bool, v: Value)
    requires s.Valid() && f.ltype.Varint?
    modifies s
    ensures s.Valid() && s.End() <= old(s.End())
    ensures var d := DecScalar(f, old(s.Remaining()));
            ok == d.Done? && (ok ==> v == d.value && s.Left(old(s.End()), d.rest))
  {
    v := VInt(0);
    var value;
    ok, value := DecodeVarint(s);
    if !ok {
      return;
    }
    var svalue := if f.dataSize == 8 then ToSigned(value, 8) else ToSigned(value, 4);
    if !IsWidth(f.dataSize) {
      ok := false;
      return;
    }
    var clamped := ToSigned(svalue, f.dataSize);
    v := VInt(clamped);
    ok := clamped == svalue;
  }

  /** `pb_dec_uvarint`. */
  method DecUvarint(s: IStream, f: Field) returns (ok: bool, v: Value)
    requires s.Valid() && f.ltype.Uvarint?
    modifies s
    ensures s.Valid() && s.End() <= old(s.End())
    ensures var d := DecScalar(f, old(s.Remaining()));
            ok == d.Done? && (ok ==> v == d.value && s.Left(old(s.End()), d.rest))
  {
    v := VInt(0);
    var value;
    ok, value := DecodeVarint(s);
    if !ok {
      return;
    }
    if !IsWidth(f.dataSize) {
      ok := false;
      return;
    }
    var clamped := ToUnsigned(value, f.dataSize);
    v := VInt(clamped);
    ok := clamped == value;
  }

  /** `pb_dec_svarint`. */
  method DecSvarint(s: IStream, f: Field) returns (ok: bool, v: Value)
    requires s.Valid() && f.ltype.Svarint?
    modifies s
    ensures s.Valid() && s.End() <= old(s.End())
    ensures var d := DecScalar(f, old(s.Remaining()));
            ok == d.Done? && (ok ==> v == d.value && s.Left(old(s.End()), d.rest))
  {
    v := VInt(0);
    var value;
    ok, value := DecodeSvarint(s);
    if !ok {
      return;
    }
    if !IsWidth(f.dataSize) {
      ok := false;
      return;
    }
    var clamped := ToSigned(value, f.dataSize);
    v := VInt(clamped);
    ok := clamped == value;
  }

  /** Four bytes shifted into place. */
  function Join(b0: nat, b1: nat, b2: nat, b3: nat): nat {
    b0 + b1 * 0x100 + b2 * 0x1_0000 + b3 * 0x100_0000
  }

  method DecodeFixed32(s: IStream) returns (ok: bool, n: nat)
    requires s.Valid()
    modifies s
    ensures s.Valid() && s.End() <= old(s.End())
    ensures var d := DecFixed(old(s.Remaining()), 4);
            ok == d.Done? && (ok ==> n == d.value && s.Left(old(s.End()), d.rest))
  {
    n := 0;
    var bytes := new byte[4](_ => 0);
    ok := s.Read(bytes, 4);
    if ok {
      n := Join(bytes[0], bytes[1], bytes[2], bytes[3]);
      JoinFour(bytes[..4], []);
    }
  }

  method DecodeFixed64(s: IStream) returns (ok: bool, n: nat)
    requires s.Valid()
    modifies s
    ensures s.Valid() && s.End() <= old(s.End())
    ensures var d := DecFixed(old(s.Remaining()), 8);
            ok == d.Done? && (ok ==> n == d.value && s.Left(old(s.End()), d.rest))
  {
    n := 0;
    var bytes := new byte[8](_ => 0);
    ok := s.Read(bytes, 8);
    if ok {
      n := Join(bytes[0], bytes[1], bytes[2], bytes[3]) +
           Join(bytes[4], bytes[5], bytes[6], bytes[7]) * 0x1_0000_0000;
      JoinFour(bytes[..8], bytes[4..8]);
      JoinFour(bytes[4..8], []);
    }
  }

  lemma JoinFour(bs: seq<byte>, tail: seq<byte>)
    requires |bs| == 4 + |tail| && bs[4..] == tail
    ensures FromLittleEndian(bs) ==
            Join(bs[0], bs[1], bs[2], bs[3]) + FromLittleEndian(tail) * 0x1_0000_0000
    ensures FromLittleEndian([]) == 0
  {
    assert bs[1..][1..] == bs[2..] && bs[2..][1..] == bs[3..] && bs[3..][1..] == tail;
    assert FromLittleEndian(bs[3..]) == bs[3] + 256 * FromLittleEndian(tail);
    assert FromLittleEndian(bs[2..]) == bs[2] + 256 * FromLittleEndian(bs[3..]);
    assert FromLittleEndian(bs[1..]) == bs[1] + 256 * FromLittleEndian(bs[2..]);
  }

  /** The checks on a length: against 32-bit arithmetic and against the room in the destination. */
  method CheckLength(f: Field, size: nat) returns (ok: bool)
    ensures (f.ltype.Bytes? || f.ltype.String? || f.ltype.FixedLengthBytes?) ==> ok == LengthAccepted(f, size)
  {
    if f.ltype.String? {
      var allocSize := Low32(size + 1);
      return allocSize >= size && allocSize <= f.dataSize;
    }
    if size > PB_SIZE_MAX {
      return false;
    }
    if f.ltype.Bytes? {
      return size + BYTES_OFFSET <= f.dataSize;
    }
    ok := size == 0 || size == f.dataSize;
  }

  /** `pb_dec_bytes`, `pb_dec_string` and `pb_dec_fixed_length_bytes`: a length, a check, and the bytes. */
  method DecLengthPrefixed(s: IStream, f: Field) returns (ok: bool, v: Value)
    requires s.Valid() && (f.ltype.Bytes? || f.ltype.String? || f.ltype.FixedLengthBytes?)
    modifies s
    ensures s.Valid() && s.End() <= old(s.End())
    ensures var d := DecScalar(f, old(s.Remaining()));
            ok == d.Done? && (ok ==> v == d.value && s.Left(old(s.End()), d.rest))
  {
    hide LengthAccepted, DecVarint32, ZeroValue;
    v := VBytes([]);
    var size;
    ok, size := DecodeVarint32(s);
    if !ok {
      return;
    }
    ok := CheckLength(f, size);
    if !ok {
      return;
    }
    if f.ltype.FixedLengthBytes? && size == 0 {
      v := ZeroValue(f);
      return;
    }
    var dest := new byte[size](_ => 0);
    ok := s.Read(dest, size);
    v := VBytes(dest[..]);
    assert dest[..size] == dest[..];
  }

  /** Dispatch through `PB_DECODERS`, for everything but submessages. */
  method DecodeScalar(s: IStream, f: Field) returns (ok: bool, v: Value)
    requires s.Valid() && !f.ltype.Submessage?
    modifies s
    ensures s.Valid() && s.End() <= old(s.End())
    ensures var d := DecScalar(f, old(s.Remaining()));
            ok == d.Done? && (ok ==> v == d.value && s.Left(old(s.End()), d.rest))
  {
    var n;
    match f.ltype {
      case Bool => ok, v := DecBool(s, f);
      case Varint => ok, v := DecVarintField(s, f);
      case Uvarint => ok, v := DecUvarint(s, f);
      case Svarint => ok, v := DecSvarint(s, f);
      case Fixed32 => ok, n := DecodeFixed32(s); v := VInt(n);
      case Fixed64 => ok, n := DecodeFixed64(s); v := VInt(n);
      case Bytes | String | FixedLengthBytes => ok, v := DecLengthPrefixed(s, f);
    }
  }

  // ----- Defaults -----

  /** `pb_field_set_to_default`. */
  method SetFieldToDefault(f: Field) returns (slot: Slot)
    ensures slot == DefaultSlot(f)
    decreases f, 0
  {
    if f.htype.Repeated? {
      return Rep([]);
    }
    if f.htype.Oneof? {
      return Union(0, VNone);
    }
    var data;
    if f.ltype.Submessage? {
      var sub := SetToDefaults(f.ltype.fields);
      data := VMsg(sub);
    } else if f.default.Some? {
      data := f.default.value;
    } else {
      data := ZeroValue(f);
    }
    slot := if f.htype.Optional? && f.sizeOffset != 0 then Opt(false, data) else One(data);
  }

  /** `pb_message_set_to_defaults`. */
  method SetToDefaults(fields: seq<Field>) returns (slots: seq<Slot>)
    ensures slots == Defaults(fields)
    decreases fields, 1
  {
    slots := [];
    if |fields| == 0 {
      return;
    }
    var iter := new FieldIter(fields, 0);
    var more := true;
    while more
      invariant fresh(iter) && iter.Valid() && iter.start == fields
      invariant |slots| == if more then iter.pos else |fields|
      invariant slots == Defaults(fields)[..|slots|]
      decreases |fields| - |slots|
    {
      var slot := SetFieldToDefault(fields[iter.pos]);
      slots := slots + [slot];
      more := iter.Next();
    }
  }

  // ----- Fields and messages -----

  method DecSubmessage(s: IStream, f: Field, base: Value) returns (ok: bool, v: Value)
    requires s.Valid() && f.ltype.Submessage? && ValidField(f)
    modifies s
    ensures s.Valid() && s.End() <= old(s.End())
    ensures var d := DecValue(f, base, old(s.Remaining()));
            ok == d.Done? && (ok ==> v == d.value && s.Left(old(s.End()), d.rest))
    decreases s.bytesLeft, 0
  {
    hide Substream, DecNoinit, ValidSchema, Defaults;
    v := VNone;
    var substream;
    ok, substream := MakeSubstream(s);
    if !ok {
      return;
    }
    var status, slots;
    if f.htype.Repeated? {
      status, slots := Decode(substream, f.ltype.fields);
    } else {
      status, slots := DecodeNoinit(substream, f.ltype.fields, AsSlots(base));
    }
    v := VMsg(slots);
    ok := CloseSubstream(s, substream);
    ok := status;
  }

  method DecodeElement(s: IStream, f: Field, base: Value) returns (ok: bool, v: Value)
    requires s.Valid() && ValidField(f)
    modifies s
    ensures s.Valid() && s.End() <= old(s.End())
    ensures var d := DecValue(f, base, old(s.Remaining()));
            ok == d.Done? && (ok ==> v == d.value && s.Left(old(s.End()), d.rest))
    decreases s.bytesLeft, 1
  {
    if f.ltype.Submessage? {
      ok, v := DecSubmessage(s, f, base);
    } else {
      ok, v := DecodeScalar(s, f);
    }
  }

  /** The loop of `decode_static_field` over a packed array. */
  method DecodePacked(substream: IStream, f: Field, items: seq<Value>) returns (ok: bool, result: seq<Value>)
    requires substream.Valid() && !f.ltype.Submessage?
    modifies substream
    ensures substream.Valid() && substream.End() <= old(substream.End())
    ensures var r := DecPacked(f, items, old(substream.Remaining()));
            && (ok && substream.bytesLeft == 0) == r.Some?
            && (r.Some? ==> result == r.value && substream.End() == old(substream.End()))
  {
    ok, result := true, items;
    while substream.bytesLeft > 0 && |result| < f.arraySize
      invariant substream.Valid() && substream.End() == old(substream.End())
      invariant DecPacked(f, items, old(substream.Remaining())) == DecPacked(f, result, substream.Remaining())
      decreases substream.bytesLeft
    {
      var v;
      ok, v := DecodeScalar(substream, f);
      if !ok {
        return;
      }
      result := result + [v];
    }
  }

  /** A packed array, read through a substream of the announced length. */
  method DecodePackedField(s: IStream, f: Field, items: seq<Value>) returns (ok: bool, result: seq<Value>)
    requires s.Valid() && !f.ltype.Submessage?
    modifies s
    ensures s.Valid() && s.End() <= old(s.End())
    ensures var d := Substream(old(s.Remaining()));
            var r := if d.Done? then DecPacked(f, items, d.value) else None;
            ok == r.Some? && (ok ==> result == r.value && s.Left(old(s.End()), d.rest))
  {
    hide Substream, DecPacked;
    result := items;
    var substream;
    ok, substream := MakeSubstream(s);
    if !ok {
      return;
    }
    var status;
    status, result := DecodePacked(substream, f, items);
    if substream.bytesLeft != 0 {
      ok := false;
      return;
    }
    ok := CloseSubstream(s, substream);
    ok := status;
  }

  /** The array case of `decode_static_field`. */
  method DecodeRepeated(s: IStream, f: Field, wireType: nat, items: seq<Value>) returns (ok: bool, result: seq<Value>)
    requires s.Valid() && ValidField(f) && f.htype.Repeated?
    modifies s
    ensures s.Valid() && s.End() <= old(s.End())
    ensures var d := DecField(f, wireType, Rep(items), old(s.Remaining()));
            ok == d.Done? && (ok ==> Rep(result) == d.value && s.Left(old(s.End()), d.rest))
    decreases s.bytesLeft, 2
  {
    hide DecValue, Substream, DecPacked, ValidField, Defaults;
    result := items;
    if wireType == WT_STRING && Packable(f.ltype) {
      ok, result := DecodePackedField(s, f, items);
      return;
    }
    if |items| >= f.arraySize {
      return false, items;
    }
    var v;
    ok, v := DecodeElement(s, f, VNone);
    result := items + [v];
  }

  /** `decode_static_field`. */
  method DecodeStaticField(s: IStream, f: Field, wireType: nat, slot: Slot) returns (ok: bool, result: Slot)
    requires s.Valid() && ValidField(f)
    modifies s
    ensures s.Valid() && s.End() <= old(s.End())
    ensures var d := DecField(f, wireType, slot, old(s.Remaining()));
            ok == d.Done? && (ok ==> result == d.value && s.Left(old(s.End()), d.rest))
    decreases s.bytesLeft, 3
  {
    hide DecValue, Substream, DecPacked, ValidField, Defaults;
    result := slot;
    var v;
    match f.htype {
      case Required =>
        ok, v := DecodeElement(s, f, ValueOf(slot));
        result := One(v);
      case Optional =>
        ok, v := DecodeElement(s, f, ValueOf(slot));
        result := if f.sizeOffset != 0 then Opt(true, v) else One(v);
      case Repeated =>
        var items;
        ok, items := DecodeRepeated(s, f, wireType, Items(slot));
        result := Rep(items);
      case Oneof =>
        var base := ValueOf(slot);
        if f.ltype.Submessage? && Which(slot) != f.tag {
          var initial := SetToDefaults(f.ltype.fields);
          base := VMsg(initial);
        }
        ok, v := DecodeElement(s, f, base);
        result := Union(f.tag, v);
    }
  }

  /** Records required field `i` in the two words of `fields_seen`. */
  method MarkRequired(fieldsSeen: array<nat>, fields: seq<Field>, i: nat, requiredFieldIndex: nat, ghost seen: Progress)
    requires i < |fields| && requiredFieldIndex == RequiredBefore(fields, i)
    requires Holds(fieldsSeen[..], fields, seen.required)
    modifies fieldsSeen
    ensures Holds(fieldsSeen[..], fields, See(fields, seen, i).required)
  {
    if fields[i].htype.Required? {
      if requiredFieldIndex < PB_MAX_REQUIRED_FIELDS {
        ghost var words := fieldsSeen[..];
        MarkSeen(words, fields, seen.required, i);
        ShiftOne(requiredFieldIndex % 32);
        var tmp := Shl32(1, requiredFieldIndex % 32);
        fieldsSeen[requiredFieldIndex / 32] := Or(fieldsSeen[requiredFieldIndex / 32], tmp);
        assert fieldsSeen[..] == words[requiredFieldIndex / 32 := Or(words[requiredFieldIndex / 32], tmp)];
      } else {
        MarkBeyond(fieldsSeen[..], fields, seen.required, i);
      }
    }
  }

  lemma ShiftOne(k: nat)
    requires k < 32
    ensures Shl32(1, k) == Pow2(k)
  {
    Pow2Monotone(k, 31);
    var top := 31;
    Pow2Above(4, top);
    assert 1 * Pow2(k) == Pow2(k);
    Shl32Exact(1, k);
  }

  /** The final check of `pb_decode_noinit`, word by word. */
  method CheckRequired(fieldsSeen: array<nat>, iter: FieldIter, ghost seen: set<nat>) returns (ok: bool)
    requires iter.Valid() && forall i :: 0 <= i < |iter.start| ==> iter.start[i].tag != 0
    requires fieldsSeen.Length == 2 && (iter.start != [] ==> Holds(fieldsSeen[..], iter.start, seen))
    modifies iter
    ensures ok == AllRequiredSeen(iter.start, seen)
  {
    hide WordOf, SeenBits, SeenBit, RequiredBefore, AllRequiredSeen, Holds;
    var count := CountRequired(iter);
    if count > PB_MAX_REQUIRED_FIELDS {
      count := PB_MAX_REQUIRED_FIELDS;
    }
    AllBitsMeanAllSeen(iter.start, seen);
    if count > 0 {
      NonEmptyCount(iter.start);
      for i := 0 to count / 32
        invariant forall k :: 0 <= k < 32 * i ==> SeenBit(iter.start, seen, k)
      {
        ShiftedOnes(32);
        WordCheck(iter.start, seen, i, 32);
        HoldsAt(fieldsSeen[..], iter.start, seen, i);
        if fieldsSeen[i] != ALLBITS {
          return false;
        }
      }
      if count % 32 != 0 {
        ShiftedOnes(count % 32);
        WordCheck(iter.start, seen, count / 32, count % 32);
        HoldsAt(fieldsSeen[..], iter.start, seen, count / 32);
        if fieldsSeen[count / 32] != Shr(ALLBITS, 32 - count % 32) {
          return false;
        }
      }
    }
    ok := true;
  }

  lemma NonEmptyCount(fields: seq<Field>)
    ensures RequiredBefore(fields, |fields|) > 0 ==> fields != []
  {
  }

  /** The number of required fields, found by running the cursor to the end of the list. */
  method CountRequired(iter: FieldIter) returns (count: nat)
    requires iter.Valid() && forall i :: 0 <= i < |iter.start| ==> iter.start[i].tag != 0
    modifies iter
    ensures iter.Valid() && count == RequiredBefore(iter.start, |iter.start|)
  {
    var lastRequired, more := true, true;
    count := 0;
    while more
      invariant iter.Valid()
      invariant !more && iter.start != [] ==>
                  && count == RequiredBefore(iter.start, |iter.start| - 1)
                  && lastRequired == iter.start[|iter.start| - 1].htype.Required?
      invariant iter.start == [] ==> count == 0
      decreases more, |iter.start| - iter.pos
    {
      count := iter.requiredFieldIndex;
      lastRequired := |iter.start| == 0 || iter.start[iter.pos].htype.Required?;
      more := iter.Next();
    }
    if lastRequired && iter.CurrentTag() != 0 {
      count := count + 1;
    }
  }

  // ----- Arrays without a count -----

  /** `fixed_count_field` and `fixed_count_size`: the array without a count met last, and how much of it is stored. */
  datatype FixedCursor = FixedCursor(field: Option<nat>, size: nat)

  ghost predicate Tracks(fields: seq<Field>, slots: seq<Slot>, seen: Progress, c: FixedCursor) {
    && c.field == seen.fixed
    && (c.field.Some? ==>
          c.field.value < |fields| && FixedCount(fields[c.field.value]) && c.size == |Items(Get(slots, c.field.value))|)
  }

  /** Whether the array without a count that was met last has all its entries. */
  method CheckFixedCount(fields: seq<Field>, c: FixedCursor, ghost slots: seq<Slot>, ghost seen: Progress) returns (ok: bool)
    requires Tracks(fields, slots, seen, c)
    ensures ok == FixedFull(fields, slots, seen)
  {
    if c.field.Some? { HomeIdempotent(fields, c.field.value); }
    ok := c.field.None? || c.size == fields[c.field.value].arraySize;
  }

  /** Meeting the field at `i`, where `unsized` says that it is an array without a count. */
  method BeginFixedCount(fields: seq<Field>, i: nat, unsized: bool, c: FixedCursor, slots: seq<Slot>, ghost seen: Progress)
    returns (ok: bool, c': FixedCursor, current: Slot)
    requires Tracks(fields, slots, seen, c) && i < |fields| && unsized == FixedCount(fields[i])
    ensures ok == MayBegin(fields, slots, seen, i)
    ensures ok ==> current == Current(fields, slots, seen, i) && c'.field == See(fields, seen, i).fixed
    ensures ok && !unsized ==> c' == c
  {
    ok, c', current := true, c, Get(slots, Home(fields, i));
    if unsized {
      if c.field != Some(i) {
        ok := CheckFixedCount(fields, c, slots, seen);
        if !ok {
          return;
        }
        c', current := FixedCursor(Some(i), 0), Rep([]);
      }
    }
  }

  /** Storing another field leaves the array without a count as it was. */
  lemma StillTracks(fields: seq<Field>, slots: seq<Slot>, seen: Progress, c: FixedCursor, i: nat, s: Slot)
    requires Tracks(fields, slots, seen, c) && i < |fields| && !FixedCount(fields[i])
    ensures Tracks(fields, Put(slots, Home(fields, i), s), See(fields, seen, i), c)
  {
    if c.field.Some? {
      var j := c.field.value;
      HomeIdempotent(fields, j);
      if i != j && Home(fields, i) == j { HomeShared(fields, if i < j then i else j, if i < j then j else i); }
    }
  }

  /** One round of the field loop of `pb_decode_noinit`. */
  method DecodeRound(s: IStream, fields: seq<Field>, iter: FieldIter, fieldsSeen: array<nat>, fixed: FixedCursor, dest: seq<Slot>, ghost seen: Progress)
    returns (ok: bool, ended: bool, fixed': FixedCursor, slots: seq<Slot>)
    requires s.Valid() && s.bytesLeft > 0 && ValidSchema(fields)
    requires iter.Valid() && iter.start == fields
    requires fieldsSeen.Length == 2 && (fields != [] ==> Holds(fieldsSeen[..], fields, seen.required))
    requires Tracks(fields, dest, seen, fixed)
    modifies s, iter, fieldsSeen
    ensures s.Valid() && s.End() <= old(s.End()) && iter.Valid()
    ensures match LoopRound(fields, dest, seen, old(s.Remaining()))
            case RoundFail => !ok
            case RoundEnd(rest) => ok && ended && slots == dest && s.Left(old(s.End()), rest) &&
                                   fieldsSeen[..] == old(fieldsSeen[..]) && fixed' == fixed
            case Next(slots', seen', rest) => ok && !ended && slots == slots' && s.Left(old(s.End()), rest) &&
                                              (fields != [] ==> Holds(fieldsSeen[..], fields, seen'.required)) &&
                                              Tracks(fields, slots', seen', fixed')
    decreases s.bytesLeft, 4
  {
    hide DecTag, DecField, Schema.Find, Holds, ValidSchema, MayBegin, Current, Tracks;
    slots, ended, fixed' := dest, false, fixed;
    var wireType, tag;
    ok, wireType, tag, ended := DecodeTag(s);
    if !ok {
      ok := ended;
      return;
    }
    ended := false;
    var found := iter.Find(tag);
    if !found {
      NotFound(fields, tag);
      ok := SkipUnknown(s, wireType);
      return;
    }
    if |fields| == 0 {
      var value;
      ok, value := DecodeVarint32(s);
      return;
    }
    SchemaFields(fields, iter.pos);
    FindIsLookup(fields, tag, iter.pos);
    ok, fixed', slots := DecodeFound(s, fields, iter, wireType, fieldsSeen, fixed, dest, seen);
  }

  /**
    The field under the cursor, once its tag has been found. In C the entries of an array without a count
    are counted in `fixed_count_size`, through the size pointer of the cursor; here they are counted by the length of
    the slot, which grows with each entry just as that counter does, and the size is read back from it.
   */
  method DecodeFound(s: IStream, fields: seq<Field>, iter: FieldIter, wireType: nat, fieldsSeen: array<nat>, fixed: FixedCursor, dest: seq<Slot>, ghost seen: Progress)
    returns (ok: bool, fixed': FixedCursor, slots: seq<Slot>)
    requires s.Valid() && ValidSchema(fields)
    requires iter.Valid() && iter.start == fields && fields != []
    requires fieldsSeen.Length == 2 && Holds(fieldsSeen[..], fields, seen.required)
    requires Tracks(fields, dest, seen, fixed)
    modifies s, fieldsSeen
    ensures s.Valid() && s.End() <= old(s.End())
    ensures var i := iter.pos;
            var d := DecField(fields[i], wireType, Current(fields, dest, seen, i), old(s.Remaining()));
            && ok == (MayBegin(fields, dest, seen, i) && d.Done?)
            && (ok ==>
                  && slots == Put(dest, Home(fields, i), d.value) && s.Left(old(s.End()), d.rest)
                  && Holds(fieldsSeen[..], fields, See(fields, seen, i).required)
                  && Tracks(fields, slots, See(fields, seen, i), fixed'))
    decreases s.bytesLeft, 4
  {
    hide DecField, Holds, ValidSchema, MayBegin, Current, RequiredBefore;
    slots, fixed' := dest, fixed;
    var i := iter.pos;
    SchemaFields(fields, i);
    HomeIdempotent(fields, i);
    var unsized := fields[i].htype.Repeated? && iter.pSize == iter.pData;
    var current;
    ok, fixed', current := BeginFixedCount(fields, i, unsized, fixed, dest, seen);
    if !ok {
      return;
    }
    MarkRequired(fieldsSeen, fields, i, iter.requiredFieldIndex, seen);
    var slot;
    ok, slot := DecodeStaticField(s, fields[i], wireType, current);
    slots := Put(slots, Home(fields, i), slot);
    if unsized {
      fixed' := fixed'.(size := |Items(Get(slots, i))|);
    } else {
      StillTracks(fields, dest, seen, fixed, i, slot);
    }
  }

  lemma SchemaFields(fields: seq<Field>, i: nat)
    requires ValidSchema(fields) && i < |fields|
    ensures DistinctTags(fields) && ValidField(fields[i]) && fields[i].tag != 0
  {
    assert ValidField(fields[i]);
  }

  /** `pb_decode_noinit`. */
  method DecodeNoinit(s: IStream, fields: seq<Field>, dest: seq<Slot>) returns (ok: bool, slots: seq<Slot>)
    requires s.Valid() && ValidSchema(fields)
    modifies s
    ensures s.Valid() && s.End() <= old(s.End())
    ensures var d := DecNoinit(fields, dest, old(s.Remaining()));
            ok == d.Done? && (ok ==> slots == d.value && s.Left(old(s.End()), d.rest))
    decreases s.bytesLeft, 5
  {
    hide LoopRound, AllRequiredSeen, FixedFull, Holds, ValidSchema, Tracks;
    var fieldsSeen := new nat[2](_ => 0);
    var iter := new FieldIter(fields, 0);
    var fixed := FixedCursor(None, 0);
    ghost var start, seen := s.Remaining(), UNSEEN;
    NothingSeen(fieldsSeen[..], fields, dest, fixed);
    slots := dest;
    while s.bytesLeft != 0
      invariant fresh(fieldsSeen) && fresh(iter) && iter.Valid() && iter.start == fields
      invariant fieldsSeen.Length == 2 && (fields != [] ==> Holds(fieldsSeen[..], fields, seen.required))
      invariant Tracks(fields, slots, seen, fixed)
      invariant s.Valid() && s.End() == old(s.End()) && s.bytesLeft <= old(s.bytesLeft)
      invariant DecLoop(fields, dest, UNSEEN, start) == DecLoop(fields, slots, seen, s.Remaining())
      decreases s.bytesLeft
    {
      LoopUnfold(fields, slots, seen, s.Remaining());
      ghost var round := LoopRound(fields, slots, seen, s.Remaining());
      hide DecLoop;
      var ended;
      ok, ended, fixed, slots := DecodeRound(s, fields, iter, fieldsSeen, fixed, slots, seen);
      if !ok {
        return;
      }
      if ended {
        break;
      }
      seen := round.seen;
    }
    ok := CheckFixedCount(fields, fixed, slots, seen);
    if !ok {
      return;
    }
    forall i | 0 <= i < |fields| ensures fields[i].tag != 0 { SchemaFields(fields, i); }
    ok := CheckRequired(fieldsSeen, iter, seen.required);
  }

  lemma NotFound(fields: seq<Field>, tag: nat)
    requires forall i :: 0 <= i < |fields| ==> fields[i].tag != tag
    ensures Schema.Find(fields, tag).None?
  {
  }

  lemma NothingSeen(words: seq<nat>, fields: seq<Field>, slots: seq<Slot>, c: FixedCursor)
    requires words == [0, 0] && c.field.None?
    ensures Holds(words, fields, {}) && Tracks(fields, slots, UNSEEN, c)
  {
    forall w | 0 <= w < 2 ensures WordOf(SeenBits(fields, {}, w)) == 0 {
      var bits := SeenBits(fields, {}, w);
      forall j | 0 <= j < 32 ensures !bits[j] {
        assert !SeenBit(fields, {}, 32 * w + j);
      }
      NoBits(bits);
    }
  }

  lemma {:induction false} NoBits(bits: seq<bool>)
    requires forall j :: 0 <= j < |bits| ==> !bits[j]
    ensures WordOf(bits) == 0
  {
    if bits != [] { NoBits(bits[1..]); }
  }

  /** `pb_decode`. */
  method Decode(s: IStream, fields: seq<Field>) returns (ok: bool, slots: seq<Slot>)
    requires s.Valid() && ValidSchema(fields)
    modifies s
    ensures s.Valid() && s.End() <= old(s.End())
    ensures var d := DecMessage(fields, old(s.Remaining()));
            ok == d.Done? && (ok ==> slots == d.value && s.Left(old(s.End()), d.rest))
    decreases s.bytesLeft, 6
  {
    var initial := SetToDefaults(fields);
    ok, slots := DecodeNoinit(s, fields, initial);
  }

  /**
    `pb_decode_delimited`: on success the stream stands exactly past the announced length, whatever the
    message's own decoder consumed of it.
   */
  method DecodeDelimited(s: IStream, fields: seq<Field>) returns (ok: bool, slots: seq<Slot>)
    requires s.Valid() && ValidSchema(fields)
    modifies s
    ensures s.Valid() && s.End() <= old(s.End())
    ensures var d := Substream(old(s.Remaining()));
            var m := if d.Done? then DecMessage(fields, d.value) else Fail;
            ok == m.Done? && (ok ==> slots == m.value && s.Left(old(s.End()), d.rest))
  {
    slots := [];
    var substream;
    ok, substream := MakeSubstream(s);
    if !ok {
      return;
    }
    var status;
    status, slots := Decode(substream, fields);
    ok := CloseSubstream(s, substream);
    ok := status;
  }
}

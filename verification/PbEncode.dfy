/**
  The encoder of pb_encode.c on streams. Each method is proved to emit exactly what the functions of the
  module Encoding say; sizing and writing are the same code on two kinds of stream.
 */
module PbEncode {
  import opened Bits
  import opened Wire
  import opened Scalars
  import opened Schema
  import opened Encoding
  import opened OutputStream
  import opened FieldCursor

  // ----- Messages whose sizes a size_t can hold -----

  /** The value lies in memory as the field describes, and every length computed from it is below 2^64. */
  ghost predicate InMemory(f: Field, v: Value)
    decreases f, 0
  {
    && f.dataSize <= PB_SIZE_MAX && f.arraySize <= PB_SIZE_MAX && f.tag <= PB_SIZE_MAX
    && (f.ltype.FixedLengthBytes? ==> |AsBytes(v)| == f.dataSize)
    && (f.ltype.Submessage? ==>
          MessageInMemory(f.ltype.fields, AsSlots(v)) && |EncMessage(f.ltype.fields, AsSlots(v)).bytes| < U64)
  }

  ghost predicate SlotInMemory(f: Field, s: Slot)
    decreases f, 1
  {
    if f.htype.Repeated? then
      && (f.sizeOffset == 0 ==> |Items(s)| == f.arraySize) && f.arraySize <= PB_SIZE_MAX && f.tag <= PB_SIZE_MAX
      && (Packable(f.ltype) ==> |EncItems(f, Items(s)).bytes| < U64)
      && forall k :: 0 <= k < |Items(s)| ==> InMemory(f, Items(s)[k])
    else IsPresent(f, s) ==> InMemory(f, ValueOf(s))
  }

  ghost predicate MessageInMemory(fields: seq<Field>, slots: seq<Slot>)
    decreases fields
  {
    forall i :: 0 <= i < |fields| ==> SlotInMemory(fields[i], Get(slots, Home(fields, i)))
  }

  // ----- Helper functions -----

  method EncodeVarint(s: OStream, v: nat) returns (ok: bool)
    requires s.Valid() && v < U64
    modifies s, s.dest
    ensures s.Sent(old(s.Abs()), Emit(EncVarint(v)), ok)
  {
    if v <= 0x7F {
      ok := s.Write([v]);
      return;
    }
    var buffer := new byte[10](_ => 0);
    var i := FillVarint(buffer, v);
    ok := s.Write(buffer[..i]);
  }

  /** The loop of `pb_encode_varint`: seven bits a byte, and the top bit cleared on the last. */
  method FillVarint(buffer: array<byte>, v: nat) returns (i: nat)
    requires buffer.Length == 10 && 0 < v < U64
    modifies buffer
    ensures i <= 10 && buffer[..i] == EncVarint(v)
  {
    hide EncVarint;
    i := 0;
    var value: nat := v;
    EncVarintLength64(v);
    while value != 0
      invariant i <= 10
      invariant value > 0 ==> EncVarint(v) == buffer[..i] + EncVarint(value)
      invariant value == 0 ==> i > 0 && buffer[i - 1] >= 128
      invariant value == 0 ==> EncVarint(v) == buffer[..i - 1] + [buffer[i - 1] - 128]
      decreases value
    {
      EncVarintRound(value, buffer[..i]);
      ghost var before := buffer[..i];
      buffer[i] := value % 128 + 128;
      assert buffer[..i] == before && buffer[..i + 1] == before + [value % 128 + 128];
      value := value / 128;
      i := i + 1;
    }
    buffer[i - 1] := buffer[i - 1] - 128;
    assert buffer[..i] == EncVarint(v);
  }

  lemma EncVarintRound(value: nat, before: seq<byte>)
    requires value > 0
    ensures EncVarint(value) != []
    ensures value >= 128 ==>
              value / 128 > 0 &&
              before + EncVarint(value) == before + [value % 128 + 128] + EncVarint(value / 128)
    ensures value < 128 ==> value / 128 == 0 && EncVarint(value) == [value % 128]
  {
    if value >= 128 {
      assert EncVarint(value) == [value % 128 + 128] + EncVarint(value / 128);
      hide EncVarint;
      assert before + ([value % 128 + 128] + EncVarint(value / 128)) ==
             before + [value % 128 + 128] + EncVarint(value / 128);
    }
  }

  method EncodeSvarint(s: OStream, n: int) returns (ok: bool)
    requires s.Valid()
    modifies s, s.dest
    ensures s.Sent(old(s.Abs()), Emit(EncVarint(ZigZag(n))), ok)
  {
    var zigzagged;
    if n < 0 {
      zigzagged := 0xFFFF_FFFF_FFFF_FFFF - Low64(2 * Low64(n));
    } else {
      zigzagged := Low64(2 * n);
    }
    ok := EncodeVarint(s, zigzagged);
  }

  method EncodeFixed32(s: OStream, n: nat) returns (ok: bool)
    requires s.Valid() && n < U32
    modifies s, s.dest
    ensures s.Sent(old(s.Abs()), Emit(LittleEndian(n, 4)), ok)
  {
    var bytes: seq<byte> := [n % 256, n / 0x100 % 256, n / 0x1_0000 % 256, n / 0x100_0000 % 256];
    FourBytes(n);
    ok := s.Write(bytes);
  }

  method EncodeFixed64(s: OStream, n: nat) returns (ok: bool)
    requires s.Valid() && n < U64
    modifies s, s.dest
    ensures s.Sent(old(s.Abs()), Emit(LittleEndian(n, 8)), ok)
  {
    var low: seq<byte> := [n % 256, n / 0x100 % 256, n / 0x1_0000 % 256, n / 0x100_0000 % 256];
    var h := n / 0x1_0000_0000;
    var high: seq<byte> := [h % 256, h / 0x100 % 256, h / 0x1_0000 % 256, h / 0x100_0000 % 256];
    EightBytes(n);
    ok := s.Write(low + high);
  }

  lemma FourBytes(n: nat)
    ensures LittleEndian(n, 4) == [n % 256, n / 0x100 % 256, n / 0x1_0000 % 256, n / 0x100_0000 % 256]
  {
    LittleEndianStep(n, 3);
    LittleEndianStep(n / 0x100, 2);
    LittleEndianStep(n / 0x1_0000, 1);
    LittleEndianStep(n / 0x100_0000, 0);
    assert n / 0x100 / 0x100 == n / 0x1_0000 && n / 0x1_0000 / 0x100 == n / 0x100_0000;
    assert LittleEndian(n / 0x1_0000_0000, 0) == [];
    hide LittleEndian;
  }

  lemma LittleEndianStep(n: nat, k: nat)
    ensures LittleEndian(n, k + 1) == [n % 256] + LittleEndian(n / 256, k)
  {
  }

  lemma ByteShifts(n: nat)
    ensures n / 0x100 / 0x100 == n / 0x1_0000
    ensures n / 0x1_0000 / 0x100 == n / 0x100_0000
    ensures n / 0x100_0000 / 0x100 == n / 0x1_0000_0000
  {
  }

  lemma {:induction false} LittleEndianSplit(n: nat, k: nat)
    ensures LittleEndian(n, k + 4) ==
            [n % 256, n / 0x100 % 256, n / 0x1_0000 % 256, n / 0x100_0000 % 256] + LittleEndian(n / 0x1_0000_0000, k)
  {
    hide LittleEndian;
    ByteShifts(n);
    LittleEndianStep(n, k + 3);
    LittleEndianStep(n / 0x100, k + 2);
    LittleEndianStep(n / 0x1_0000, k + 1);
    LittleEndianStep(n / 0x100_0000, k);
  }

  lemma EightBytes(n: nat)
    ensures var h := n / 0x1_0000_0000;
            LittleEndian(n, 8) == [n % 256, n / 0x100 % 256, n / 0x1_0000 % 256, n / 0x100_0000 % 256] +
                                  [h % 256, h / 0x100 % 256, h / 0x1_0000 % 256, h / 0x100_0000 % 256]
  {
    var k := 4;
    LittleEndianSplit(n, k);
    FourBytes(n / 0x1_0000_0000);
  }

  method EncodeTag(s: OStream, wireType: nat, tag: nat) returns (ok: bool)
    requires s.Valid() && wireType < 8 && tag <= PB_SIZE_MAX
    modifies s, s.dest
    ensures s.Sent(old(s.Abs()), Emit(EncTag(wireType, tag)), ok)
  {
    ok := EncodeVarint(s, tag * 8 + wireType);
  }

  method EncodeTagForField(s: OStream, f: Field) returns (ok: bool)
    requires s.Valid() && f.tag <= PB_SIZE_MAX
    modifies s, s.dest
    ensures s.Sent(old(s.Abs()), Emit(FieldTag(f)), ok)
  {
    var wireType;
    match f.ltype {
      case Bool | Varint | Uvarint | Svarint => wireType := WT_VARINT;
      case Fixed32 => wireType := WT_32BIT;
      case Fixed64 => wireType := WT_64BIT;
      case Bytes | String | Submessage(_) | FixedLengthBytes => wireType := WT_STRING;
    }
    ok := EncodeTag(s, wireType, f.tag);
  }

  method EncodeString(s: OStream, data: seq<byte>) returns (ok: bool)
    requires s.Valid() && |data| < U64
    modifies s, s.dest
    ensures s.Sent(old(s.Abs()), Emit(EncString(data)), ok)
  {
    ghost var s0 := s.Abs();
    ok := EncodeVarint(s, |data|);
    ghost var s1 := s.Abs();
    ghost var length := Emit(EncVarint(|data|));
    if !ok {
      EmittedFails(s.sizing, s.maxSize, s0, length, s1, Emit(data));
      return false;
    }
    ok := s.Write(data);
    EmittedThen(s.sizing, s.maxSize, s0, length, s1, Emit(data), s.Abs(), ok);
  }

  // ----- Field encoders -----

  method EncBool(s: OStream, v: Value) returns (ok: bool)
    requires s.Valid()
    modifies s, s.dest
    ensures s.Sent(old(s.Abs()), Emit(EncVarint(if AsBool(v) then 1 else 0)), ok)
  {
    ok := EncodeVarint(s, if AsBool(v) then 1 else 0);
  }

  /** `pb_enc_varint` and `pb_enc_uvarint`: the value converted to `uint64_t`. */
  method EncInteger(s: OStream, f: Field, v: Value) returns (ok: bool)
    requires s.Valid() && (f.ltype.Varint? || f.ltype.Uvarint?)
    modifies s, s.dest
    ensures s.Sent(old(s.Abs()), EncValue(f, v), ok)
  {
    if !IsWidth(f.dataSize) {
      EmittedNothing(s.sizing, s.maxSize, s.Abs(), false);
      return false;
    }
    ok := EncodeVarint(s, Low64(AsInt(v)));
  }

  method EncSvarint(s: OStream, f: Field, v: Value) returns (ok: bool)
    requires s.Valid() && f.ltype.Svarint?
    modifies s, s.dest
    ensures s.Sent(old(s.Abs()), EncValue(f, v), ok)
  {
    if !IsWidth(f.dataSize) {
      EmittedNothing(s.sizing, s.maxSize, s.Abs(), false);
      return false;
    }
    ok := EncodeSvarint(s, AsInt(v));
  }

  method EncBytes(s: OStream, f: Field, v: Value) returns (ok: bool)
    requires s.Valid() && f.ltype.Bytes? && f.dataSize <= PB_SIZE_MAX
    modifies s, s.dest
    ensures s.Sent(old(s.Abs()), EncValue(f, v), ok)
  {
    var allocsize := |AsBytes(v)| + BYTES_OFFSET;
    if allocsize > f.dataSize {
      EmittedNothing(s.sizing, s.maxSize, s.Abs(), false);
      return false;
    }
    ok := EncodeString(s, AsBytes(v));
  }

  /** `pb_enc_string`: the loop stands in for `strnlen`. */
  method EncStringField(s: OStream, f: Field, v: Value) returns (ok: bool)
    requires s.Valid() && f.ltype.String? && f.dataSize <= PB_SIZE_MAX
    modifies s, s.dest
    ensures s.Sent(old(s.Abs()), EncValue(f, v), ok)
  {
    var p, size := AsBytes(v), 0;
    ghost var whole := if |p| <= f.dataSize then p else p[..f.dataSize];
    while size < f.dataSize && size < |p| && p[size] != 0
      invariant size <= |whole| && whole[..size] == p[..size]
      invariant StringLength(whole, 0) == StringLength(whole, size)
    {
      size := size + 1;
    }
    ok := EncodeString(s, p[..size]);
  }

  method EncSubmessage(s: OStream, f: Field, v: Value) returns (ok: bool)
    requires s.Valid() && f.ltype.Submessage? && InMemory(f, v)
    modifies s, s.dest
    ensures s.Sent(old(s.Abs()), EncValue(f, v), ok)
    decreases f, 0
  {
    ok := EncodeSubmessage(s, f.ltype.fields, AsSlots(v));
  }

  /** Dispatch through `PB_ENCODERS`. */
  method EncodeElement(s: OStream, f: Field, v: Value) returns (ok: bool)
    requires s.Valid() && InMemory(f, v)
    modifies s, s.dest
    ensures s.Sent(old(s.Abs()), EncValue(f, v), ok)
    decreases f, 1
  {
    match f.ltype {
      case Bool => ok := EncBool(s, v);
      case Varint | Uvarint => ok := EncInteger(s, f, v);
      case Svarint => ok := EncSvarint(s, f, v);
      case Fixed32 => ok := EncodeFixed32(s, ToUnsigned(AsInt(v), 4));
      case Fixed64 => ok := EncodeFixed64(s, ToUnsigned(AsInt(v), 8));
      case Bytes => ok := EncBytes(s, f, v);
      case String => ok := EncStringField(s, f, v);
      case Submessage(_) => ok := EncSubmessage(s, f, v);
      case FixedLengthBytes => ok := EncodeString(s, AsBytes(v));
    }
  }

  /** A submessage is encoded twice: once to learn its size, once, on a substream of that size, for real. */
  method EncodeSubmessage(s: OStream, fields: seq<Field>, slots: seq<Slot>) returns (ok: bool)
    requires s.Valid() && MessageInMemory(fields, slots) && |EncMessage(fields, slots).bytes| < U64
    modifies s, s.dest
    ensures var e := EncMessage(fields, slots);
            s.Sent(old(s.Abs()), if e.ok then Emit(EncString(e.bytes)) else ERROR, ok)
    decreases fields, 11
  {
    ghost var e := EncMessage(fields, slots);
    ghost var s0 := s.Abs();
    var size;
    ok, size := SizeOf(fields, slots);
    assert s.Abs() == s0;
    if !ok {
      EmittedNothing(s.sizing, s.maxSize, s0, false);
      return false;
    }
    ok := EncodeVarint(s, size);
    ghost var s1 := s.Abs();
    ghost var length := Emit(EncVarint(size));
    if !ok {
      EmittedFails(s.sizing, s.maxSize, s0, length, s1, e);
      return false;
    }
    if s.sizing {
      ok := s.WriteSize(size, e.bytes);
      EmittedThen(true, s.maxSize, s0, length, s1, e, s.Abs(), ok);
      return;
    }
    ok := WriteSubmessage(s, fields, slots, size);
    EmittedThen(false, s.maxSize, s0, length, s1, e, s.Abs(), ok);
  }

  /** The second pass, on a substream that shares the buffer and is limited to the announced size. */
  method WriteSubmessage(s: OStream, fields: seq<Field>, slots: seq<Slot>, size: nat) returns (ok: bool)
    requires s.Valid() && !s.sizing && MessageInMemory(fields, slots)
    requires EncMessage(fields, slots).ok && size == |EncMessage(fields, slots).bytes|
    modifies s, s.dest
    ensures s.Sent(old(s.Abs()), EncMessage(fields, slots), ok)
    decreases fields, 10
  {
    hide EncMessage, MessageInMemory;
    if s.bytesWritten + size > s.maxSize {
      NoRoom(s.maxSize, s.Abs(), EncMessage(fields, slots));
      return false;
    }
    var substream := new OStream.FromBuffer(s.dest, s.state, size);
    var status := Encode(substream, fields, slots);
    s.bytesWritten := s.bytesWritten + substream.bytesWritten;
    s.state := substream.state;
    if substream.bytesWritten != size {
      assert false;
    }
    return status;
  }

  lemma NoRoom(maxSize: nat, s: OState, e: Enc)
    requires s.written <= maxSize < s.written + |e.bytes| && s.state <= |s.mem|
    ensures Emitted(false, maxSize, s, e, s, false)
  {
    assert s.mem == s.mem[..s.state] + e.bytes[..0] + s.mem[s.state..];
  }

  /** `pb_get_encoded_size`. */
  method SizeOf(fields: seq<Field>, slots: seq<Slot>) returns (ok: bool, size: nat)
    requires MessageInMemory(fields, slots)
    ensures ok == EncMessage(fields, slots).ok
    ensures ok ==> size == |EncMessage(fields, slots).bytes|
    decreases fields, 10
  {
    var stream := new OStream.Sizing();
    ok := Encode(stream, fields, slots);
    size := stream.bytesWritten;
  }

  /** The size of a packed array; a sizing stream where entries vary in width. */
  method PackedSize(f: Field, items: seq<Value>) returns (ok: bool, size: nat)
    requires Packable(f.ltype) && forall k :: 0 <= k < |items| ==> InMemory(f, items[k])
    ensures ok == EncItems(f, items).ok
    ensures ok ==> size == |EncItems(f, items).bytes|
    decreases f, 2
  {
    if f.ltype.Fixed32? {
      FixedItemsSize(f, items);
      return true, 4 * |items|;
    }
    if f.ltype.Fixed64? {
      FixedItemsSize(f, items);
      return true, 8 * |items|;
    }
    var sizestream := new OStream.Sizing();
    assert items[0..] == items;
    for i := 0 to |items|
      invariant fresh(sizestream) && fresh(sizestream.dest) && sizestream.Valid() && sizestream.sizing
      invariant EncItems(f, items).ok == EncItems(f, items[i..]).ok
      invariant sizestream.bytesWritten + |EncItems(f, items[i..]).bytes| == |EncItems(f, items).bytes|
    {
      assert items[i..][0] == items[i] && items[i..][1..] == items[i + 1..];
      var ok := EncodeElement(sizestream, f, items[i]);
      if !ok {
        return false, 0;
      }
    }
    return true, sizestream.bytesWritten;
  }

  /** The entries of a packed array, one after another. */
  method WriteItems(s: OStream, f: Field, items: seq<Value>) returns (ok: bool)
    requires s.Valid() && forall k :: 0 <= k < |items| ==> InMemory(f, items[k])
    modifies s, s.dest
    ensures s.Sent(old(s.Abs()), EncItems(f, items), ok)
    decreases f, 2
  {
    hide EncItems, EncValue, InMemory, Emitted, Then;
    ghost var s0, done := s.Abs(), EMPTY;
    EmittedNothing(s.sizing, s.maxSize, s0, true);
    ItemsFrom(f, items);
    for i := 0 to |items|
      invariant s.Sent(s0, done, true)
      invariant Then(done, EncItems(f, items[i..])) == EncItems(f, items)
    {
      ghost var s1, e, rest := s.Abs(), EncValue(f, items[i]), EncItems(f, items[i + 1..]);
      ItemsStep(f, items, i, done);
      ok := EncodeElement(s, f, items[i]);
      EmittedThen(s.sizing, s.maxSize, s0, done, s1, e, s.Abs(), ok);
      done := Then(done, e);
      if !ok {
        EmittedFails(s.sizing, s.maxSize, s0, done, s.Abs(), rest);
        return false;
      }
    }
    ItemsEnd(f, items, done);
    ok := true;
  }

  lemma ItemsFrom(f: Field, items: seq<Value>)
    ensures Then(EMPTY, EncItems(f, items[0..])) == EncItems(f, items)
    ensures Then(EMPTY, EncTagged(f, items[0..])) == EncTagged(f, items)
  {
    assert items[0..] == items;
    assert [] + EncItems(f, items).bytes == EncItems(f, items).bytes;
    assert [] + EncTagged(f, items).bytes == EncTagged(f, items).bytes;
  }

  lemma ItemsStep(f: Field, items: seq<Value>, i: nat, done: Enc)
    requires i < |items|
    ensures Then(done, EncItems(f, items[i..])) == Then(Then(done, EncValue(f, items[i])), EncItems(f, items[i + 1..]))
  {
    hide EncValue;
    assert items[i..][0] == items[i] && items[i..][1..] == items[i + 1..];
    ThenAssociative(done, EncValue(f, items[i]), EncItems(f, items[i + 1..]));
  }

  lemma ItemsEnd(f: Field, items: seq<Value>, done: Enc)
    ensures Then(done, EncItems(f, items[|items|..])) == done == Then(done, EncTagged(f, items[|items|..]))
  {
    assert items[|items|..] == [];
    ThenEmpty(done);
  }

  lemma TaggedStep(f: Field, items: seq<Value>, i: nat, done: Enc)
    requires i < |items|
    ensures Then(done, EncTagged(f, items[i..])) ==
            Then(Then(done, Then(Emit(FieldTag(f)), EncValue(f, items[i]))), EncTagged(f, items[i + 1..]))
  {
    hide EncValue, EncTag;
    assert items[i..][0] == items[i] && items[i..][1..] == items[i + 1..];
    var rest := EncTagged(f, items[i + 1..]);
    assert EncTagged(f, items[i..]) == Then(Emit(FieldTag(f)), Then(EncValue(f, items[i]), rest));
    hide EncTagged, Then;
    ThenAssociative(Emit(FieldTag(f)), EncValue(f, items[i]), rest);
    ThenAssociative(done, Then(Emit(FieldTag(f)), EncValue(f, items[i])), rest);
  }

  /** The entries of an array, each with its tag. */
  method WriteTagged(s: OStream, f: Field, items: seq<Value>) returns (ok: bool)
    requires s.Valid() && f.tag <= PB_SIZE_MAX && forall k :: 0 <= k < |items| ==> InMemory(f, items[k])
    modifies s, s.dest
    ensures s.Sent(old(s.Abs()), EncTagged(f, items), ok)
    decreases f, 3
  {
    hide EncTagged, EncItems, EncValue, FieldTag, InMemory, Emitted, Then;
    ghost var s0, done := s.Abs(), EMPTY;
    EmittedNothing(s.sizing, s.maxSize, s0, true);
    ItemsFrom(f, items);
    for i := 0 to |items|
      invariant s.Sent(s0, done, true)
      invariant Then(done, EncTagged(f, items[i..])) == EncTagged(f, items)
    {
      ghost var s1, rest := s.Abs(), EncTagged(f, items[i + 1..]);
      ghost var e := Then(Emit(FieldTag(f)), EncValue(f, items[i]));
      TaggedStep(f, items, i, done);
      ok := WriteField(s, f, items[i]);
      EmittedThen(s.sizing, s.maxSize, s0, done, s1, e, s.Abs(), ok);
      done := Then(done, e);
      if !ok {
        EmittedFails(s.sizing, s.maxSize, s0, done, s.Abs(), rest);
        return false;
      }
    }
    ItemsEnd(f, items, done);
    ok := true;
  }

  /** A tag and a value. */
  method WriteField(s: OStream, f: Field, v: Value) returns (ok: bool)
    requires s.Valid() && InMemory(f, v)
    modifies s, s.dest
    ensures s.Sent(old(s.Abs()), Then(Emit(FieldTag(f)), EncValue(f, v)), ok)
    decreases f, 2
  {
    ghost var s0 := s.Abs();
    ok := EncodeTagForField(s, f);
    ghost var s1 := s.Abs();
    if !ok {
      EmittedFails(s.sizing, s.maxSize, s0, Emit(FieldTag(f)), s1, EncValue(f, v));
      return false;
    }
    ok := EncodeElement(s, f, v);
    EmittedThen(s.sizing, s.maxSize, s0, Emit(FieldTag(f)), s1, EncValue(f, v), s.Abs(), ok);
  }

  /** `encode_array`. */
  method EncodeArray(s: OStream, f: Field, items: seq<Value>) returns (ok: bool)
    requires s.Valid() && f.htype.Repeated? && SlotInMemory(f, Rep(items))
    modifies s, s.dest
    ensures s.Sent(old(s.Abs()), EncArray(f, items), ok)
    decreases f, 4
  {
    ghost var s0 := s.Abs();
    if |items| == 0 {
      EmittedNothing(s.sizing, s.maxSize, s0, true);
      return true;
    }
    if |items| > f.arraySize {
      EmittedNothing(s.sizing, s.maxSize, s0, false);
      return false;
    }
    hide EncItems, EncTagged, InMemory, Emitted;
    if Packable(f.ltype) {
      forall k | 0 <= k < |items| ensures InMemory(f, items[k]) { assert InMemory(f, Items(Rep(items))[k]); }
      ghost var body := EncItems(f, items);
      ghost var tag := Emit(EncTag(WT_STRING, f.tag));
      ghost var content := if body.ok then Emit(EncString(body.bytes)) else ERROR;
      ok := EncodeTag(s, WT_STRING, f.tag);
      ghost var s1 := s.Abs();
      if !ok {
        EmittedFails(s.sizing, s.maxSize, s0, tag, s1, content);
        return false;
      }
      ok := EncodePackedBody(s, f, items);
      EmittedThen(s.sizing, s.maxSize, s0, tag, s1, content, s.Abs(), ok);
    } else {
      forall k | 0 <= k < |items| ensures InMemory(f, items[k]) { assert InMemory(f, Items(Rep(items))[k]); }
      ok := WriteTagged(s, f, items);
    }
  }

  /** The length and the entries of a packed array. */
  method EncodePackedBody(s: OStream, f: Field, items: seq<Value>) returns (ok: bool)
    requires s.Valid() && Packable(f.ltype) && |EncItems(f, items).bytes| < U64
    requires forall k :: 0 <= k < |items| ==> InMemory(f, items[k])
    modifies s, s.dest
    ensures var body := EncItems(f, items);
            s.Sent(old(s.Abs()), if body.ok then Emit(EncString(body.bytes)) else ERROR, ok)
    decreases f, 3
  {
    ghost var s0, body := s.Abs(), EncItems(f, items);
    var size;
    ok, size := PackedSize(f, items);
    assert s.Abs() == s0;
    if !ok {
      EmittedNothing(s.sizing, s.maxSize, s0, false);
      return false;
    }
    ok := EncodeVarint(s, size);
    ghost var s1, length := s.Abs(), Emit(EncVarint(size));
    if !ok {
      EmittedFails(s.sizing, s.maxSize, s0, length, s1, body);
      return false;
    }
    if s.sizing {
      ok := s.WriteSize(size, body.bytes);
    } else {
      ok := WriteItems(s, f, items);
    }
    EmittedThen(s.sizing, s.maxSize, s0, length, s1, body, s.Abs(), ok);
  }

  /** `encode_basic_field`. */
  method EncodeBasicField(s: OStream, f: Field, slot: Slot) returns (ok: bool)
    requires s.Valid() && SlotInMemory(f, slot)
    modifies s, s.dest
    ensures s.Sent(old(s.Abs()), EncField(f, slot), ok)
    decreases f, 5
  {
    EmittedNothing(s.sizing, s.maxSize, s.Abs(), true);
    match f.htype {
      case Required =>
        ok := WriteField(s, f, ValueOf(slot));
      case Optional =>
        var has := if f.sizeOffset != 0 then HasFlag(slot) else !IsProto3Default(f, slot);
        if has {
          ok := WriteField(s, f, ValueOf(slot));
        } else {
          ok := true;
        }
      case Repeated =>
        var count := if f.sizeOffset != 0 then |Items(slot)| else f.arraySize;
        assert Items(slot)[..count] == Items(slot);
        ok := EncodeArray(s, f, Items(slot)[..count]);
      case Oneof =>
        if Which(slot) == f.tag {
          ok := WriteField(s, f, ValueOf(slot));
        } else {
          ok := true;
        }
    }
  }

  /** `pb_encode`. */
  method Encode(s: OStream, fields: seq<Field>, slots: seq<Slot>) returns (ok: bool)
    requires s.Valid() && MessageInMemory(fields, slots)
    modifies s, s.dest
    ensures s.Sent(old(s.Abs()), EncMessage(fields, slots), ok)
    decreases fields, 9
  {
    hide EncField, EncFrom, EncMessage, MessageInMemory, SlotInMemory, Home, DataAddress, SizeAddress, Emitted, Then, Get;
    hide Decoding.RequiredBefore;
    ghost var s0, done := s.Abs(), EMPTY;
    EmittedNothing(s.sizing, s.maxSize, s0, true);
    EncodeStarts(fields, slots);
    if |fields| == 0 {
      return true;
    }
    var iter := new FieldIter(fields, 0);
    var more := true;
    while more
      invariant fresh(iter) && iter.Valid() && iter.start == fields
      invariant s.Sent(s0, done, true)
      invariant Then(done, EncFrom(fields, slots, if more then iter.pos else |fields|)) == EncMessage(fields, slots)
      decreases |fields| - (if more then iter.pos else |fields|)
    {
      var i := iter.pos;
      FieldThenRest(fields, slots, i, done);
      ok := EncodeField(s, fields, slots, i, s0, done);
      if !ok {
        return false;
      }
      done := Then(done, EncField(fields[i], Get(slots, Home(fields, i))));
      more := iter.Next();
    }
    EncodeEnds(fields, slots, done);
    ok := true;
  }

  /** One field of the message, after the fields in `done`. */
  method EncodeField(s: OStream, fields: seq<Field>, slots: seq<Slot>, i: nat, ghost s0: OState, ghost done: Enc) returns (ok: bool)
    requires s.Valid() && MessageInMemory(fields, slots) && i < |fields|
    requires s.Sent(s0, done, true)
    requires Then(done, EncFrom(fields, slots, i)) == EncMessage(fields, slots)
    modifies s, s.dest
    ensures ok ==> s.Sent(s0, Then(done, EncField(fields[i], Get(slots, Home(fields, i)))), true)
    ensures !ok ==> s.Sent(s0, EncMessage(fields, slots), false)
    decreases fields, 8
  {
    ghost var s1, e, rest := s.Abs(), EncField(fields[i], Get(slots, Home(fields, i))), EncFrom(fields, slots, i + 1);
    FieldThenRest(fields, slots, i, done);
    hide EncField, EncFrom, EncMessage, MessageInMemory, SlotInMemory, Home, Emitted, Then, Get;
    ok := EncodeBasicField(s, fields[i], Get(slots, Home(fields, i)));
    EmittedThen(s.sizing, s.maxSize, s0, done, s1, e, s.Abs(), ok);
    if !ok {
      EmittedFails(s.sizing, s.maxSize, s0, Then(done, e), s.Abs(), rest);
    }
  }

  lemma FieldThenRest(fields: seq<Field>, slots: seq<Slot>, i: nat, done: Enc)
    requires i < |fields|
    ensures var e, rest := EncField(fields[i], Get(slots, Home(fields, i))), EncFrom(fields, slots, i + 1);
            Then(done, EncFrom(fields, slots, i)) == Then(Then(done, e), rest)
    ensures MessageInMemory(fields, slots) ==> SlotInMemory(fields[i], Get(slots, Home(fields, i)))
  {
    hide EncField, SlotInMemory;
    ThenAssociative(done, EncField(fields[i], Get(slots, Home(fields, i))), EncFrom(fields, slots, i + 1));
  }

  lemma EncodeStarts(fields: seq<Field>, slots: seq<Slot>)
    ensures Then(EMPTY, EncFrom(fields, slots, 0)) == EncMessage(fields, slots)
    ensures fields == [] ==> EncMessage(fields, slots) == EMPTY
  {
    assert [] + EncFrom(fields, slots, 0).bytes == EncFrom(fields, slots, 0).bytes;
  }

  lemma EncodeEnds(fields: seq<Field>, slots: seq<Slot>, done: Enc)
    ensures Then(done, EncFrom(fields, slots, |fields|)) == done
  {
    ThenEmpty(done);
  }

  lemma ThenEmpty(e: Enc)
    ensures Then(e, EMPTY) == e
  {
    assert e.bytes + [] == e.bytes;
  }

  /** `pb_encode_nullterminated`. */
  method EncodeNullTerminated(s: OStream, fields: seq<Field>, slots: seq<Slot>) returns (ok: bool)
    requires s.Valid() && MessageInMemory(fields, slots)
    modifies s, s.dest
    ensures s.Sent(old(s.Abs()), Then(EncMessage(fields, slots), Emit([0])), ok)
  {
    ghost var s0, e := s.Abs(), EncMessage(fields, slots);
    ok := Encode(s, fields, slots);
    ghost var s1 := s.Abs();
    if !ok {
      EmittedFails(s.sizing, s.maxSize, s0, e, s1, Emit([0]));
      return false;
    }
    ok := s.Write([0]);
    EmittedThen(s.sizing, s.maxSize, s0, e, s1, Emit([0]), s.Abs(), ok);
  }
}

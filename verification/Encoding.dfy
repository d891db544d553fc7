/**
  What pb_encode.c emits, as functions. An encoding is the bytes given to `pb_write` in order, up to the
  first error, and whether the end was reached.
 */
module Encoding {
  import opened Bits
  import opened Wire
  import opened Scalars
  import opened Schema

  datatype Enc = Enc(bytes: seq<byte>, ok: bool)

  const EMPTY: Enc := Enc([], true)
  const ERROR: Enc := Enc([], false)

  function Emit(bs: seq<byte>): Enc { Enc(bs, true) }

  /** One encoding after another; nothing follows an error. */
  function Then(a: Enc, b: Enc): Enc {
    if a.ok then Enc(a.bytes + b.bytes, b.ok) else a
  }

  /** The wire type of `pb_encode_tag_for_field`. */
  function WireType(l: LType): (w: nat)
    ensures w < 8
  {
    match l
    case Fixed32 => WT_32BIT
    case Fixed64 => WT_64BIT
    case Bytes | String | Submessage(_) | FixedLengthBytes => WT_STRING
    case _ => WT_VARINT
  }

  function FieldTag(f: Field): seq<byte> {
    EncTag(WireType(f.ltype), f.tag)
  }

  /** `pb_encode_string`. */
  function EncString(bs: seq<byte>): seq<byte> {
    EncVarint(|bs|) + bs
  }

  /** The length `pb_enc_string` finds: up to the terminator, or `data_size` without one. */
  function StringLength(bs: seq<byte>, n: nat): (len: nat)
    requires n <= |bs|
    ensures n <= len <= |bs|
    ensures forall i :: n <= i < len ==> bs[i] != 0
    ensures len == |bs| || bs[len] == 0
    decreases |bs| - n
  {
    if n == |bs| || bs[n] == 0 then n else StringLength(bs, n + 1)
  }

  /** The characters of the string in a `char[dataSize]` member. */
  function CString(bs: seq<byte>, dataSize: nat): seq<byte> {
    var s := if |bs| <= dataSize then bs else bs[..dataSize];
    s[..StringLength(s, 0)]
  }

  /** `PB_ENCODERS[LTYPE]`: one data item without its tag. */
  function EncValue(f: Field, v: Value): Enc
    decreases f, 0
  {
    match f.ltype
    case Bool => Emit(EncVarint(if AsBool(v) then 1 else 0))
    case Varint => if IsWidth(f.dataSize) then Emit(EncVarint(Low64(AsInt(v)))) else ERROR
    case Uvarint => if IsWidth(f.dataSize) then Emit(EncVarint(Low64(AsInt(v)))) else ERROR
    case Svarint => if IsWidth(f.dataSize) then Emit(EncVarint(ZigZag(AsInt(v)))) else ERROR
    case Fixed32 => Emit(LittleEndian(ToUnsigned(AsInt(v), 4), 4))
    case Fixed64 => Emit(LittleEndian(ToUnsigned(AsInt(v), 8), 8))
    case Bytes =>
      if |AsBytes(v)| + BYTES_OFFSET > f.dataSize then ERROR else Emit(EncString(AsBytes(v)))
    case String => Emit(EncString(CString(AsBytes(v), f.dataSize)))
    case Submessage(sub) =>
      var e := EncMessage(sub, AsSlots(v));
      if e.ok then Emit(EncString(e.bytes)) else ERROR
    case FixedLengthBytes => Emit(EncString(AsBytes(v)))
  }

  /** Array entries back to back, as inside a packed field. */
  function EncItems(f: Field, items: seq<Value>): Enc
    decreases f, 1, |items|
  {
    if items == [] then EMPTY else Then(EncValue(f, items[0]), EncItems(f, items[1..]))
  }

  /** Array entries each with its own tag. */
  function EncTagged(f: Field, items: seq<Value>): Enc
    decreases f, 1, |items|
  {
    if items == [] then EMPTY
    else Then(Emit(FieldTag(f)), Then(EncValue(f, items[0]), EncTagged(f, items[1..])))
  }

  /** `encode_array`. */
  function EncArray(f: Field, items: seq<Value>): Enc
    decreases f, 2
  {
    if items == [] then EMPTY
    else if |items| > f.arraySize then ERROR
    else if Packable(f.ltype) then
      var body := EncItems(f, items);
      Then(Emit(EncTag(WT_STRING, f.tag)), if body.ok then Emit(EncString(body.bytes)) else ERROR)
    else EncTagged(f, items)
  }

  /** `pb_check_proto3_default_value`. */
  predicate IsProto3Default(f: Field, s: Slot)
    decreases f, 0
  {
    match f.htype
    case Required => false
    case Repeated => f.sizeOffset != 0 && Items(s) == []
    case Oneof => Which(s) == 0
    case Optional =>
      if f.sizeOffset != 0 then !HasFlag(s)
      else
        match f.ltype
        case Bytes => AsBytes(ValueOf(s)) == []
        case String => AsBytes(ValueOf(s)) == [] || AsBytes(ValueOf(s))[0] == 0
        case FixedLengthBytes => f.dataSize == 0
        case Submessage(sub) =>
          forall i :: 0 <= i < |sub| ==> IsProto3Default(sub[i], Get(AsSlots(ValueOf(s)), Home(sub, i)))
        case Bool => !AsBool(ValueOf(s))
        case _ => AsInt(ValueOf(s)) == 0
  }

  /** Whether a field that is not an array is written. */
  predicate IsPresent(f: Field, s: Slot) {
    match f.htype
    case Required => true
    case Optional => if f.sizeOffset != 0 then HasFlag(s) else !IsProto3Default(f, s)
    case Repeated => false
    case Oneof => Which(s) == f.tag
  }

  /** `encode_basic_field`. */
  function EncField(f: Field, s: Slot): Enc
    decreases f, 3
  {
    if f.htype.Repeated? then
      EncArray(f, Items(s))
    else if IsPresent(f, s) then
      Then(Emit(FieldTag(f)), EncValue(f, ValueOf(s)))
    else
      EMPTY
  }

  /** The fields from position `i` on, in order. */
  function EncFrom(fields: seq<Field>, slots: seq<Slot>, i: nat): Enc
    requires i <= |fields|
    decreases fields, |fields| - i
  {
    if i == |fields| then EMPTY
    else Then(EncField(fields[i], Get(slots, Home(fields, i))), EncFrom(fields, slots, i + 1))
  }

  /** `pb_encode`. */
  function EncMessage(fields: seq<Field>, slots: seq<Slot>): Enc
    decreases fields, |fields| + 1
  {
    EncFrom(fields, slots, 0)
  }

  // ----- Algebra of encodings -----

  lemma ThenAssociative(a: Enc, b: Enc, c: Enc)
    ensures Then(Then(a, b), c) == Then(a, Then(b, c))
  {
    assert (a.bytes + b.bytes) + c.bytes == a.bytes + (b.bytes + c.bytes);
  }

  /** What an array costs per entry when entries have a fixed width. */
  lemma {:induction false} FixedItemsSize(f: Field, items: seq<Value>)
    requires f.ltype.Fixed32? || f.ltype.Fixed64?
    ensures EncItems(f, items).ok
    ensures |EncItems(f, items).bytes| == (if f.ltype.Fixed32? then 4 else 8) * |items|
  {
    if items != [] {
      FixedItemsSize(f, items[1..]);
    }
  }
}

/**
  Message descriptions (`pb_field_t` lists) and the values they describe.

  A message structure is a sequence of slots, one per field position; the fields of a union share the slot
  of the first of them. Statically allocated fields only, so descriptions are finite trees.
 */
module Schema {
  import opened Options
  import opened Bits
  import opened Scalars

  /** `pb_size_t` is 32 bits wide (PB_FIELD_32BIT). */
  const PB_SIZE_MAX: nat := 0xFFFF_FFFF

  /** Where the data of a `pb_bytes_array_t` starts: after its `pb_size_t` length. */
  const BYTES_OFFSET: nat := 4

  const PB_MAX_REQUIRED_FIELDS: nat := 64

  datatype LType =
    | Bool | Varint | Uvarint | Svarint | Fixed32 | Fixed64
    | Bytes | String | Submessage(fields: seq<Field>) | FixedLengthBytes

  datatype HType = Required | Optional | Repeated | Oneof

  /** `ptr` is split into the submessage's fields (in `ltype`) and the default value. */
  datatype Field = Field(
    tag: nat, htype: HType, ltype: LType,
    dataOffset: nat, sizeOffset: int, dataSize: nat, arraySize: nat,
    default: Option<Value>)

  /**
    The contents of one data item. A string is held as the bytes before its terminator
    (all `data_size` of them when there is no room for one).
   */
  datatype Value = VBool(b: bool) | VInt(n: int) | VBytes(bs: seq<byte>) | VMsg(slots: seq<Slot>) | VNone

  /**
    A field in the structure: the value, with its has-flag, its count, or the union's which-tag. An array without
    a count is held as the entries stored since it was last begun; what the rest of its memory holds is not modelled.
   */
  datatype Slot = One(v: Value) | Opt(has: bool, v: Value) | Rep(items: seq<Value>) | Union(which: nat, v: Value)

  // The C type of a member decides how its memory is read; these read it at the type the field names.

  function AsBool(v: Value): bool { v.VBool? && v.b }
  function AsInt(v: Value): int { if v.VInt? then v.n else 0 }
  function AsBytes(v: Value): seq<byte> { if v.VBytes? then v.bs else [] }
  function AsSlots(v: Value): seq<Slot> { if v.VMsg? then v.slots else [] }

  function ValueOf(s: Slot): Value { if s.Rep? then VNone else s.v }
  function HasFlag(s: Slot): bool { s.Opt? && s.has }
  function Items(s: Slot): seq<Value> { if s.Rep? then s.items else [] }
  function Which(s: Slot): nat { if s.Union? then s.which else 0 }

  function Get(slots: seq<Slot>, i: nat): Slot {
    if i < |slots| then slots[i] else One(VNone)
  }

  function Put(slots: seq<Slot>, i: nat, s: Slot): (r: seq<Slot>)
    ensures |r| == |slots|
  {
    if i < |slots| then slots[i := s] else slots
  }

  /** `LTYPE <= PB_LTYPE_LAST_PACKABLE`. */
  predicate Packable(l: LType) {
    l.Bool? || l.Varint? || l.Uvarint? || l.Svarint? || l.Fixed32? || l.Fixed64?
  }

  /** The field at `i` lies inside the union that the field before it belongs to. */
  predicate Continues(fields: seq<Field>, i: nat) {
    && 0 < i < |fields|
    && fields[i - 1].htype.Oneof? && fields[i].htype.Oneof?
    && fields[i].dataOffset == PB_SIZE_MAX
  }

  /** The position whose slot the field at `i` uses. */
  function Home(fields: seq<Field>, i: nat): (h: nat)
    requires i < |fields|
    ensures h <= i
  {
    if Continues(fields, i) then Home(fields, i - 1) else i
  }

  /** Only members of a union share a slot. */
  lemma {:induction false} HomeShared(fields: seq<Field>, i: nat, j: nat)
    requires i < j < |fields| && Home(fields, i) == Home(fields, j)
    ensures fields[i].htype.Oneof? && fields[j].htype.Oneof?
  {
    if i < j - 1 {
      HomeShared(fields, i, j - 1);
    }
  }

  lemma {:induction false} HomeIdempotent(fields: seq<Field>, i: nat)
    requires i < |fields|
    ensures Home(fields, Home(fields, i)) == Home(fields, i)
    ensures fields[i].htype.Oneof? ==> fields[Home(fields, i)].htype.Oneof?
    ensures !fields[i].htype.Oneof? ==> Home(fields, i) == i
  {
    if Continues(fields, i) {
      HomeIdempotent(fields, i - 1);
    }
  }

  // ----- Default values -----

  function ZeroValue(f: Field): Value
    requires !f.ltype.Submessage?
  {
    match f.ltype
    case Bool => VBool(false)
    case Bytes => VBytes([])
    case String => VBytes([])
    case FixedLengthBytes => VBytes(seq(f.dataSize, _ => 0))
    case _ => VInt(0)
  }

  /** What `pb_field_set_to_default` stores in the data part of a field. */
  function InitValue(f: Field): Value
    decreases f, 0
  {
    if f.ltype.Submessage? then VMsg(Defaults(f.ltype.fields))
    else if f.default.Some? then f.default.value
    else ZeroValue(f)
  }

  /** `pb_field_set_to_default`. */
  function DefaultSlot(f: Field): Slot
    decreases f, 1
  {
    match f.htype
    case Required => One(InitValue(f))
    case Optional => if f.sizeOffset != 0 then Opt(false, InitValue(f)) else One(InitValue(f))
    case Repeated => Rep([])
    case Oneof => Union(0, VNone)
  }

  /** `pb_message_set_to_defaults`. */
  function Defaults(fields: seq<Field>): (slots: seq<Slot>)
    ensures |slots| == |fields|
    decreases fields
  {
    seq(|fields|, i requires 0 <= i < |fields| => DefaultSlot(fields[i]))
  }

  // ----- Contents -----

  /**
    What a member of the field's type can be left holding: integers of its width, bytes with room for their
    header, strings with room for their terminator, and messages whose fields are like that.
   */
  predicate Fits(f: Field, v: Value)
    decreases f, 0
  {
    match f.ltype
    case Bool => v.VBool?
    case Varint | Svarint => v.VInt? && (IsWidth(f.dataSize) ==> FitsSigned(v.n, f.dataSize))
    case Uvarint => v.VInt? && (IsWidth(f.dataSize) ==> FitsUnsigned(v.n, f.dataSize))
    case Fixed32 => v.VInt? && FitsUnsigned(v.n, 4)
    case Fixed64 => v.VInt? && FitsUnsigned(v.n, 8)
    case Bytes => v.VBytes? && (v.bs == [] || |v.bs| + BYTES_OFFSET <= f.dataSize)
    case String => v.VBytes? && (v.bs == [] || |v.bs| < f.dataSize)
    case FixedLengthBytes => v.VBytes? && |v.bs| == f.dataSize
    case Submessage(sub) => v.VMsg? && FitsMessage(sub, v.slots)
  }

  predicate FitsSlot(f: Field, s: Slot)
    decreases f, 1
  {
    match f.htype
    case Required => s.One? && Fits(f, s.v)
    case Optional => (if f.sizeOffset != 0 then s.Opt? else s.One?) && Fits(f, s.v)
    case Repeated => s.Rep? && |s.items| <= f.arraySize && forall k :: 0 <= k < |s.items| ==> Fits(f, s.items[k])
    case Oneof => s.Union? && (s.which == f.tag ==> Fits(f, s.v))
  }

  predicate FitsMessage(fields: seq<Field>, slots: seq<Slot>)
    decreases fields
  {
    |slots| == |fields| && forall i :: 0 <= i < |fields| ==> FitsSlot(fields[i], Get(slots, Home(fields, i)))
  }

  // ----- Well-formed descriptions -----

  /** An array that is always full and has no count: its `size_offset` is 0. */
  predicate FixedCount(f: Field) {
    f.htype.Repeated? && f.sizeOffset == 0
  }

  /**
    What the generator guarantees: tags are distinct field numbers, a default is a value of the field's type,
    proto3 singular fields have none, and sizes are `pb_size_t` values.
   */
  predicate ValidField(f: Field)
    decreases f
  {
    && 1 <= f.tag < 0x2000_0000
    && f.dataSize <= PB_SIZE_MAX && f.arraySize <= PB_SIZE_MAX
    && (f.htype.Optional? && f.sizeOffset == 0 ==> f.default.None?)
    && (f.default.Some? && !f.ltype.Submessage? ==> Fits(f, f.default.value))
    && (f.ltype.Submessage? ==> ValidSchema(f.ltype.fields))
  }

  predicate DistinctTags(fields: seq<Field>) {
    forall i, j :: 0 <= i < j < |fields| ==> fields[i].tag != fields[j].tag
  }

  predicate ValidSchema(fields: seq<Field>)
    decreases fields
  {
    DistinctTags(fields) && forall i :: 0 <= i < |fields| ==> ValidField(fields[i])
  }

  lemma {:induction false} DefaultsFit(fields: seq<Field>)
    requires ValidSchema(fields)
    ensures FitsMessage(fields, Defaults(fields))
    decreases fields
  {
    forall i | 0 <= i < |fields| ensures FitsSlot(fields[i], Get(Defaults(fields), Home(fields, i))) {
      DefaultFits(fields, i);
    }
  }

  lemma {:induction false} DefaultFits(fields: seq<Field>, i: nat)
    requires ValidSchema(fields) && i < |fields|
    ensures FitsSlot(fields[i], Get(Defaults(fields), Home(fields, i)))
    decreases fields, 0
  {
    var f := fields[i];
    HomeIdempotent(fields, i);
    assert ValidField(f);
    if f.htype.Required? || f.htype.Optional? { InitFits(f); }
  }

  lemma {:induction false} InitFits(f: Field)
    requires ValidField(f)
    ensures Fits(f, InitValue(f))
    decreases f, 0
  {
    if f.ltype.Submessage? { DefaultsFit(f.ltype.fields); }
  }

  /** The position of the field with the given tag. */
  function Find(fields: seq<Field>, tag: nat): (r: Option<nat>)
    ensures r.Some? ==> r.value < |fields| && fields[r.value].tag == tag
    ensures r.None? ==> forall i :: 0 <= i < |fields| ==> fields[i].tag != tag
  {
    FindFrom(fields, tag, 0)
  }

  function FindFrom(fields: seq<Field>, tag: nat, i: nat): (r: Option<nat>)
    requires i <= |fields|
    ensures r.Some? ==> i <= r.value < |fields| && fields[r.value].tag == tag
    ensures r.None? ==> forall k :: i <= k < |fields| ==> fields[k].tag != tag
    decreases |fields| - i
  {
    if i == |fields| then None
    else if fields[i].tag == tag then Some(i)
    else FindFrom(fields, tag, i + 1)
  }

  lemma FindUnique(fields: seq<Field>, i: nat)
    requires i < |fields| && DistinctTags(fields)
    ensures Find(fields, fields[i].tag) == Some(i)
  {
    var r := Find(fields, fields[i].tag);
    assert r.Some? && fields[r.value].tag == fields[i].tag;
  }
}

/** What a message holds before anything is decoded into it: the defaults that its description names, and zeros. */
module InitialContents {
  import opened Options
  import opened Schema
  import opened Encoding
  import opened Decoding
  import opened Messages
  import opened MergedMessages
  import opened RoundTrip

  /** The zero of each type of member. */
  predicate IsZero(f: Field, v: Value) {
    match f.ltype
    case Bool => v == VBool(false)
    case Varint | Uvarint | Svarint | Fixed32 | Fixed64 => v == VInt(0)
    case Bytes | String => v == VBytes([])
    case FixedLengthBytes => v.VBytes? && |v.bs| == f.dataSize && forall k :: 0 <= k < |v.bs| ==> v.bs[k] == 0
    case Submessage(_) => false
  }

  /** A value is as the description says: its default, or zero where it names none. */
  predicate IsInitial(f: Field, v: Value)
    decreases f, 0
  {
    if f.ltype.Submessage? then v.VMsg? && AreInitial(f.ltype.fields, v.slots)
    else if f.default.Some? then v == f.default.value
    else IsZero(f, v)
  }

  /** A field is not there: no has-flag, no entries, no member selected; and its value is initial. */
  predicate IsInitialSlot(f: Field, s: Slot)
    decreases f, 1
  {
    match f.htype
    case Required => s.One? && IsInitial(f, s.v)
    case Optional => if f.sizeOffset != 0 then s.Opt? && !s.has && IsInitial(f, s.v) else s.One? && IsInitial(f, s.v)
    case Repeated => s == Rep([])
    case Oneof => s.Union? && s.which == 0
  }

  predicate AreInitial(fields: seq<Field>, slots: seq<Slot>)
    decreases fields
  {
    |slots| == |fields| && forall i :: 0 <= i < |fields| ==> IsInitialSlot(fields[i], slots[i])
  }

  /** Setting a message to its defaults stores the default of every field, at any depth. */
  lemma {:induction false} DefaultsInitial(fields: seq<Field>)
    ensures AreInitial(fields, Defaults(fields))
    decreases fields
  {
    forall i | 0 <= i < |fields| ensures IsInitialSlot(fields[i], DefaultSlot(fields[i])) {
      ValueInitial(fields[i]);
    }
  }

  lemma {:induction false} ValueInitial(f: Field)
    ensures IsInitial(f, InitValue(f))
    decreases f
  {
    if f.ltype.Submessage? { DefaultsInitial(f.ltype.fields); }
  }

  lemma SlotInitial(f: Field)
    ensures IsInitialSlot(f, DefaultSlot(f))
  {
    ValueInitial(f);
    hide InitValue, IsInitial;
  }

  /** The default that a description names is what the member holds. */
  lemma {:induction false} NamedDefaultStored(fields: seq<Field>, i: nat, d: Value)
    requires i < |fields| && (fields[i].htype.Required? || fields[i].htype.Optional?)
    requires !fields[i].ltype.Submessage? && fields[i].default == Some(d)
    ensures ValueOf(Get(Defaults(fields), i)) == d
  {
    DefaultsInitial(fields);
    assert IsInitialSlot(fields[i], Defaults(fields)[i]);
    hide Defaults;
  }

  /** A field that was not written comes back with its initial contents. */
  lemma {:induction false} AbsentIsInitial(fields: seq<Field>, slots: seq<Slot>, i: nat)
    requires ValidSchema(fields) && WfMessage(fields, slots) && i < |fields|
    requires match fields[i].htype
             case Oneof => Home(fields, i) == i && ActiveMember(fields, slots, i).None?
             case _ => EncField(fields[i], Get(slots, i)).bytes == []
    ensures var d := DecMessage(fields, EncMessage(fields, slots).bytes);
            d.Done? && i < |d.value| && IsInitialSlot(fields[i], d.value[i])
  {
    MessageRoundTrip(fields, slots);
    hide EncMessage, DecNoinit;
    assert Canon(fields, slots)[i] == CanonAt(fields, slots, i);
    hide Canon, Defaults;
    var f, s := fields[i], Get(slots, i);
    HomeIdempotent(fields, i);
    assert ValidField(f) && WfSlot(f, Get(slots, Home(fields, i)));
    AbsentSlot(fields, slots, i);
  }

  lemma {:induction false} AbsentSlot(fields: seq<Field>, slots: seq<Slot>, i: nat)
    requires i < |fields| && ValidField(fields[i])
    requires fields[i].htype.Oneof? || WfSlot(fields[i], Get(slots, i))
    requires match fields[i].htype
             case Oneof => ActiveMember(fields, slots, i).None?
             case _ => EncField(fields[i], Get(slots, i)).bytes == []
    ensures IsInitialSlot(fields[i], CanonAt(fields, slots, i))
  {
    var f, s := fields[i], Get(slots, i);
    assert FieldTag(f) != [];
    hide EncValue, FieldTag, IsInitial, InitValue, WfValue, CanonValue;
    SlotInitial(f);
    if f.htype.Repeated? {
      ArrayAbsent(f, Items(s));
      hide EncArray;
    } else if f.htype.Optional? && f.sizeOffset == 0 {
      Proto3DefaultCanon(f, s);
      hide IsProto3Default;
    }
  }

  lemma ArrayAbsent(f: Field, items: seq<Value>)
    requires |items| <= f.arraySize && EncArray(f, items).bytes == []
    ensures items == [] && CanonItems(f, items) == []
  {
    assert FieldTag(f) != [];
    hide EncItems, EncValue, FieldTag;
  }

  /** Each entry of an array of submessages starts from initial contents, whatever the entries before it hold. */
  lemma {:induction false} EntryStartsInitial(fields: seq<Field>, slots: seq<Slot>, i: nat, k: nat, q: nat)
    requires ValidSchema(fields) && WfMessage(fields, slots) && i < |fields|
    requires fields[i].htype.Repeated? && fields[i].ltype.Submessage? && k < |Items(Get(slots, i))|
    requires var sub, inner := fields[i].ltype.fields, AsSlots(Items(Get(slots, i))[k]);
             q < |sub| && !sub[q].htype.Oneof? && EncField(sub[q], Get(inner, q)).bytes == []
    ensures var d := DecMessage(fields, EncMessage(fields, slots).bytes); var sub := fields[i].ltype.fields;
            && d.Done? && |Items(Get(d.value, i))| == |Items(Get(slots, i))|
            && var entry := AsSlots(Items(Get(d.value, i))[k]);
               q < |entry| && IsInitialSlot(sub[q], entry[q])
  {
    MessageRoundTrip(fields, slots);
    var f, items := fields[i], Items(Get(slots, i));
    HomeIdempotent(fields, i);
    assert ValidField(f) && WfSlot(f, Get(slots, i));
    hide EncMessage, DecNoinit, EncField, Defaults, ValidSchema, WfMessage, IsInitialSlot;
    EntryCanon(fields, slots, i, k);
    EntryInitial(f, items[k], q);
    hide Canon, CanonItems;
  }

  lemma {:induction false} EntryCanon(fields: seq<Field>, slots: seq<Slot>, i: nat, k: nat)
    requires i < |fields| && fields[i].htype.Repeated? && k < |Items(Get(slots, i))|
    ensures var items := Items(Get(Canon(fields, slots), i));
            |items| == |Items(Get(slots, i))| && items[k] == CanonValue(fields[i], Items(Get(slots, i))[k])
  {
    var items := Items(Get(slots, i));
    assert CanonItems(fields[i], items)[k] == CanonValue(fields[i], items[k]);
    assert CanonAt(fields, slots, i) == Rep(CanonItems(fields[i], items));
    assert Canon(fields, slots)[i] == CanonAt(fields, slots, i);
    hide Canon, CanonAt, CanonItems, CanonValue;
  }

  lemma {:induction false} EntryInitial(f: Field, item: Value, q: nat)
    requires ValidField(f) && WfValue(f, item) && f.ltype.Submessage?
    requires var sub := f.ltype.fields;
             q < |sub| && !sub[q].htype.Oneof? && EncField(sub[q], Get(AsSlots(item), q)).bytes == []
    ensures var entry := AsSlots(CanonValue(f, item)); q < |entry| && IsInitialSlot(f.ltype.fields[q], entry[q])
  {
    var sub, inner := f.ltype.fields, AsSlots(item);
    assert CanonValue(f, item) == VMsg(Canon(sub, inner));
    assert Canon(sub, inner)[q] == CanonAt(sub, inner, q);
    HomeIdempotent(sub, q);
    assert WfSlot(sub[q], Get(inner, q)) && ValidField(sub[q]);
    hide Canon, CanonAt, CanonValue, EncField, WfSlot, WfValue, ValidField, IsInitialSlot;
    AbsentSlot(sub, inner, q);
  }
}

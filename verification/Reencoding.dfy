/**
  The converse of the round trip: exactly when the message decoded from an encoding encodes to the same bytes.
 */
module Reencoding {
  import opened Options
  import opened Wire
  import opened Schema
  import opened Encoding
  import opened Decoding
  import opened Messages
  import opened RoundTrip

  // ----- Fields that hold nothing -----

  /** Like the proto3 test, but a union holds nothing when its tag is that of none of its members. */
  predicate Hollow(fields: seq<Field>, slots: seq<Slot>, i: nat)
    requires i < |fields|
    decreases fields, 1
  {
    var f, p := fields[i], Home(fields, i);
    match f.htype
    case Required => false
    case Repeated => f.sizeOffset != 0 && Items(Get(slots, p)) == []
    case Oneof => ActiveMember(fields, slots, p).None?
    case Optional => if f.sizeOffset != 0 then !HasFlag(Get(slots, p)) else HollowValue(f, ValueOf(Get(slots, p)))
  }

  predicate HollowValue(f: Field, v: Value)
    decreases f, 0
  {
    if f.ltype.Submessage? then forall j :: 0 <= j < |f.ltype.fields| ==> Hollow(f.ltype.fields, AsSlots(v), j)
    else IsProto3Default(f, One(v))
  }

  /** No proto3 singular submessage that is written is hollow, in the message and in all it contains. */
  predicate Solid(fields: seq<Field>, slots: seq<Slot>)
    decreases fields
  {
    forall i :: 0 <= i < |fields| ==> SolidField(fields[i], Get(slots, Home(fields, i)))
  }

  predicate SolidField(f: Field, s: Slot)
    decreases f, 1
  {
    if f.htype.Repeated? then forall k :: 0 <= k < |Items(s)| ==> SolidValue(f, Items(s)[k])
    else IsPresent(f, s) ==>
      SolidValue(f, ValueOf(s)) && (f.htype.Optional? && f.sizeOffset == 0 ==> !HollowValue(f, ValueOf(s)))
  }

  predicate SolidValue(f: Field, v: Value)
    decreases f, 0
  {
    f.ltype.Submessage? ==> Solid(f.ltype.fields, AsSlots(v))
  }

  // ----- What normalisation does to the proto3 test -----

  /** Normalisation keeps the tag of a union that names a member, and clears any other. */
  lemma UnionNormal(fields: seq<Field>, slots: seq<Slot>, i: nat)
    requires ValidSchema(fields) && i < |fields| && fields[i].htype.Oneof?
    ensures var p := Home(fields, i); var s, c := Get(slots, p), Get(Canon(fields, slots), p);
            && (Which(c) == fields[i].tag <==> Which(s) == fields[i].tag)
            && (Which(s) == fields[i].tag ==> ValueOf(c) == CanonValue(fields[i], ValueOf(s)))
            && (ActiveMember(fields, slots, p).Some? ==> Which(c) == Which(s) != 0)
            && (ActiveMember(fields, slots, p).None? ==> Which(c) == 0)
  {
    HomeIdempotent(fields, i);
    FindUnique(fields, i);
    assert ValidField(fields[i]);
    var m := ActiveMember(fields, slots, Home(fields, i));
    if m.Some? { assert ValidField(fields[m.value]); }
    hide CanonValue;
  }

  /** After normalisation the proto3 test finds exactly the hollow fields, among them all it found before. */
  lemma {:induction false} HollowNormal(fields: seq<Field>, slots: seq<Slot>, i: nat)
    requires ValidSchema(fields) && WfMessage(fields, slots) && i < |fields|
    ensures var p := Home(fields, i);
            && (IsProto3Default(fields[i], Get(Canon(fields, slots), p)) <==> Hollow(fields, slots, i))
            && (IsProto3Default(fields[i], Get(slots, p)) ==> Hollow(fields, slots, i))
    decreases fields, 1
  {
    var f, p := fields[i], Home(fields, i);
    HomeIdempotent(fields, i);
    var s := Get(slots, p);
    assert ValidField(f) && WfSlot(f, s);
    if f.htype.Oneof? {
      UnionNormal(fields, slots, i);
    } else if f.htype.Optional? && f.sizeOffset == 0 {
      HollowSingular(f, ValueOf(s));
    }
    hide HollowValue;
  }

  lemma {:induction false} HollowSingular(f: Field, v: Value)
    requires ValidField(f) && WfValue(f, v) && f.htype.Optional? && f.sizeOffset == 0
    ensures IsProto3Default(f, One(CanonValue(f, v))) <==> HollowValue(f, v)
    ensures IsProto3Default(f, One(v)) ==> HollowValue(f, v)
    decreases f, 0
  {
    if f.ltype.Submessage? {
      var sub, inner := f.ltype.fields, AsSlots(v);
      forall j | 0 <= j < |sub|
        ensures IsProto3Default(sub[j], Get(Canon(sub, inner), Home(sub, j))) <==> Hollow(sub, inner, j)
        ensures IsProto3Default(sub[j], Get(inner, Home(sub, j))) ==> Hollow(sub, inner, j)
      {
        HollowNormal(sub, inner, j);
      }
    }
  }

  // ----- Encodings that are equal or shorter -----

  predicate Shrunk(a: Enc, b: Enc, same: bool) {
    a.ok && b.ok && if same then a == b else |a.bytes| < |b.bytes|
  }

  lemma ShrunkThen(a: Enc, b: Enc, same: bool, a': Enc, b': Enc, same': bool)
    requires Shrunk(a, b, same) && Shrunk(a', b', same')
    ensures Shrunk(Then(a, a'), Then(b, b'), same && same')
  {
  }

  lemma {:induction false} VarintGrows(m: nat, n: nat)
    requires m <= n
    ensures |EncVarint(m)| <= |EncVarint(n)|
  {
    if m >= 128 {
      VarintGrows(m / 128, n / 128);
    }
  }

  lemma {:induction false} ValueShrinks(f: Field, v: Value)
    requires ValidField(f) && WfValue(f, v)
    ensures Shrunk(EncValue(f, CanonValue(f, v)), EncValue(f, v), SolidValue(f, v))
    decreases f, 0
  {
    if f.ltype.Submessage? {
      var sub, slots := f.ltype.fields, AsSlots(v);
      MessageShrinks(sub, slots);
      VarintGrows(|EncMessage(sub, Canon(sub, slots)).bytes|, |EncMessage(sub, slots).bytes|);
      hide Canon, EncMessage, Solid, EncVarint;
    } else {
      ScalarRoundTrip(f, v, []);
      hide DecScalar;
    }
  }

  lemma {:induction false} TaggedShrinks(f: Field, items: seq<Value>)
    requires ValidField(f) && forall k :: 0 <= k < |items| ==> WfValue(f, items[k])
    ensures Shrunk(EncTagged(f, CanonItems(f, items)), EncTagged(f, items),
                   forall k :: 0 <= k < |items| ==> SolidValue(f, items[k]))
    decreases f, 1, |items|
  {
    if items != [] {
      var rest := items[1..];
      ValueShrinks(f, items[0]);
      TaggedShrinks(f, rest);
      FirstOfTagged(f, items);
      AllSolid(f, items);
      var solid := forall k :: 0 <= k < |rest| ==> SolidValue(f, rest[k]);
      ShrunkThen(EncValue(f, CanonValue(f, items[0])), EncValue(f, items[0]), SolidValue(f, items[0]),
                 EncTagged(f, CanonItems(f, rest)), EncTagged(f, rest), solid);
      ShrunkThen(Emit(FieldTag(f)), Emit(FieldTag(f)), true,
                 Then(EncValue(f, CanonValue(f, items[0])), EncTagged(f, CanonItems(f, rest))),
                 Then(EncValue(f, items[0]), EncTagged(f, rest)), SolidValue(f, items[0]) && solid);
      hide EncTagged, EncValue, CanonValue, CanonItems, SolidValue, FieldTag, Then, WfValue;
    }
  }

  lemma FirstOfTagged(f: Field, items: seq<Value>)
    requires items != []
    ensures EncTagged(f, items) == Then(Emit(FieldTag(f)), Then(EncValue(f, items[0]), EncTagged(f, items[1..])))
    ensures EncTagged(f, CanonItems(f, items)) ==
            Then(Emit(FieldTag(f)), Then(EncValue(f, CanonValue(f, items[0])), EncTagged(f, CanonItems(f, items[1..]))))
  {
    assert CanonItems(f, items)[1..] == CanonItems(f, items[1..]);
    hide EncValue, CanonValue, FieldTag, Then;
  }

  lemma AllSolid(f: Field, items: seq<Value>)
    requires items != []
    ensures (forall k :: 0 <= k < |items| ==> SolidValue(f, items[k]))
            <==> SolidValue(f, items[0]) && forall k :: 0 <= k < |items[1..]| ==> SolidValue(f, items[1..][k])
  {
    var rest := items[1..];
    hide SolidValue;
    if SolidValue(f, items[0]) && forall k :: 0 <= k < |rest| ==> SolidValue(f, rest[k]) {
      forall k | 0 <= k < |items| ensures SolidValue(f, items[k]) {
        if k > 0 { assert rest[k - 1] == items[k]; }
      }
    }
  }

  lemma {:induction false} ArrayShrinks(f: Field, items: seq<Value>)
    requires ValidField(f) && |items| <= f.arraySize && forall k :: 0 <= k < |items| ==> WfValue(f, items[k])
    ensures Shrunk(EncArray(f, CanonItems(f, items)), EncArray(f, items),
                   forall k :: 0 <= k < |items| ==> SolidValue(f, items[k]))
    decreases f, 2
  {
    if Packable(f.ltype) {
      ScalarItemsCanon(f, items);
      PackedRoundTrip(f, [], items);
      hide DecPacked, EncItems;
    } else {
      TaggedShrinks(f, items);
      assert CanonItems(f, items) == [] <==> items == [];
    }
    hide EncTagged, CanonItems, WfValue;
  }

  /** A field shrinks to nothing when it is a hollow proto3 submessage, and otherwise as its value does. */
  lemma {:induction false} FieldShrinks(fields: seq<Field>, slots: seq<Slot>, i: nat)
    requires ValidSchema(fields) && WfMessage(fields, slots) && i < |fields|
    ensures var p := Home(fields, i);
            Shrunk(EncField(fields[i], Get(Canon(fields, slots), p)), EncField(fields[i], Get(slots, p)),
                   SolidField(fields[i], Get(slots, p)))
    decreases fields, 1
  {
    var f, p := fields[i], Home(fields, i);
    var s, c := Get(slots, p), Get(Canon(fields, slots), p);
    HomeIdempotent(fields, i);
    assert ValidField(f) && WfSlot(f, s);
    if f.htype.Repeated? {
      ArrayShrinks(f, Items(s));
      hide EncArray;
    } else {
      Presence(fields, slots, i);
      if IsPresent(f, s) {
        ValueShrinks(f, ValueOf(s));
        ShrunkThen(Emit(FieldTag(f)), Emit(FieldTag(f)), true,
                   EncValue(f, CanonValue(f, ValueOf(s))), EncValue(f, ValueOf(s)), SolidValue(f, ValueOf(s)));
      }
      hide EncValue, IsPresent, SolidValue, HollowValue, CanonValue;
    }
  }

  /** Normalisation removes exactly the hollow proto3 fields that were present. */
  lemma Presence(fields: seq<Field>, slots: seq<Slot>, i: nat)
    requires ValidSchema(fields) && WfMessage(fields, slots) && i < |fields| && !fields[i].htype.Repeated?
    ensures var f, p := fields[i], Home(fields, i); var s, c := Get(slots, p), Get(Canon(fields, slots), p);
            && (IsPresent(f, c) <==>
                  IsPresent(f, s) && (f.htype.Optional? && f.sizeOffset == 0 ==> !HollowValue(f, ValueOf(s))))
            && (IsPresent(f, s) ==> WfValue(f, ValueOf(s)))
            && (IsPresent(f, c) ==> ValueOf(c) == CanonValue(f, ValueOf(s)))
  {
    var f, p := fields[i], Home(fields, i);
    HomeIdempotent(fields, i);
    assert WfSlot(f, Get(slots, p));
    if f.htype.Oneof? { UnionNormal(fields, slots, i); }
    if f.htype.Optional? && f.sizeOffset == 0 { HollowNormal(fields, slots, i); }
    hide WfValue, CanonValue, IsProto3Default, HollowValue;
  }

  lemma {:induction false} FieldsShrink(fields: seq<Field>, slots: seq<Slot>, i: nat)
    requires ValidSchema(fields) && WfMessage(fields, slots) && i <= |fields|
    ensures Shrunk(EncFrom(fields, Canon(fields, slots), i), EncFrom(fields, slots, i),
                   forall k :: i <= k < |fields| ==> SolidField(fields[k], Get(slots, Home(fields, k))))
    decreases fields, 2, |fields| - i
  {
    hide EncField, Canon, ValidSchema, WfMessage, SolidField, Then, Get;
    if i < |fields| {
      FieldShrinks(fields, slots, i);
      FieldsShrink(fields, slots, i + 1);
      var p := Home(fields, i);
      ShrunkThen(EncField(fields[i], Get(Canon(fields, slots), p)), EncField(fields[i], Get(slots, p)),
                 SolidField(fields[i], Get(slots, p)),
                 EncFrom(fields, Canon(fields, slots), i + 1), EncFrom(fields, slots, i + 1),
                 forall k :: i + 1 <= k < |fields| ==> SolidField(fields[k], Get(slots, Home(fields, k))));
    }
  }

  lemma {:induction false} MessageShrinks(fields: seq<Field>, slots: seq<Slot>)
    requires ValidSchema(fields) && WfMessage(fields, slots)
    ensures Shrunk(EncMessage(fields, Canon(fields, slots)), EncMessage(fields, slots), Solid(fields, slots))
    decreases fields, 3
  {
    FieldsShrink(fields, slots, 0);
    hide EncFrom, Canon, SolidField;
  }

  /**
    Encoding what was decoded from an encoding gives the same bytes if and only if no proto3 singular
    submessage was written that holds nothing but unions with tags of no member; otherwise it gives fewer bytes.
   */
  lemma DecodedEncodesBack(fields: seq<Field>, slots: seq<Slot>)
    requires ValidSchema(fields) && WfMessage(fields, slots)
    ensures var e := EncMessage(fields, slots); var d := DecMessage(fields, e.bytes);
            && d.Done? && EncMessage(fields, d.value).ok
            && (EncMessage(fields, d.value).bytes == e.bytes <==> Solid(fields, slots))
            && (!Solid(fields, slots) ==> |EncMessage(fields, d.value).bytes| < |e.bytes|)
  {
    MessageRoundTrip(fields, slots);
    MessageShrinks(fields, slots);
    hide EncMessage, DecNoinit, Canon, Solid;
  }

  // ----- A message that does not encode back -----

  /** A proto3 singular submessage whose only content is a union with the given tag; its one member has tag 1. */
  function WithUnion(which: nat): (seq<Field>, seq<Slot>) {
    var member := Field(1, Oneof, Bool, 0, 4, 1, 0, None);
    var outer := Field(1, Optional, Submessage([member]), 0, 0, 8, 0, None);
    ([outer], [One(VMsg([Union(which, VNone)]))])
  }

  lemma WithUnionWellFormed(which: nat)
    requires which > 1
    ensures var (fields, slots) := WithUnion(which); ValidSchema(fields) && WfMessage(fields, slots)
  {
    hide EncString;
  }

  lemma WithUnionNotSolid(which: nat)
    requires which > 1
    ensures var (fields, slots) := WithUnion(which); !Solid(fields, slots)
  {
    var (fields, slots) := WithUnion(which);
    var sub, inner := fields[0].ltype.fields, slots[0].v.slots;
    assert !IsProto3Default(sub[0], Get(inner, Home(sub, 0)));
    assert IsPresent(fields[0], slots[0]);
    assert Hollow(sub, inner, 0);
    assert HollowValue(fields[0], slots[0].v);
    assert !SolidField(fields[0], Get(slots, Home(fields, 0)));
  }

  /** A union with a tag of no member is written in its submessage, and what is read back from that is not. */
  lemma ForeignUnionShrinks(which: nat)
    requires which > 1
    ensures var (fields, slots) := WithUnion(which); var e := EncMessage(fields, slots); var d := DecMessage(fields, e.bytes);
            && ValidSchema(fields) && WfMessage(fields, slots) && !Solid(fields, slots)
            && e.ok && d.Done? && |EncMessage(fields, d.value).bytes| < |e.bytes|
  {
    var (fields, slots) := WithUnion(which);
    WithUnionWellFormed(which);
    WithUnionNotSolid(which);
    hide WithUnion, EncMessage, DecMessage, Solid, ValidSchema, WfMessage;
    MessageRoundTrip(fields, slots);
    DecodedEncodesBack(fields, slots);
  }
}

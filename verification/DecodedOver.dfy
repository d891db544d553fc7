/**
  What decoding an encoding makes of a message that already holds something, member by member: what the encoding
  does not write is kept, also inside submessages that it does write.
 */
module DecodedOver {
  import opened Options
  import opened Schema
  import opened Encoding
  import opened Decoding
  import opened Messages
  import opened MergedMessages
  import opened RoundTrip
  import opened WireFormat
  import opened InitialContents

  /** No field that uses the slot at `p` is written. */
  predicate Unwritten(fields: seq<Field>, b: seq<Slot>, p: nat) {
    forall j :: 0 <= j < |fields| && Home(fields, j) == p ==> EncField(fields[j], Get(b, p)).bytes == []
  }

  lemma {:induction false} UnwrittenMerge(fields: seq<Field>, a: seq<Slot>, b: seq<Slot>, p: nat)
    requires ValidSchema(fields) && WfMessage(fields, b) && p < |fields| && Home(fields, p) == p && Unwritten(fields, b, p)
    ensures MergeAt(fields, a, b, p) == Get(a, p)
  {
    hide MergeValue, CanonItems, EncField, IsProto3Default;
    var f, s := fields[p], Get(b, p);
    assert ValidField(f) && WfSlot(f, s);
    WrittenExactly(f, s);
    if f.htype.Optional? { PresentWritten(f, s); }
    if f.htype.Oneof? { NoMember(fields, b, p); }
  }

  lemma {:induction false} NoMember(fields: seq<Field>, b: seq<Slot>, p: nat)
    requires ValidSchema(fields) && WfMessage(fields, b) && Unwritten(fields, b, p)
    ensures ActiveMember(fields, b, p).None?
  {
    hide EncField;
    forall j | 0 <= j < |fields| && Home(fields, j) == p ensures fields[j].htype.Oneof? ==> Which(Get(b, p)) != fields[j].tag {
      assert ValidField(fields[j]) && WfSlot(fields[j], Get(b, Home(fields, j)));
      WrittenExactly(fields[j], Get(b, p));
    }
  }

  lemma PresentWritten(f: Field, s: Slot)
    requires !f.htype.Repeated?
    ensures IsPresent(f, s) <==> EncField(f, s).bytes != []
  {
    assert FieldTag(f) != [];
    hide EncValue, IsPresent, FieldTag;
  }

  /** What is not written stays as it was. */
  lemma UnwrittenKept(fields: seq<Field>, a: seq<Slot>, b: seq<Slot>, p: nat)
    requires ValidSchema(fields) && FitsMessage(fields, a) && WfMessage(fields, b) && p < |fields| && Home(fields, p) == p
    requires Unwritten(fields, b, p) && DecNoinit(fields, a, EncMessage(fields, b).bytes).Done?
    ensures var d := DecNoinit(fields, a, EncMessage(fields, b).bytes).value; |d| == |fields| && d[p] == Get(a, p)
  {
    MessageMerges(fields, a, b);
    UnwrittenMerge(fields, a, b, p);
    hide DecNoinit, EncMessage, MergeAt, ValidSchema, FitsMessage, WfMessage, Room, Unwritten;
  }

  // ----- Submessages -----

  /**
    A submessage that arrives again is merged into what the member holds. In a union that holds while the union held
    that member; when it held another, what is not written has its initial contents.
   */
  lemma {:induction false} SubmessageMergedInto(fields: seq<Field>, a: seq<Slot>, b: seq<Slot>, i: nat, q: nat)
    requires ValidSchema(fields) && FitsMessage(fields, a) && WfMessage(fields, b) && i < |fields|
    requires fields[i].ltype.Submessage? && !fields[i].htype.Repeated?
    requires var f, s := fields[i], Get(b, Home(fields, i));
             var sub := f.ltype.fields;
             EncField(f, s).bytes != [] && q < |sub| && Home(sub, q) == q && Unwritten(sub, AsSlots(ValueOf(s)), q)
    requires DecNoinit(fields, a, EncMessage(fields, b).bytes).Done?
    ensures var h, f := Home(fields, i), fields[i];
            var x, y := Get(a, h), Get(DecNoinit(fields, a, EncMessage(fields, b).bytes).value, h);
            var inner := AsSlots(ValueOf(y));
            && ValueOf(y).VMsg? && |inner| == |f.ltype.fields|
            && (f.htype.Oneof? ==> Which(y) == f.tag)
            && if f.htype.Oneof? && Which(x) != f.tag then IsInitialSlot(f.ltype.fields[q], inner[q])
               else inner[q] == Get(AsSlots(ValueOf(x)), q)
  {
    var h, f := Home(fields, i), fields[i];
    MessageMerges(fields, a, b);
    hide DecNoinit, EncMessage, Room, EncField, EncValue, FitsMessage, Fits, IsInitial, IsInitialSlot, Unwritten, Defaults, IsProto3Default;
    assert ValidField(f) && WfSlot(f, Get(b, h));
    HomeIdempotent(fields, i);
    WrittenMerge(fields, a, b, i);
    var start := if f.htype.Oneof? && Which(Get(a, h)) != f.tag then Defaults(f.ltype.fields) else AsSlots(ValueOf(Get(a, h)));
    UnwrittenMerge(f.ltype.fields, start, AsSlots(ValueOf(Get(b, h))), q);
    DefaultsInitial(f.ltype.fields);
    DefaultAt(f.ltype.fields, q);
    hide MergeAt, ValidSchema, WfMessage, ValidField, WfSlot;
  }

  lemma {:induction false} DefaultAt(fields: seq<Field>, q: nat)
    requires q < |fields| && AreInitial(fields, Defaults(fields))
    ensures IsInitialSlot(fields[q], Get(Defaults(fields), q))
  {
    hide Defaults, IsInitialSlot;
  }

  /** A submessage that is written is merged into the one the member holds, or into initial contents. */
  lemma {:induction false} WrittenMerge(fields: seq<Field>, a: seq<Slot>, b: seq<Slot>, i: nat)
    requires ValidSchema(fields) && WfMessage(fields, b) && i < |fields|
    requires fields[i].ltype.Submessage? && !fields[i].htype.Repeated? && EncField(fields[i], Get(b, Home(fields, i))).bytes != []
    ensures var h, f := Home(fields, i), fields[i];
            var x, y := Get(a, h), Get(Merge(fields, a, b), h);
            var start := if f.htype.Oneof? && Which(x) != f.tag then Defaults(f.ltype.fields) else AsSlots(ValueOf(x));
            && h < |fields| && ValueOf(y) == VMsg(Merge(f.ltype.fields, start, AsSlots(ValueOf(Get(b, h)))))
            && (f.htype.Oneof? ==> Which(y) == f.tag)
            && WfMessage(f.ltype.fields, AsSlots(ValueOf(Get(b, h))))
  {
    var h, f := Home(fields, i), fields[i];
    MergedAt(fields, a, b, h);
    assert WfSlot(f, Get(b, h));
    hide EncField, Merge, MergeAt, Defaults, WfMessage, ValidSchema;
    PresentWritten(f, Get(b, h));
    WrittenWf(f, Get(b, h));
    WrittenOwned(fields, b, i);
    hide IsPresent, WfSlot, ActiveMember;
    WrittenMergeAt(fields, a, b, i);
  }

  lemma {:induction false} WrittenWf(f: Field, s: Slot)
    requires WfSlot(f, s) && IsPresent(f, s) && f.ltype.Submessage? && !f.htype.Repeated?
    ensures WfMessage(f.ltype.fields, AsSlots(ValueOf(s)))
  {
    hide IsProto3Default;
  }

  lemma {:induction false} WrittenOwned(fields: seq<Field>, b: seq<Slot>, i: nat)
    requires ValidSchema(fields) && i < |fields| && IsPresent(fields[i], Get(b, Home(fields, i)))
    ensures var h := Home(fields, i);
            && (fields[h].htype.Oneof? <==> fields[i].htype.Oneof?) && (!fields[i].htype.Oneof? ==> h == i)
            && (fields[i].htype.Oneof? ==> ActiveMember(fields, b, h) == Some(i))
  {
    HomeIdempotent(fields, i);
    FindUnique(fields, i);
    hide IsProto3Default, ValidField;
  }

  lemma {:induction false} WrittenMergeAt(fields: seq<Field>, a: seq<Slot>, b: seq<Slot>, i: nat)
    requires i < |fields| && fields[i].ltype.Submessage? && !fields[i].htype.Repeated?
    requires var h := Home(fields, i);
             && IsPresent(fields[i], Get(b, h)) && (!fields[i].htype.Oneof? ==> h == i)
             && (fields[i].htype.Oneof? ==> fields[h].htype.Oneof? && ActiveMember(fields, b, h) == Some(i))
    ensures var h, f := Home(fields, i), fields[i];
            var x, y := Get(a, h), MergeAt(fields, a, b, h);
            var start := if f.htype.Oneof? && Which(x) != f.tag then Defaults(f.ltype.fields) else AsSlots(ValueOf(x));
            && ValueOf(y) == VMsg(Merge(f.ltype.fields, start, AsSlots(ValueOf(Get(b, h)))))
            && (f.htype.Oneof? ==> Which(y) == f.tag)
  {
    hide Merge, Defaults, ActiveMember, IsPresent, CanonItems;
  }

  lemma {:induction false} MergedAt(fields: seq<Field>, a: seq<Slot>, b: seq<Slot>, p: nat)
    requires p < |fields|
    ensures Get(Merge(fields, a, b), p) == MergeAt(fields, a, b, p)
  {
    hide MergeAt;
  }

  // ----- Other members -----

  /** A scalar that arrives replaces what was there, sets the has-flag, and selects its member of a union. */
  lemma {:induction false} ScalarReplaced(fields: seq<Field>, a: seq<Slot>, b: seq<Slot>, i: nat)
    requires ValidSchema(fields) && FitsMessage(fields, a) && WfMessage(fields, b) && i < |fields|
    requires !fields[i].ltype.Submessage? && !fields[i].htype.Repeated? && EncField(fields[i], Get(b, Home(fields, i))).bytes != []
    requires DecNoinit(fields, a, EncMessage(fields, b).bytes).Done?
    ensures var h, f := Home(fields, i), fields[i]; var y := Get(DecNoinit(fields, a, EncMessage(fields, b).bytes).value, h);
            && ValueOf(y) == ValueOf(Get(b, h))
            && (f.htype.Optional? && f.sizeOffset != 0 ==> HasFlag(y))
            && (f.htype.Oneof? ==> Which(y) == f.tag)
  {
    var h, f := Home(fields, i), fields[i];
    MessageMerges(fields, a, b);
    MergedAt(fields, a, b, h);
    hide DecNoinit, EncMessage, EncField, EncValue, Room, Merge, MergeAt, FitsMessage, WfMessage, ValidSchema;
    PresentWritten(f, Get(b, h));
    WrittenOwned(fields, b, i);
    hide IsPresent, ActiveMember;
    ScalarMergeAt(fields, a, b, i);
  }

  lemma {:induction false} ScalarMergeAt(fields: seq<Field>, a: seq<Slot>, b: seq<Slot>, i: nat)
    requires i < |fields| && !fields[i].ltype.Submessage? && !fields[i].htype.Repeated?
    requires var h := Home(fields, i);
             && IsPresent(fields[i], Get(b, h)) && (!fields[i].htype.Oneof? ==> h == i)
             && (fields[i].htype.Oneof? ==> fields[h].htype.Oneof? && ActiveMember(fields, b, h) == Some(i))
    ensures var h, f := Home(fields, i), fields[i]; var y := MergeAt(fields, a, b, h);
            && ValueOf(y) == ValueOf(Get(b, h))
            && (f.htype.Optional? && f.sizeOffset != 0 ==> HasFlag(y))
            && (f.htype.Oneof? ==> Which(y) == f.tag)
  {
    hide Merge, Defaults, ActiveMember, IsPresent, CanonItems;
  }

  /** Entries that arrive come behind those that are there; an array without a count starts over. */
  lemma {:induction false} EntriesAppended(fields: seq<Field>, a: seq<Slot>, b: seq<Slot>, i: nat)
    requires ValidSchema(fields) && FitsMessage(fields, a) && WfMessage(fields, b) && i < |fields|
    requires !fields[i].ltype.Submessage? && fields[i].htype.Repeated? && Items(Get(b, i)) != []
    requires DecNoinit(fields, a, EncMessage(fields, b).bytes).Done?
    ensures Items(Get(DecNoinit(fields, a, EncMessage(fields, b).bytes).value, i)) ==
            (if fields[i].sizeOffset == 0 then [] else Items(Get(a, i))) + Items(Get(b, i))
  {
    MessageMerges(fields, a, b);
    MergedAt(fields, a, b, i);
    hide DecNoinit, EncMessage, Room, Merge, FitsMessage, WfMessage, ValidSchema;
    ScalarItemsCanon(fields[i], Items(Get(b, i)));
    hide CanonItems;
  }
}

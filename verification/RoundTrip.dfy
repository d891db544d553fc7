/**
  Decoding what was encoded: into a message that already holds something it merges, exactly when there is room,
  and into the defaults it gives the message back.
 */
module RoundTrip {
  import opened Options
  import opened Bits
  import opened Wire
  import opened Scalars
  import opened Schema
  import opened Encoding
  import opened Decoding
  import opened DecodedContents
  import opened Messages
  import opened MergedMessages

  // ----- The destination while the fields arrive in order -----

  /** The slot at `p` has reached its final contents once the fields before `i` are decoded. */
  predicate Finished(fields: seq<Field>, b: seq<Slot>, i: nat, p: nat)
    requires p < |fields|
  {
    if fields[p].htype.Oneof? then
      var m := ActiveMember(fields, b, p);
      m.Some? && m.value < i
    else p < i
  }

  /** The destination, which held `a`, after the fields of `b` before `i` are decoded. */
  function Partial(fields: seq<Field>, a: seq<Slot>, b: seq<Slot>, i: nat): (r: seq<Slot>)
    ensures |r| == |fields|
  {
    seq(|fields|, p requires 0 <= p < |fields| =>
      if Finished(fields, b, i, p) then MergeAt(fields, a, b, p) else Get(a, p))
  }

  function RequiredUpTo(fields: seq<Field>, i: nat): set<nat>
    requires i <= |fields|
  {
    set k: nat | 0 <= k < i && fields[k].htype.Required?
  }

  /** The last array without a count before position `i` that has any entries. */
  function LastFixed(fields: seq<Field>, i: nat): (r: Option<nat>)
    requires i <= |fields|
    ensures r.Some? ==> r.value < i && FixedCount(fields[r.value]) && fields[r.value].arraySize > 0
    ensures r.None? ==> forall k :: 0 <= k < i && FixedCount(fields[k]) ==> fields[k].arraySize == 0
  {
    if i == 0 then None
    else if FixedCount(fields[i - 1]) && fields[i - 1].arraySize > 0 then Some(i - 1)
    else LastFixed(fields, i - 1)
  }

  /** What the field loop remembers after the fields before `i`. */
  function SeenFrom(fields: seq<Field>, seen: Progress, i: nat): Progress
    requires i <= |fields|
  {
    Progress(seen.required + RequiredUpTo(fields, i),
             if LastFixed(fields, i).Some? then LastFixed(fields, i) else seen.fixed)
  }

  /** An array without a count that was met last before is full, and so cannot be gone on with. */
  predicate Resumable(fields: seq<Field>, a: seq<Slot>, seen: Progress) {
    seen.fixed.Some? ==>
      && seen.fixed.value < |fields| && FixedCount(fields[seen.fixed.value])
      && |Items(Get(a, seen.fixed.value))| == fields[seen.fixed.value].arraySize
  }

  /** The first array without a count to arrive is the one met last before. */
  predicate Clash(fields: seq<Field>, seen: Progress, i: nat)
    requires i < |fields|
  {
    FixedCount(fields[i]) && fields[i].arraySize > 0 && LastFixed(fields, i).None? && seen.fixed == Some(i)
  }

  lemma PartialEnds(fields: seq<Field>, a: seq<Slot>, b: seq<Slot>, seen: Progress)
    requires |a| == |fields|
    ensures Partial(fields, a, b, 0) == a && SeenFrom(fields, seen, 0) == seen
    ensures Partial(fields, a, b, |fields|) == Merge(fields, a, b)
  {
    hide MergeValue, CanonItems;
  }

  /** Field `i` is the one whose data its slot holds: always so outside a union. */
  predicate Owns(fields: seq<Field>, b: seq<Slot>, i: nat)
    requires i < |fields|
  {
    fields[i].htype.Oneof? ==> ActiveMember(fields, b, Home(fields, i)) == Some(i)
  }

  /** Decoding field `i` changes only its home, and finds there what was there at first. */
  lemma PartialStep(fields: seq<Field>, a: seq<Slot>, b: seq<Slot>, i: nat)
    requires i < |fields|
    ensures var h := Home(fields, i);
            if Owns(fields, b, i) then
              && Get(Partial(fields, a, b, i), h) == Get(a, h)
              && Partial(fields, a, b, i + 1) == Put(Partial(fields, a, b, i), h, MergeAt(fields, a, b, h))
            else Partial(fields, a, b, i + 1) == Partial(fields, a, b, i)
  {
    hide MergeValue, CanonItems, MergeAt;
    HomeIdempotent(fields, i);
    var x, y := Partial(fields, a, b, i), Partial(fields, a, b, i + 1);
    var h := Home(fields, i);
    forall p | 0 <= p < |fields| && (p != h || !Owns(fields, b, i))
      ensures x[p] == y[p]
    {
      assert Finished(fields, b, i, p) == Finished(fields, b, i + 1, p);
    }
  }

  /** At each field, the array without a count met last is full. */
  lemma PartialFull(fields: seq<Field>, a: seq<Slot>, b: seq<Slot>, seen: Progress, i: nat)
    requires ValidSchema(fields) && WfMessage(fields, b) && |a| == |fields| && i <= |fields| && Resumable(fields, a, seen)
    ensures FixedFull(fields, Partial(fields, a, b, i), SeenFrom(fields, seen, i))
  {
    var last := SeenFrom(fields, seen, i).fixed;
    if last.Some? {
      var j := last.value;
      HomeIdempotent(fields, j);
      assert WfSlot(fields[j], Get(b, Home(fields, j)));
      hide ValidSchema, WfMessage, WfValue, CanonValue;
    }
  }

  // ----- Values and arrays -----

  lemma {:induction false} ValueMerges(f: Field, v: Value, base: Value, t: seq<byte>)
    requires ValidField(f) && WfValue(f, v)
    requires f.ltype.Submessage? && !f.htype.Repeated? ==> FitsMessage(f.ltype.fields, AsSlots(base))
    ensures EncValue(f, v).ok
    ensures DecValue(f, base, EncValue(f, v).bytes + t) ==
            if f.htype.Repeated? then Done(CanonValue(f, v), t)
            else if RoomForValue(f, base, v) then Done(MergeValue(f, base, v), t) else Fail
    decreases f, 0
  {
    if f.ltype.Submessage? {
      var sub := f.ltype.fields;
      hide EncMessage, EncString, Merge, Canon, Room, WfMessage, ValidSchema, FitsMessage, DecNoinit, Substream, Defaults;
      DefaultsFit(sub);
      MergeIntoDefaults(sub, v.slots);
      MessageMerges(sub, if f.htype.Repeated? then Defaults(sub) else AsSlots(base), v.slots);
      StringRoundTrip(EncMessage(sub, v.slots).bytes, t);
    } else {
      hide DecScalar, EncValue;
      ScalarRoundTrip(f, v, t);
    }
  }

  /** Entries with a tag each are appended, if they fit. */
  lemma {:induction false} TaggedMerges(fields: seq<Field>, i: nat, cur: seq<Slot>, seen: Progress, done: seq<Value>, items: seq<Value>, t: seq<byte>)
    requires Holding(fields, i, cur, seen, done) && !Packable(fields[i].ltype) && items != []
    requires forall k :: 0 <= k < |items| ==> WfValue(fields[i], items[k])
    ensures EncTagged(fields[i], items).ok
    ensures DecLoop(fields, cur, seen, EncTagged(fields[i], items).bytes + t) ==
            if |done| + |items| <= fields[i].arraySize
            then DecLoop(fields, cur[i := Rep(done + CanonItems(fields[i], items))], See(fields, seen, i), t) else LoopFail
    decreases fields, 0, |items|, 1
  {
    var f := fields[i];
    hide DecLoop, CanonValue, EncTagged, CanonItems, WfValue, See, Holding;
    var v, more := CanonValue(f, items[0]), items[1..];
    FirstTagged(fields, i, cur, seen, done, items, t);
    CanonItemsStep(f, done, items);
    if more == [] {
      LastEntry(f, more, t);
      assert done + CanonItems(f, items) == done + [v];
    } else if |done| < f.arraySize {
      var next := cur[i := Rep(done + [v])];
      StillHolding(fields, i, cur, seen, done, done + [v]);
      TaggedMerges(fields, i, next, See(fields, seen, i), done + [v], more, t);
      assert next[i := Rep(done + CanonItems(f, items))] == cur[i := Rep(done + CanonItems(f, items))] by { hide *; }
    }
  }

  /** The first of several entries is appended if there is room for it. */
  lemma {:induction false} FirstTagged(fields: seq<Field>, i: nat, cur: seq<Slot>, seen: Progress, done: seq<Value>, items: seq<Value>, t: seq<byte>)
    requires Holding(fields, i, cur, seen, done) && !Packable(fields[i].ltype) && items != []
    requires forall k :: 0 <= k < |items| ==> WfValue(fields[i], items[k])
    ensures |cur| == |fields| && EncTagged(fields[i], items).ok
    ensures DecLoop(fields, cur, seen, EncTagged(fields[i], items).bytes + t) ==
            if |done| < fields[i].arraySize
            then DecLoop(fields, cur[i := Rep(done + [CanonValue(fields[i], items[0])])], See(fields, seen, i),
                         EncTagged(fields[i], items[1..]).bytes + t)
            else LoopFail
    decreases fields, 0, |items|, 0
  {
    var f := fields[i];
    assert ValidField(f);
    hide DecLoop, CanonValue, ValidSchema, ValidField, EncValue, DecValue, WfValue, See, Holding, EncTagged, FieldTag;
    var rest := EncTagged(f, items[1..]).bytes + t;
    ValueMerges(f, items[0], VNone, rest);
    SingleEntry(fields, i, cur, seen, done, items[0], CanonValue(f, items[0]), rest);
    TaggedUnfold(f, items, t);
    AllTaggedOk(f, items);
  }

  lemma {:induction false} AllTaggedOk(f: Field, items: seq<Value>)
    requires ValidField(f) && f.htype.Repeated? && forall k :: 0 <= k < |items| ==> WfValue(f, items[k])
    ensures EncTagged(f, items).ok
    decreases f, 1, |items|
  {
    if items != [] {
      ValueMerges(f, items[0], VNone, []);
      AllTaggedOk(f, items[1..]);
      hide EncValue, WfValue;
    }
  }

  lemma CanonItemsStep(f: Field, done: seq<Value>, items: seq<Value>)
    requires items != []
    ensures done + CanonItems(f, items) == done + [CanonValue(f, items[0])] + CanonItems(f, items[1..])
  {
    hide CanonValue;
  }

  lemma TaggedUnfold(f: Field, items: seq<Value>, t: seq<byte>)
    requires items != [] && EncValue(f, items[0]).ok
    ensures EncTagged(f, items).ok == EncTagged(f, items[1..]).ok
    ensures EncTagged(f, items).bytes + t == FieldTag(f) + EncValue(f, items[0]).bytes + (EncTagged(f, items[1..]).bytes + t)
  {
    hide EncValue, FieldTag;
  }

  lemma LastEntry(f: Field, none: seq<Value>, t: seq<byte>)
    requires none == []
    ensures EncTagged(f, none) == EMPTY && EncTagged(f, none).bytes + t == t && CanonItems(f, none) == []
  {
  }

  /** An array, packed or one entry per field, is appended if it fits. */
  lemma {:induction false} ArrayMerges(fields: seq<Field>, i: nat, cur: seq<Slot>, seen: Progress, done: seq<Value>, items: seq<Value>, t: seq<byte>)
    requires Holding(fields, i, cur, seen, done) && items != [] && WfSlot(fields[i], Rep(items))
    ensures EncArray(fields[i], items).ok
    ensures DecLoop(fields, cur, seen, EncArray(fields[i], items).bytes + t) ==
            if |done| + |items| <= fields[i].arraySize
            then DecLoop(fields, cur[i := Rep(done + CanonItems(fields[i], items))], See(fields, seen, i), t) else LoopFail
    decreases fields, 1
  {
    var f := fields[i];
    hide DecLoop, CanonValue, WfValue, EncTagged, EncItems, See;
    if Packable(f.ltype) {
      assert ValidField(f);
      hide ValidSchema, ValidField, Holding;
      PackedItemsOk(f, items);
      ScalarItemsCanon(f, items);
      PackedChunk(fields, i, cur, seen, done, items, t);
    } else {
      hide ValidSchema, Holding;
      TaggedMerges(fields, i, cur, seen, done, items, t);
    }
  }

  lemma ScalarItemsCanon(f: Field, items: seq<Value>)
    requires !f.ltype.Submessage?
    ensures CanonItems(f, items) == items
  {
  }

  // ----- Fields -----

  /** A field that is not an array and is written. */
  lemma {:induction false} PresentMerges(fields: seq<Field>, a: seq<Slot>, b: seq<Slot>, i: nat, cur: seq<Slot>, seen: Progress, t: seq<byte>)
    requires ValidSchema(fields) && FitsMessage(fields, a) && WfMessage(fields, b) && i < |fields| == |cur|
    requires var h := Home(fields, i);
             !fields[i].htype.Repeated? && IsPresent(fields[i], b[h]) && (Owns(fields, b, i) ==> cur[h] == a[h])
    ensures var h, e := Home(fields, i), EncField(fields[i], b[Home(fields, i)]);
            && e.ok && Owns(fields, b, i)
            && DecLoop(fields, cur, seen, e.bytes + t) ==
               if RoomAt(fields, a, b, i) then DecLoop(fields, Put(cur, h, MergeAt(fields, a, b, h)), See(fields, seen, i), t)
               else LoopFail
    decreases fields, 0
  {
    var h, f := Home(fields, i), fields[i];
    var v := b[h].v;
    HomeIdempotent(fields, i);
    FindUnique(fields, i);
    assert Owns(fields, b, i);
    assert ValidField(f) && WfSlot(f, Get(b, h));
    var base := if f.htype.Oneof? then UnionBase(f, a[h]) else ValueOf(a[h]);
    if f.ltype.Submessage? { BaseFits(fields, a, i); }
    ValueMerges(f, v, base, t);
    hide EncValue, DecValue, MergeValue, RoomForValue, DecLoop, ValidSchema, WfMessage, FitsMessage, WfValue, EncTag, Find, Defaults, See;
    LoopStep(fields, i, cur, seen, WireType(f.ltype), EncValue(f, v).bytes, t);
    assert EncField(f, b[h]) == Enc(FieldTag(f) + EncValue(f, v).bytes, true);
  }

  /** What a submessage is merged into holds a message of its type. */
  lemma BaseFits(fields: seq<Field>, a: seq<Slot>, i: nat)
    requires ValidSchema(fields) && FitsMessage(fields, a) && i < |fields| && fields[i].ltype.Submessage?
             && !fields[i].htype.Repeated?
    ensures var f, x := fields[i], Get(a, Home(fields, i));
            FitsMessage(f.ltype.fields, AsSlots(if f.htype.Oneof? then UnionBase(f, x) else ValueOf(x)))
  {
    assert FitsSlot(fields[i], Get(a, Home(fields, i))) && ValidField(fields[i]);
    StartFits(fields[i], Get(a, Home(fields, i)));
  }

  /** The array at `i`, when its turn comes: what it holds, and whether it clashes with what came before. */
  lemma ArrayTurn(fields: seq<Field>, a: seq<Slot>, b: seq<Slot>, seen: Progress, i: nat)
    requires ValidSchema(fields) && FitsMessage(fields, a) && WfMessage(fields, b) && Resumable(fields, a, seen)
    requires i < |fields| && fields[i].htype.Repeated? && Items(Get(b, i)) != []
    ensures var done := if FixedCount(fields[i]) && !Clash(fields, seen, i) then [] else Items(Get(a, i));
            var cur := Partial(fields, a, b, i);
            && Holding(fields, i, cur, SeenFrom(fields, seen, i), done)
            && WfSlot(fields[i], Rep(Items(Get(b, i)))) && Get(b, i) == Rep(Items(Get(b, i)))
            && (|done| + |Items(Get(b, i))| <= fields[i].arraySize <==> RoomAt(fields, a, b, i) && !Clash(fields, seen, i))
            && (RoomAt(fields, a, b, i) && !Clash(fields, seen, i) ==>
                  MergeAt(fields, a, b, i) == Rep(done + CanonItems(fields[i], Items(Get(b, i)))))
  {
    HomeIdempotent(fields, i);
    assert FitsSlot(fields[i], Get(a, Home(fields, i))) && WfSlot(fields[i], Get(b, Home(fields, i)));
    PartialFull(fields, a, b, seen, i);
    PartialStep(fields, a, b, i);
    hide ValidSchema, FitsMessage, WfMessage, Fits, WfValue, CanonItems, Partial, RequiredUpTo;
  }

  /** What the loop remembers once field `i` has been decoded. */
  lemma SeenNext(fields: seq<Field>, seen: Progress, i: nat)
    requires i < |fields|
    ensures var s := SeenFrom(fields, seen, i); var s' := SeenFrom(fields, seen, i + 1);
            && (fields[i].htype.Required? || (FixedCount(fields[i]) && fields[i].arraySize > 0) ==> See(fields, s, i) == s')
            && (!fields[i].htype.Required? && !FixedCount(fields[i]) ==> See(fields, s, i) == s == s')
            && (FixedCount(fields[i]) && fields[i].arraySize == 0 ==> s == s')
  {
    assert RequiredUpTo(fields, i + 1) == RequiredUpTo(fields, i) + (if fields[i].htype.Required? then {i} else {});
    assert seen.required + (RequiredUpTo(fields, i) + {i}) == seen.required + RequiredUpTo(fields, i) + {i};
    hide RequiredUpTo;
  }

  /** A field that is not written changes nothing. */
  lemma AbsentField(fields: seq<Field>, a: seq<Slot>, b: seq<Slot>, i: nat)
    requires WfMessage(fields, b) && i < |fields|
    requires if fields[i].htype.Repeated? then Items(Get(b, i)) == [] else !IsPresent(fields[i], Get(b, Home(fields, i)))
    ensures !fields[i].htype.Required? && (FixedCount(fields[i]) ==> fields[i].arraySize == 0)
    ensures Partial(fields, a, b, i + 1) == Partial(fields, a, b, i)
    ensures RoomAt(fields, a, b, i)
    ensures var e := EncField(fields[i], Get(b, Home(fields, i))); e == EMPTY
  {
    var h, f := Home(fields, i), fields[i];
    PartialStep(fields, a, b, i);
    HomeIdempotent(fields, i);
    assert WfSlot(f, Get(b, h));
    hide MergeValue, WfValue, IsProto3Default;
    if Owns(fields, b, i) {
      assert !f.htype.Oneof?;
      assert MergeAt(fields, a, b, i) == Get(a, i);
    }
  }

  lemma {:induction false} FieldMerges(fields: seq<Field>, a: seq<Slot>, b: seq<Slot>, seen: Progress, i: nat, t: seq<byte>)
    requires ValidSchema(fields) && FitsMessage(fields, a) && WfMessage(fields, b) && Resumable(fields, a, seen) && i < |fields|
    ensures var e := EncField(fields[i], Get(b, Home(fields, i)));
            && e.ok
            && DecLoop(fields, Partial(fields, a, b, i), SeenFrom(fields, seen, i), e.bytes + t) ==
               if RoomAt(fields, a, b, i) && !Clash(fields, seen, i)
               then DecLoop(fields, Partial(fields, a, b, i + 1), SeenFrom(fields, seen, i + 1), t) else LoopFail
    decreases fields, 2
  {
    var h, f := Home(fields, i), fields[i];
    var cur, at := Partial(fields, a, b, i), SeenFrom(fields, seen, i);
    HomeIdempotent(fields, i);
    SeenNext(fields, seen, i);
    PartialStep(fields, a, b, i);
    assert |b| == |fields|;
    hide DecLoop, ValidSchema, WfMessage, FitsMessage, Partial, MergeAt, RoomAt, EncArray, EncValue, SeenFrom, Resumable, Holding, WfSlot, CanonItems, IsPresent;
    if f.htype.Repeated? && Items(Get(b, i)) != [] {
      ArrayTurn(fields, a, b, seen, i);
      var done := if FixedCount(f) && !Clash(fields, seen, i) then [] else Items(Get(a, i));
      ArrayMerges(fields, i, cur, at, done, Items(Get(b, i)), t);
    } else if !f.htype.Repeated? && IsPresent(f, b[h]) {
      PresentMerges(fields, a, b, i, cur, at, t);
    } else {
      AbsentField(fields, a, b, i);
      assert [] + t == t;
    }
  }

  /** The fields from `i` on are merged exactly when there is room for each and none clashes. */
  predicate FreeFrom(fields: seq<Field>, a: seq<Slot>, b: seq<Slot>, seen: Progress, i: nat) {
    forall k :: i <= k < |fields| ==> RoomAt(fields, a, b, k) && !Clash(fields, seen, k)
  }

  lemma {:induction false} FieldsMerge(fields: seq<Field>, a: seq<Slot>, b: seq<Slot>, seen: Progress, i: nat, t: seq<byte>)
    requires ValidSchema(fields) && FitsMessage(fields, a) && WfMessage(fields, b) && Resumable(fields, a, seen) && i <= |fields|
    ensures EncFrom(fields, b, i).ok
    ensures DecLoop(fields, Partial(fields, a, b, i), SeenFrom(fields, seen, i), EncFrom(fields, b, i).bytes + t) ==
            if FreeFrom(fields, a, b, seen, i)
            then DecLoop(fields, Merge(fields, a, b), SeenFrom(fields, seen, |fields|), t) else LoopFail
    decreases fields, 3, |fields| - i
  {
    if i == |fields| {
      assert |a| == |fields|;
      PartialEnds(fields, a, b, seen);
      hide DecLoop, ValidSchema, FitsMessage, WfMessage, Partial, Merge, SeenFrom;
      assert EncFrom(fields, b, i).bytes + t == t;
    } else {
      hide DecLoop, EncField, EncFrom, Merge, Partial, ValidSchema, FitsMessage, WfMessage, SeenFrom, RoomAt, Clash, Resumable, FreeFrom, Get;
      FieldsMerge(fields, a, b, seen, i + 1, t);
      FieldMerges(fields, a, b, seen, i, EncFrom(fields, b, i + 1).bytes + t);
      FieldThenOthers(fields, b, i, t);
      FreeStep(fields, a, b, seen, i);
    }
  }

  lemma FieldThenOthers(fields: seq<Field>, b: seq<Slot>, i: nat, t: seq<byte>)
    requires i < |fields| && EncField(fields[i], Get(b, Home(fields, i))).ok
    ensures EncFrom(fields, b, i).ok == EncFrom(fields, b, i + 1).ok
    ensures EncFrom(fields, b, i).bytes + t ==
            EncField(fields[i], Get(b, Home(fields, i))).bytes + (EncFrom(fields, b, i + 1).bytes + t)
  {
    hide EncField;
  }

  lemma FreeStep(fields: seq<Field>, a: seq<Slot>, b: seq<Slot>, seen: Progress, i: nat)
    requires i < |fields|
    ensures FreeFrom(fields, a, b, seen, i) <==>
            RoomAt(fields, a, b, i) && !Clash(fields, seen, i) && FreeFrom(fields, a, b, seen, i + 1)
  {
    hide RoomAt, Clash;
  }

  /** No array without a count that was met last before is the first to arrive. */
  predicate NoClash(fields: seq<Field>, seen: Progress) {
    forall i :: 0 <= i < |fields| ==> !Clash(fields, seen, i)
  }

  /** The field loop on an encoding, wherever it is taken up: it merges exactly when there is room and no clash. */
  lemma {:induction false} LoopMerges(fields: seq<Field>, a: seq<Slot>, b: seq<Slot>, seen: Progress, t: seq<byte>)
    requires ValidSchema(fields) && FitsMessage(fields, a) && WfMessage(fields, b) && Resumable(fields, a, seen)
    ensures EncMessage(fields, b).ok
    ensures DecLoop(fields, a, seen, EncMessage(fields, b).bytes + t) ==
            if Room(fields, a, b) && NoClash(fields, seen)
            then DecLoop(fields, Merge(fields, a, b), SeenFrom(fields, seen, |fields|), t) else LoopFail
    decreases fields, 4
  {
    assert |a| == |fields|;
    PartialEnds(fields, a, b, seen);
    hide ValidSchema, FitsMessage, WfMessage, EncFrom, Merge, Partial, RoomAt, Clash, DecLoop, Resumable, SeenFrom;
    FieldsMerge(fields, a, b, seen, 0, t);
    assert Room(fields, a, b) && NoClash(fields, seen) <==> FreeFrom(fields, a, b, seen, 0);
  }

  /** Afterwards every required field has been met, and the array without a count met last is full. */
  lemma MergedComplete(fields: seq<Field>, a: seq<Slot>, b: seq<Slot>, seen: Progress)
    requires ValidSchema(fields) && WfMessage(fields, b) && |a| == |fields| && Resumable(fields, a, seen)
    ensures var s := SeenFrom(fields, seen, |fields|);
            FixedFull(fields, Merge(fields, a, b), s) && AllRequiredSeen(fields, s.required)
  {
    PartialEnds(fields, a, b, seen);
    PartialFull(fields, a, b, seen, |fields|);
    hide Merge, Partial, FixedFull, LastFixed, ValidSchema, WfMessage;
  }

  /** Decoding an encoding into a message merges exactly when there is room, and fails otherwise. */
  lemma {:induction false} MessageMerges(fields: seq<Field>, a: seq<Slot>, b: seq<Slot>)
    requires ValidSchema(fields) && FitsMessage(fields, a) && WfMessage(fields, b)
    ensures EncMessage(fields, b).ok
    ensures DecNoinit(fields, a, EncMessage(fields, b).bytes) ==
            if Room(fields, a, b) then Done(Merge(fields, a, b), []) else Fail
    decreases fields, 5
  {
    var e := EncMessage(fields, b).bytes;
    assert |a| == |fields|;
    assert Resumable(fields, a, UNSEEN);
    MergedComplete(fields, a, b, UNSEEN);
    LoopMerges(fields, a, b, UNSEEN, []);
    hide ValidSchema, FitsMessage, WfMessage, EncMessage, Merge, Room, FixedFull, AllRequiredSeen, SeenFrom;
    assert e + [] == e;
  }

  /**
    The round trip. Every well-formed message of every valid description is encoded without error, and
    decoding the bytes succeeds, reads all of them, and yields the message with absent fields at their defaults.
   */
  lemma MessageRoundTrip(fields: seq<Field>, slots: seq<Slot>)
    requires ValidSchema(fields) && WfMessage(fields, slots)
    ensures EncMessage(fields, slots).ok
    ensures DecNoinit(fields, Defaults(fields), EncMessage(fields, slots).bytes) == Done(Canon(fields, slots), [])
  {
    DefaultsFit(fields);
    MergeIntoDefaults(fields, slots);
    MessageMerges(fields, Defaults(fields), slots);
    hide ValidSchema, FitsMessage, WfMessage, EncMessage, DecNoinit, Merge, Canon, Room, Defaults;
  }

  // ----- Two encodings, one behind the other -----

  /** Exactly one array without a count has any entries. */
  predicate OneFixedArray(fields: seq<Field>) {
    exists j :: 0 <= j < |fields| && FixedCount(fields[j]) && fields[j].arraySize > 0
      && forall k :: 0 <= k < |fields| && k != j && FixedCount(fields[k]) ==> fields[k].arraySize == 0
  }

  lemma LastFixedLast(fields: seq<Field>, i: nat, n: nat)
    requires i < n <= |fields| && FixedCount(fields[i]) && fields[i].arraySize > 0
    ensures LastFixed(fields, n).Some? && LastFixed(fields, n).value >= i
  {
    if i < n - 1 { LastFixedLast(fields, i, n - 1); }
  }

  /** A second message clashes with the first exactly when there is just one array without a count. */
  lemma ClashExactly(fields: seq<Field>)
    ensures NoClash(fields, SeenFrom(fields, UNSEEN, |fields|)) <==> !OneFixedArray(fields)
  {
    var seen := SeenFrom(fields, UNSEEN, |fields|);
    if OneFixedArray(fields) {
      var j :| 0 <= j < |fields| && FixedCount(fields[j]) && fields[j].arraySize > 0
        && forall k :: 0 <= k < |fields| && k != j && FixedCount(fields[k]) ==> fields[k].arraySize == 0;
      LastFixedLast(fields, j, |fields|);
      assert Clash(fields, seen, j);
    }
    if !NoClash(fields, seen) {
      var j :| 0 <= j < |fields| && Clash(fields, seen, j);
      forall k | 0 <= k < |fields| && k != j && FixedCount(fields[k]) ensures fields[k].arraySize == 0 {
        if k > j && fields[k].arraySize > 0 { LastFixedLast(fields, k, |fields|); }
      }
    }
  }

  /** After a whole message from the defaults, the array without a count met last is full. */
  lemma CanonResumable(fields: seq<Field>, a: seq<Slot>)
    requires ValidSchema(fields) && WfMessage(fields, a)
    ensures Resumable(fields, Canon(fields, a), SeenFrom(fields, UNSEEN, |fields|))
  {
    DefaultsFit(fields);
    MergeIntoDefaults(fields, a);
    MergedComplete(fields, Defaults(fields), a, UNSEEN);
    var last := LastFixed(fields, |fields|);
    if last.Some? { HomeIdempotent(fields, last.value); }
    hide ValidSchema, FitsMessage, WfMessage, Merge, Canon, Room;
  }

  /**
    Decoding two encodings one behind the other gives the second message merged into the first, exactly when the
    counts together fit their arrays at every depth and the description does not have just one array without a
    count; otherwise it fails.
   */
  lemma EncodingsConcatenate(fields: seq<Field>, a: seq<Slot>, b: seq<Slot>)
    requires ValidSchema(fields) && WfMessage(fields, a) && WfMessage(fields, b)
    ensures var first := Canon(fields, a);
            DecMessage(fields, EncMessage(fields, a).bytes + EncMessage(fields, b).bytes) ==
            if Room(fields, first, b) && !OneFixedArray(fields) then Done(Merge(fields, first, b), []) else Fail
  {
    hide ValidSchema, FitsMessage, WfMessage, EncMessage, DecLoop, Merge, Canon, Room, Resumable, NoClash, SeenFrom, FixedFull, AllRequiredSeen, OneFixedArray, Defaults;
    var initial, e, seen := Defaults(fields), EncMessage(fields, b).bytes, SeenFrom(fields, UNSEEN, |fields|);
    DefaultsFit(fields);
    MergeIntoDefaults(fields, a);
    NothingResumed(fields, initial);
    LoopMerges(fields, initial, a, UNSEEN, e);
    MessageRoundTrip(fields, a);
    DecodedFits(fields, EncMessage(fields, a).bytes);
    CanonResumable(fields, a);
    LoopMerges(fields, Canon(fields, a), b, seen, []);
    MergedComplete(fields, Canon(fields, a), b, seen);
    ClashExactly(fields);
    EndOfInput(fields, Merge(fields, Canon(fields, a), b), SeenFrom(fields, seen, |fields|));
    assert e + [] == e;
  }

  lemma EndOfInput(fields: seq<Field>, slots: seq<Slot>, seen: Progress)
    ensures DecLoop(fields, slots, seen, []) == LoopDone(slots, seen, [], false)
  {
  }

  lemma NothingResumed(fields: seq<Field>, a: seq<Slot>)
    ensures Resumable(fields, a, UNSEEN) && NoClash(fields, UNSEEN)
  {
  }

  /** A message with one array of two entries and no count, which cannot be sent twice. */
  lemma FixedArrayTwice()
    ensures var fields, slots := [Field(1, Repeated, Bool, 0, 0, 1, 2, None)], [Rep([VBool(true), VBool(false)])];
            && ValidSchema(fields) && WfMessage(fields, slots)
            && DecMessage(fields, EncMessage(fields, slots).bytes).Done?
            && DecMessage(fields, EncMessage(fields, slots).bytes + EncMessage(fields, slots).bytes) == Fail
  {
    var f := Field(1, Repeated, Bool, 0, 0, 1, 2, None);
    var items := [VBool(true), VBool(false)];
    assert EncItems(f, items[1..]).bytes == EncVarint(0) + [] && EncItems(f, items).bytes == EncVarint(1) + (EncVarint(0) + []) by {
      assert items[1..] == [VBool(false)] && items[1..][1..] == [];
    }
    assert |EncItems(f, items).bytes| == 2;
    assert OneFixedArray([f]) by { assert FixedCount([f][0]); }
    hide EncItems, EncMessage, DecMessage, Canon, Merge, Room, OneFixedArray;
    MessageRoundTrip([f], [Rep(items)]);
    EncodingsConcatenate([f], [Rep(items)], [Rep(items)]);
  }

  /** An array with room for one entry, which cannot be sent twice either. */
  lemma FullArrayTwice()
    ensures var fields, slots := [Field(1, Repeated, Bool, 0, 4, 1, 1, None)], [Rep([VBool(true)])];
            && ValidSchema(fields) && WfMessage(fields, slots)
            && DecMessage(fields, EncMessage(fields, slots).bytes).Done?
            && DecMessage(fields, EncMessage(fields, slots).bytes + EncMessage(fields, slots).bytes) == Fail
  {
    var f, items := Field(1, Repeated, Bool, 0, 4, 1, 1, None), [VBool(true)];
    assert items[1..] == [];
    assert EncItems(f, items).bytes == EncVarint(1) + [];
    assert !RoomAt([f], Canon([f], [Rep(items)]), [Rep(items)], 0);
    hide EncItems, EncMessage, DecMessage, Canon, Merge, RoomAt, OneFixedArray;
    MessageRoundTrip([f], [Rep(items)]);
    EncodingsConcatenate([f], [Rep(items)], [Rep(items)]);
  }
}

/**
  What decoding an encoding into a message that already holds something makes of it: singular fields are
  replaced, submessages merged, arrays appended to, and unions switched, as long as everything fits.
 */
module MergedMessages {
  import opened Schema
  import opened Encoding
  import opened Decoding
  import opened Messages

  // ----- The merge of two messages -----

  function MergeValue(f: Field, base: Value, v: Value): Value
    decreases f, 0
  {
    if f.ltype.Submessage? then VMsg(Merge(f.ltype.fields, AsSlots(base), AsSlots(v))) else v
  }

  /** The slot at position `p` of `a` after `b` has been merged into it. */
  function MergeAt(fields: seq<Field>, a: seq<Slot>, b: seq<Slot>, p: nat): Slot
    requires p < |fields|
    decreases fields, 0
  {
    var f, x, y := fields[p], Get(a, p), Get(b, p);
    match f.htype
    case Required => One(MergeValue(f, ValueOf(x), ValueOf(y)))
    case Optional =>
      if !IsPresent(f, y) then x
      else if f.sizeOffset != 0 then Opt(true, MergeValue(f, ValueOf(x), ValueOf(y)))
      else One(MergeValue(f, ValueOf(x), ValueOf(y)))
    case Repeated =>
      if Items(y) == [] then x
      else Rep((if FixedCount(f) then [] else Items(x)) + CanonItems(f, Items(y)))
    case Oneof =>
      match ActiveMember(fields, b, p)
      case Some(m) => Union(fields[m].tag, MergeValue(fields[m], UnionBase(fields[m], x), ValueOf(y)))
      case None => x
  }

  function Merge(fields: seq<Field>, a: seq<Slot>, b: seq<Slot>): (r: seq<Slot>)
    ensures |r| == |fields|
    decreases fields, 1
  {
    seq(|fields|, p requires 0 <= p < |fields| => MergeAt(fields, a, b, p))
  }

  // ----- Whether there is room -----

  predicate RoomForValue(f: Field, base: Value, v: Value)
    decreases f, 0
  {
    f.ltype.Submessage? ==> Room(f.ltype.fields, AsSlots(base), AsSlots(v))
  }

  /** What field `i` of `b` brings fits behind what `a` holds. */
  predicate RoomAt(fields: seq<Field>, a: seq<Slot>, b: seq<Slot>, i: nat)
    requires i < |fields|
    decreases fields, 0
  {
    var f, x, y := fields[i], Get(a, Home(fields, i)), Get(b, Home(fields, i));
    match f.htype
    case Required => RoomForValue(f, ValueOf(x), ValueOf(y))
    case Optional => IsPresent(f, y) ==> RoomForValue(f, ValueOf(x), ValueOf(y))
    case Repeated => FixedCount(f) || Items(y) == [] || |Items(x)| + |Items(y)| <= f.arraySize
    case Oneof => Which(y) == f.tag ==> RoomForValue(f, UnionBase(f, x), ValueOf(y))
  }

  /** The counts of `a` and `b` together fit their arrays, in the messages and in the submessages that are merged. */
  predicate Room(fields: seq<Field>, a: seq<Slot>, b: seq<Slot>)
    decreases fields, 1
  {
    forall i :: 0 <= i < |fields| ==> RoomAt(fields, a, b, i)
  }

  // ----- Merging into the defaults -----

  /** A singular field that is not written is already equal to its default. */
  lemma {:induction false} Proto3DefaultCanon(f: Field, s: Slot)
    requires ValidField(f) && WfSlot(f, s) && IsProto3Default(f, s)
    requires f.htype.Optional? && f.sizeOffset == 0
    ensures CanonValue(f, s.v) == InitValue(f)
    decreases f, 0
  {
    if f.ltype.Submessage? {
      var sub, slots := f.ltype.fields, s.v.slots;
      forall p | 0 <= p < |sub|
        ensures CanonAt(sub, slots, p) == DefaultSlot(sub[p])
      {
        DefaultFieldCanon(sub, slots, p);
      }
      assert Canon(sub, slots) == Defaults(sub);
    }
  }

  lemma {:induction false} DefaultFieldCanon(fields: seq<Field>, slots: seq<Slot>, p: nat)
    requires ValidSchema(fields) && WfMessage(fields, slots) && p < |fields|
    requires IsProto3Default(fields[p], Get(slots, Home(fields, p)))
    requires forall i :: 0 <= i < |fields| ==> IsProto3Default(fields[i], Get(slots, Home(fields, i)))
    ensures CanonAt(fields, slots, p) == DefaultSlot(fields[p])
    decreases fields, 1
  {
    var f := fields[p];
    assert ValidField(f) && WfSlot(f, Get(slots, Home(fields, p)));
    HomeIdempotent(fields, p);
    match f.htype {
      case Required =>
      case Repeated =>
      case Optional =>
        if f.sizeOffset == 0 { Proto3DefaultCanon(f, slots[p]); }
      case Oneof =>
        if Home(fields, p) == p {
          forall m | 0 <= m < |fields| ensures fields[m].tag != 0 { assert ValidField(fields[m]); }
        } else {
          forall m | 0 <= m < |fields| ensures Home(fields, m) != p { HomeIdempotent(fields, m); }
        }
        assert ActiveMember(fields, slots, p).None?;
    }
  }

  /** Merging a message into the defaults gives the message, and there is always room. */
  lemma {:induction false} MergeIntoDefaults(fields: seq<Field>, b: seq<Slot>)
    requires ValidSchema(fields) && WfMessage(fields, b)
    ensures Merge(fields, Defaults(fields), b) == Canon(fields, b) && Room(fields, Defaults(fields), b)
    decreases fields, 2
  {
    forall p | 0 <= p < |fields|
      ensures MergeAt(fields, Defaults(fields), b, p) == CanonAt(fields, b, p) && RoomAt(fields, Defaults(fields), b, p)
    {
      MergeAtDefault(fields, b, p);
    }
  }

  lemma {:induction false} MergeIntoDefault(f: Field, base: Value, v: Value)
    requires ValidField(f) && WfValue(f, v) && (f.ltype.Submessage? ==> base == VMsg(Defaults(f.ltype.fields)))
    ensures MergeValue(f, base, v) == CanonValue(f, v) && RoomForValue(f, base, v)
    decreases f, 0
  {
    if f.ltype.Submessage? { MergeIntoDefaults(f.ltype.fields, AsSlots(v)); }
  }

  lemma {:induction false} MergeAtDefault(fields: seq<Field>, b: seq<Slot>, p: nat)
    requires ValidSchema(fields) && WfMessage(fields, b) && p < |fields|
    ensures MergeAt(fields, Defaults(fields), b, p) == CanonAt(fields, b, p) && RoomAt(fields, Defaults(fields), b, p)
    decreases fields, 1
  {
    var f, y := fields[p], Get(b, Home(fields, p));
    HomeIdempotent(fields, p);
    assert ValidField(f) && WfSlot(f, y);
    hide MergeValue, CanonValue, RoomForValue, WfValue, ValidField;
    match f.htype {
      case Required => MergeIntoDefault(f, InitValue(f), ValueOf(y));
      case Optional =>
        if IsPresent(f, y) {
          MergeIntoDefault(f, InitValue(f), ValueOf(y));
        } else if f.sizeOffset == 0 {
          Proto3DefaultCanon(f, y);
        }
      case Repeated => assert [] + CanonItems(f, Items(y)) == CanonItems(f, Items(y));
      case Oneof => MergeMemberDefault(fields, b, p);
    }
  }

  lemma {:induction false} MergeMemberDefault(fields: seq<Field>, b: seq<Slot>, p: nat)
    requires ValidSchema(fields) && WfMessage(fields, b) && p < |fields| && fields[p].htype.Oneof?
    ensures MergeAt(fields, Defaults(fields), b, p) == CanonAt(fields, b, p) && RoomAt(fields, Defaults(fields), b, p)
    decreases fields, 0
  {
    HomeIdempotent(fields, p);
    var h, f := Home(fields, p), fields[p];
    assert ValidField(f) && WfSlot(f, Get(b, h));
    assert Get(Defaults(fields), h) == Union(0, VNone);
    if Which(Get(b, h)) == f.tag {
      MergeIntoDefault(f, UnionBase(f, Union(0, VNone)), ValueOf(Get(b, h)));
    }
    var m := ActiveMember(fields, b, p);
    if m.Some? {
      var g := fields[m.value];
      assert Home(fields, m.value) == p && ValidField(g) && WfSlot(g, Get(b, Home(fields, m.value)));
      MergeIntoDefault(g, UnionBase(g, Union(0, VNone)), ValueOf(Get(b, p)));
    }
    hide MergeValue, CanonValue, RoomForValue, WfValue, ValidField;
  }
}

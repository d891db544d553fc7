/**
  Which fields a stream brings, and what that decides: exactly which streams are accepted, and which members keep
  what they held.
 */
module FieldsMet {
  import opened Options
  import opened Bits
  import opened Wire
  import opened Scalars
  import opened Schema
  import opened Decoding
  import opened InitialContents

  /** The tags that the field loop reads, in order, up to the field that it stops at. */
  function TagsMet(fields: seq<Field>, slots: seq<Slot>, seen: Progress, bs: seq<byte>): seq<nat>
    decreases |bs|
  {
    if bs == [] then []
    else
      match LoopRound(fields, slots, seen, bs)
      case Next(slots', seen', rest) => [DecTag(bs).tag] + TagsMet(fields, slots', seen', rest)
      case _ => []
  }

  lemma TagsUnfold(fields: seq<Field>, slots: seq<Slot>, seen: Progress, bs: seq<byte>)
    requires bs != [] && LoopRound(fields, slots, seen, bs).Next?
    ensures DecTag(bs).Tag?
    ensures var n := LoopRound(fields, slots, seen, bs);
            && (forall tag :: tag in TagsMet(fields, slots, seen, bs) <==>
                  tag == DecTag(bs).tag || tag in TagsMet(fields, n.slots, n.seen, n.rest))
            && DecLoop(fields, slots, seen, bs) == DecLoop(fields, n.slots, n.seen, n.rest)
  {
    LoopUnfold(fields, slots, seen, bs);
    var n := LoopRound(fields, slots, seen, bs);
    assert TagsMet(fields, slots, seen, bs) == [DecTag(bs).tag] + TagsMet(fields, n.slots, n.seen, n.rest);
    hide DecLoop, TagsMet, DecField, DecUnknown, Find, MayBegin, Current;
  }

  // ----- One round -----

  /** What a round does to the slots and to what is remembered, told by the tag that it reads. */
  lemma RoundByTag(fields: seq<Field>, slots: seq<Slot>, seen: Progress, bs: seq<byte>)
    requires ValidSchema(fields) && bs != [] && LoopRound(fields, slots, seen, bs).Next?
    ensures var n, tag := LoopRound(fields, slots, seen, bs), DecTag(bs).tag;
            if exists j :: 0 <= j < |fields| && fields[j].tag == tag then
              var j := Find(fields, tag).value;
              && Find(fields, tag).Some? && MayBegin(fields, slots, seen, j)
              && n.seen == See(fields, seen, j)
              && exists s :: n.slots == Put(slots, Home(fields, j), s) && (fields[j].htype.Repeated? ==> s.Rep?)
            else n.slots == slots && n.seen == seen
  {
    hide DecUnknown, MayBegin, Current, See, Home, DecValue, Substream, DecPacked;
    var tag := DecTag(bs);
    var i := Find(fields, tag.tag);
    hide DecTag, Find;
    if i.Some? {
      var d := DecField(fields[i.value], tag.wireType, Current(fields, slots, seen, i.value), tag.rest);
      assert LoopRound(fields, slots, seen, bs).slots == Put(slots, Home(fields, i.value), d.value);
    }
  }

  /** The round as it looks to the field at `i`: either its own tag is read, or another field, or none. */
  lemma {:induction false} RoundFor(fields: seq<Field>, slots: seq<Slot>, seen: Progress, bs: seq<byte>, i: nat)
    requires ValidSchema(fields) && i < |fields| && bs != [] && LoopRound(fields, slots, seen, bs).Next?
    ensures var n := LoopRound(fields, slots, seen, bs);
            || (n.slots == slots && n.seen == seen && DecTag(bs).tag != fields[i].tag)
            || exists j, s ::
                 && 0 <= j < |fields| && (j == i <==> DecTag(bs).tag == fields[i].tag)
                 && MayBegin(fields, slots, seen, j)
                 && n.slots == Put(slots, Home(fields, j), s) && n.seen == See(fields, seen, j)
  {
    RoundByTag(fields, slots, seen, bs);
    hide LoopRound, DecTag, Find, MayBegin, See, Home, Put, ValidField;
    var tag := DecTag(bs).tag;
    if exists j :: 0 <= j < |fields| && fields[j].tag == tag {
      var j := Find(fields, tag).value;
      assert fields[j].tag == tag;
    }
  }

  // ----- Required fields -----

  /** The loop has met exactly the required fields whose tags it has read. */
  lemma {:induction false} RequiredMet(fields: seq<Field>, slots: seq<Slot>, seen: Progress, bs: seq<byte>, i: nat)
    requires ValidSchema(fields) && i < |fields| && DecLoop(fields, slots, seen, bs).LoopDone?
    ensures i in DecLoop(fields, slots, seen, bs).seen.required <==>
            i in seen.required || (fields[i].htype.Required? && fields[i].tag in TagsMet(fields, slots, seen, bs))
    decreases |bs|
  {
    if bs != [] {
      var n := LoopRound(fields, slots, seen, bs);
      LoopUnfold(fields, slots, seen, bs);
      if n.Next? {
        TagsUnfold(fields, slots, seen, bs);
        RoundFor(fields, slots, seen, bs, i);
        hide DecLoop, TagsMet, LoopRound, DecTag, MayBegin, Home, Put, ValidSchema;
        RequiredMet(fields, n.slots, n.seen, n.rest, i);
      }
    }
  }

  // ----- Members that nothing was decoded into -----

  /** A slot keeps what it held when no tag of a field that uses it is read. */
  lemma {:induction false} UnmetKept(fields: seq<Field>, slots: seq<Slot>, seen: Progress, bs: seq<byte>, p: nat)
    requires ValidSchema(fields) && p < |fields| == |slots| && DecLoop(fields, slots, seen, bs).LoopDone?
    requires forall j :: 0 <= j < |fields| && Home(fields, j) == p ==> fields[j].tag !in TagsMet(fields, slots, seen, bs)
    ensures var r := DecLoop(fields, slots, seen, bs); |r.slots| == |fields| && r.slots[p] == slots[p]
    decreases |bs|
  {
    if bs != [] {
      var n := LoopRound(fields, slots, seen, bs);
      LoopUnfold(fields, slots, seen, bs);
      if n.Next? {
        TagsUnfold(fields, slots, seen, bs);
        RoundByTag(fields, slots, seen, bs);
        hide DecLoop, TagsMet, LoopRound, DecTag, MayBegin, See, Home, ValidSchema, Find;
        UnmetKept(fields, n.slots, n.seen, n.rest, p);
      }
    }
  }

  /** A message decoded from scratch has its initial contents wherever the stream brought nothing. */
  lemma {:induction false} UnmetInitial(fields: seq<Field>, bs: seq<byte>, p: nat)
    requires ValidSchema(fields) && p < |fields| && DecMessage(fields, bs).Done?
    requires forall j :: 0 <= j < |fields| && Home(fields, j) == p ==>
               fields[j].tag !in TagsMet(fields, Defaults(fields), UNSEEN, bs)
    ensures p < |DecMessage(fields, bs).value| && IsInitialSlot(fields[p], DecMessage(fields, bs).value[p])
  {
    hide DecLoop, TagsMet, ValidSchema, AllRequiredSeen, FixedFull;
    UnmetKept(fields, Defaults(fields), UNSEEN, bs, p);
    DefaultsInitial(fields);
    hide Defaults;
  }

  // ----- Arrays without a count -----

  predicate Full(fields: seq<Field>, slots: seq<Slot>, i: nat)
    requires i < |fields|
  {
    |Items(Get(slots, i))| == fields[i].arraySize
  }

  /** An array without a count that was met is the last such array, or is full; `met` says whether it was met before. */
  predicate Accounted(fields: seq<Field>, slots: seq<Slot>, seen: Progress, i: nat, met: bool)
    requires i < |fields|
  {
    && (seen.fixed == Some(i) ==> met && FixedCount(fields[i]))
    && (met && FixedCount(fields[i]) ==> seen.fixed == Some(i) || Full(fields, slots, i))
  }

  lemma {:induction false} RoundAccounted(fields: seq<Field>, slots: seq<Slot>, seen: Progress, i: nat, met: bool, j: nat, s: Slot)
    requires i < |fields| && j < |fields| && Accounted(fields, slots, seen, i, met) && MayBegin(fields, slots, seen, j)
    ensures Accounted(fields, Put(slots, Home(fields, j), s), See(fields, seen, j), i, met || j == i)
  {
    HomeIdempotent(fields, i);
    HomeIdempotent(fields, j);
    if i < j && Home(fields, i) == Home(fields, j) { HomeShared(fields, i, j); }
    if j < i && Home(fields, i) == Home(fields, j) { HomeShared(fields, j, i); }
    hide Home;
  }

  lemma {:induction false} FixedMet(fields: seq<Field>, slots: seq<Slot>, seen: Progress, bs: seq<byte>, i: nat, met: bool)
    requires ValidSchema(fields) && i < |fields| && DecLoop(fields, slots, seen, bs).LoopDone?
    requires Accounted(fields, slots, seen, i, met)
    ensures var r := DecLoop(fields, slots, seen, bs);
            Accounted(fields, r.slots, r.seen, i, met || fields[i].tag in TagsMet(fields, slots, seen, bs))
    decreases |bs|
  {
    if bs != [] {
      var n := LoopRound(fields, slots, seen, bs);
      LoopUnfold(fields, slots, seen, bs);
      if n.Next? {
        TagsUnfold(fields, slots, seen, bs);
        RoundFor(fields, slots, seen, bs, i);
        hide DecLoop, TagsMet, LoopRound, DecTag, ValidSchema, Accounted;
        var own := DecTag(bs).tag == fields[i].tag;
        if n.slots != slots || n.seen != seen || own {
          var j, s :| 0 <= j < |fields| && (j == i <==> own) && MayBegin(fields, slots, seen, j)
                      && n.slots == Put(slots, Home(fields, j), s) && n.seen == See(fields, seen, j);
          RoundAccounted(fields, slots, seen, i, met, j, s);
        }
        FixedMet(fields, n.slots, n.seen, n.rest, i, met || own);
      }
    }
  }

  /** The positions of the required fields before position `i`. */
  function RequiredPositions(fields: seq<Field>, i: nat): set<nat>
    requires i <= |fields|
  {
    set k | 0 <= k < i && fields[k].htype.Required?
  }

  lemma {:induction false} RequiredCounted(fields: seq<Field>, i: nat)
    requires i <= |fields|
    ensures RequiredBefore(fields, i) == |RequiredPositions(fields, i)|
  {
    if i == 0 {
      assert RequiredPositions(fields, i) == {};
    } else {
      RequiredCounted(fields, i - 1);
      assert RequiredPositions(fields, i) ==
             RequiredPositions(fields, i - 1) + (if fields[i - 1].htype.Required? then {i - 1} else {});
    }
  }

  /**
    Exactly which streams a message accepts: the field loop gets through, each of the first 64 required fields has
    occurred, and each array without a count that has occurred has all its entries.
   */
  lemma {:induction false} AcceptedExactly(fields: seq<Field>, slots: seq<Slot>, bs: seq<byte>)
    requires ValidSchema(fields)
    ensures var r, met := DecLoop(fields, slots, UNSEEN, bs), TagsMet(fields, slots, UNSEEN, bs);
            DecNoinit(fields, slots, bs).Done? <==>
            && r.LoopDone?
            && (forall i :: 0 <= i < |fields| && fields[i].htype.Required? && |RequiredPositions(fields, i)| < 64 ==> fields[i].tag in met)
            && (forall i :: 0 <= i < |fields| && FixedCount(fields[i]) && fields[i].tag in met ==>
                  |Items(Get(r.slots, i))| == fields[i].arraySize)
  {
    var r, met := DecLoop(fields, slots, UNSEEN, bs), TagsMet(fields, slots, UNSEEN, bs);
    if r.LoopDone? {
      hide DecLoop, TagsMet, ValidSchema;
      forall i | 0 <= i < |fields|
        ensures i in r.seen.required <==> fields[i].htype.Required? && fields[i].tag in met
        ensures Accounted(fields, r.slots, r.seen, i, fields[i].tag in met)
        ensures !fields[i].htype.Oneof? ==> Home(fields, i) == i
        ensures RequiredBefore(fields, i) == |RequiredPositions(fields, i)|
      {
        RequiredMet(fields, slots, UNSEEN, bs, i);
        FixedMet(fields, slots, UNSEEN, bs, i, false);
        HomeIdempotent(fields, i);
        RequiredCounted(fields, i);
      }
      hide Home, RequiredBefore, RequiredPositions;
    }
  }
}

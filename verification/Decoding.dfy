/**
  What pb_decode.c reads, as functions. A decoder takes the bytes left in its stream and yields the new
  contents of its destination and the bytes it leaves unread.
 */
module Decoding {
  import opened Options
  import opened Bits
  import opened Wire
  import opened Scalars
  import opened Schema

  /** `pb_dec_varint`, `pb_dec_uvarint`, `pb_dec_svarint` after their varint. */
  function Narrow(f: Field, v: nat): Option<int> {
    match f.ltype
    case Varint => NarrowSigned(v, f.dataSize)
    case Uvarint => NarrowUnsigned(v, f.dataSize)
    case _ => NarrowZigZag(v, f.dataSize)
  }

  /** `size + 1` in 32-bit arithmetic, as `pb_dec_string` computes its allocation size. */
  function StringAllocation(size: nat): nat {
    Low32(size + 1)
  }

  /** Whether a length-prefixed item of `size` bytes is accepted by its destination. */
  predicate LengthAccepted(f: Field, size: nat) {
    match f.ltype
    case Bytes => size <= PB_SIZE_MAX && size + BYTES_OFFSET <= f.dataSize
    case String => StringAllocation(size) >= size && StringAllocation(size) <= f.dataSize
    case _ => size <= PB_SIZE_MAX && (size == 0 || size == f.dataSize)
  }

  /** `PB_DECODERS[LTYPE]` for everything but submessages. */
  function DecScalar(f: Field, bs: seq<byte>): (d: Dec<Value>)
    requires !f.ltype.Submessage?
    ensures d.Done? ==> |d.rest| < |bs|
  {
    match f.ltype
    case Bool =>
      (match DecVarint32(bs)
       case Fail => Fail
       case Done(v, rest) => Done(VBool(v != 0), rest))
    case Varint | Uvarint | Svarint =>
      (match DecVarint(bs)
       case Fail => Fail
       case Done(v, rest) => if Narrow(f, v).None? then Fail else Done(VInt(Narrow(f, v).value), rest))
    case Fixed32 =>
      (match DecFixed(bs, 4) case Fail => Fail case Done(n, rest) => Done(VInt(n), rest))
    case Fixed64 =>
      (match DecFixed(bs, 8) case Fail => Fail case Done(n, rest) => Done(VInt(n), rest))
    case Bytes | String | FixedLengthBytes =>
      (match DecVarint32(bs)
       case Fail => Fail
       case Done(size, rest) =>
         if !LengthAccepted(f, size) then Fail
         else if f.ltype.FixedLengthBytes? && size == 0 then Done(ZeroValue(f), rest)
         else match Take(rest, size)
              case Fail => Fail
              case Done(raw, rest') => Done(VBytes(raw), rest'))
  }

  /** `pb_make_string_substream`: the announced bytes, and what follows them in the parent. */
  function Substream(bs: seq<byte>): (d: Dec<seq<byte>>)
    ensures d.Done? ==> |d.value| + |d.rest| < |bs|
  {
    match DecVarint32(bs)
    case Fail => Fail
    case Done(size, rest) => Take(rest, size)
  }

  /** The packed-array loop of `decode_static_field`: entries until the substream is empty. */
  function DecPacked(f: Field, items: seq<Value>, bs: seq<byte>): Option<seq<Value>>
    requires !f.ltype.Submessage?
    decreases |bs|
  {
    if bs == [] then Some(items)
    else if |items| >= f.arraySize then None
    else
      match DecScalar(f, bs)
      case Fail => None
      case Done(v, rest) => DecPacked(f, items + [v], rest)
  }

  /**
    What the field loop of `pb_decode_noinit` remembers: the positions of the required fields met, and
    `fixed_count_field`, the array without a count that it met last.
   */
  datatype Progress = Progress(required: set<nat>, fixed: Option<nat>)

  const UNSEEN: Progress := Progress({}, None)

  /** The outcome of the field loop. */
  datatype Loop =
    | LoopFail
    | LoopDone(slots: seq<Slot>, seen: Progress, rest: seq<byte>, terminated: bool)

  /** The array without a count that was met last has all its entries. */
  predicate FixedFull(fields: seq<Field>, slots: seq<Slot>, seen: Progress) {
    seen.fixed.Some? && seen.fixed.value < |fields| ==>
      |Items(Get(slots, Home(fields, seen.fixed.value)))| == fields[seen.fixed.value].arraySize
  }

  /** Another array without a count is only begun when the last one is full. */
  predicate MayBegin(fields: seq<Field>, slots: seq<Slot>, seen: Progress, i: nat)
    requires i < |fields|
  {
    FixedCount(fields[i]) && seen.fixed != Some(i) ==> FixedFull(fields, slots, seen)
  }

  /** What the field at `i` is decoded into: an array without a count begins empty when it was not the last one. */
  function Current(fields: seq<Field>, slots: seq<Slot>, seen: Progress, i: nat): Slot
    requires i < |fields|
  {
    if FixedCount(fields[i]) && seen.fixed != Some(i) then Rep([]) else Get(slots, Home(fields, i))
  }

  /** One data item; `base` is what the destination holds, which a submessage is merged into. */
  function DecValue(f: Field, base: Value, bs: seq<byte>): (d: Dec<Value>)
    ensures d.Done? ==> |d.rest| < |bs|
    decreases |bs|, 1
  {
    if !f.ltype.Submessage? then DecScalar(f, bs)
    else
      var sub := f.ltype.fields;
      match Substream(bs)
      case Fail => Fail
      case Done(body, rest) =>
        var start := if f.htype.Repeated? then Defaults(sub) else AsSlots(base);
        match DecNoinit(sub, start, body)
        case Fail => Fail
        case Done(slots, _) => Done(VMsg(slots), rest)
  }

  /** What a union holds before one of its members is decoded into it. */
  function UnionBase(f: Field, s: Slot): Value {
    if f.ltype.Submessage? && Which(s) != f.tag then VMsg(Defaults(f.ltype.fields)) else ValueOf(s)
  }

  /** `decode_static_field`. The wire type matters only for telling packed arrays. */
  function DecField(f: Field, wireType: nat, s: Slot, bs: seq<byte>): (d: Dec<Slot>)
    ensures d.Done? ==> |d.rest| <= |bs|
    decreases |bs|, 2
  {
    match f.htype
    case Required =>
      (match DecValue(f, ValueOf(s), bs) case Fail => Fail case Done(v, rest) => Done(One(v), rest))
    case Optional =>
      (match DecValue(f, ValueOf(s), bs)
       case Fail => Fail
       case Done(v, rest) => Done(if f.sizeOffset != 0 then Opt(true, v) else One(v), rest))
    case Repeated =>
      if wireType == WT_STRING && Packable(f.ltype) then
        match Substream(bs)
        case Fail => Fail
        case Done(body, rest) =>
          match DecPacked(f, Items(s), body)
          case None => Fail
          case Some(items) => Done(Rep(items), rest)
      else if |Items(s)| >= f.arraySize then Fail
      else
        (match DecValue(f, VNone, bs) case Fail => Fail case Done(v, rest) => Done(Rep(Items(s) + [v]), rest))
    case Oneof =>
      (match DecValue(f, UnionBase(f, s), bs)
       case Fail => Fail
       case Done(v, rest) => Done(Union(f.tag, v), rest))
  }

  /** The field loop of `pb_decode_noinit`. */
  function DecLoop(fields: seq<Field>, slots: seq<Slot>, seen: Progress, bs: seq<byte>): (r: Loop)
    ensures r.LoopDone? ==> |r.rest| <= |bs|
    decreases |bs|, 3
  {
    if bs == [] then LoopDone(slots, seen, [], false)
    else
      match DecTag(bs)
      case TagFail => LoopFail
      case TagEof(rest) => LoopDone(slots, seen, rest, true)
      case Tag(tag, wireType, rest) =>
        match Find(fields, tag)
        case None =>
          (match DecUnknown(fields, tag, wireType, rest)
           case Fail => LoopFail
           case Done(_, rest') => DecLoop(fields, slots, seen, rest'))
        case Some(i) =>
          if !MayBegin(fields, slots, seen, i) then LoopFail
          else
            match DecField(fields[i], wireType, Current(fields, slots, seen, i), rest)
            case Fail => LoopFail
            case Done(s, rest') =>
              DecLoop(fields, Put(slots, Home(fields, i), s), See(fields, seen, i), rest')
  }

  function See(fields: seq<Field>, seen: Progress, i: nat): Progress
    requires i < |fields|
  {
    if fields[i].htype.Required? then seen.(required := seen.required + {i})
    else if FixedCount(fields[i]) then seen.(fixed := Some(i))
    else seen
  }

  /**
    A tag without a field is skipped by wire type. In an empty description the cursor stands on the list
    terminator, whose tag is 0 and whose type reads as a bool: there, tag 0 is read as one.
   */
  function DecUnknown(fields: seq<Field>, tag: nat, wireType: nat, bs: seq<byte>): (d: Dec<()>)
    ensures d.Done? ==> |d.rest| < |bs|
  {
    if fields == [] && tag == 0 then
      match DecVarint32(bs)
      case Fail => Fail
      case Done(_, rest) => Done((), rest)
    else SkipField(wireType, bs)
  }

  /** One round of the field loop: where it goes on, unless it stops. */
  datatype Round = RoundFail | RoundEnd(rest: seq<byte>) | Next(slots: seq<Slot>, seen: Progress, rest: seq<byte>)

  function LoopRound(fields: seq<Field>, slots: seq<Slot>, seen: Progress, bs: seq<byte>): (r: Round)
    requires bs != []
    ensures r.Next? ==> |r.rest| < |bs|
  {
    match DecTag(bs)
    case TagFail => RoundFail
    case TagEof(rest) => RoundEnd(rest)
    case Tag(tag, wireType, rest) =>
      match Find(fields, tag)
      case None =>
        (match DecUnknown(fields, tag, wireType, rest)
         case Fail => RoundFail
         case Done(_, rest') => Next(slots, seen, rest'))
      case Some(i) =>
        if !MayBegin(fields, slots, seen, i) then RoundFail
        else
          match DecField(fields[i], wireType, Current(fields, slots, seen, i), rest)
          case Fail => RoundFail
          case Done(s, rest') => Next(Put(slots, Home(fields, i), s), See(fields, seen, i), rest')
  }

  lemma LoopUnfold(fields: seq<Field>, slots: seq<Slot>, seen: Progress, bs: seq<byte>)
    requires bs != []
    ensures DecLoop(fields, slots, seen, bs) ==
            match LoopRound(fields, slots, seen, bs)
            case RoundFail => LoopFail
            case RoundEnd(rest) => LoopDone(slots, seen, rest, true)
            case Next(slots', seen', rest) => DecLoop(fields, slots', seen', rest)
  {
    hide DecTag, DecField, DecUnknown, Find;
  }

  /** The number of required fields before position `i`: the cursor's `required_field_index`. */
  function RequiredBefore(fields: seq<Field>, i: nat): (n: nat)
    requires i <= |fields|
    ensures n <= i
  {
    if i == 0 then 0
    else RequiredBefore(fields, i - 1) + (if fields[i - 1].htype.Required? then 1 else 0)
  }

  /** Every required field that the bitmap has room for was seen. */
  predicate AllRequiredSeen(fields: seq<Field>, seen: set<nat>) {
    forall i :: 0 <= i < |fields| ==>
      fields[i].htype.Required? && RequiredBefore(fields, i) < PB_MAX_REQUIRED_FIELDS ==> i in seen
  }

  /** `pb_decode_noinit`. */
  function DecNoinit(fields: seq<Field>, slots: seq<Slot>, bs: seq<byte>): (d: Dec<seq<Slot>>)
    ensures d.Done? ==> |d.rest| <= |bs|
    decreases |bs|, 4
  {
    match DecLoop(fields, slots, UNSEEN, bs)
    case LoopFail => Fail
    case LoopDone(slots', seen, rest, _) =>
      if FixedFull(fields, slots', seen) && AllRequiredSeen(fields, seen.required) then Done(slots', rest) else Fail
  }

  /** `pb_decode`. */
  function DecMessage(fields: seq<Field>, bs: seq<byte>): Dec<seq<Slot>> {
    DecNoinit(fields, Defaults(fields), bs)
  }
}

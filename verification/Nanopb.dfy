/** What the encoder and the decoder guarantee together, and what a caller with a buffer can rely on. */
module Nanopb {
  import opened Options
  import opened Bits
  import opened Wire
  import opened Schema
  import opened Encoding
  import opened Decoding
  import opened Messages
  import opened MergedMessages
  import opened RoundTrip
  import opened Merging
  import opened OutputStream
  import opened PbEncode

  // ----- Buffers -----

  /**
    A stream over a buffer of `m` bytes accepts an encoding of `n` bytes exactly when n <= m. In every case it
    leaves the buffer beyond `m` alone and holds a prefix of the encoding in the bytes it reports as written.
   */
  lemma ExactBufferCriterion(mem: seq<byte>, m: nat, e: Enc, s': OState, ok: bool)
    requires m <= |mem| && Emitted(false, m, OState(mem, 0, 0), e, s', ok)
    ensures e.ok ==> (ok <==> |e.bytes| <= m)
    ensures s'.written <= m && |s'.mem| == |mem|
    ensures s'.mem[..s'.written] <= e.bytes && s'.mem[s'.written..] == mem[s'.written..]
    ensures ok ==> s'.mem[..s'.written] == e.bytes
  {
    assert s'.mem[..s'.written] == e.bytes[..s'.written];
    assert s'.mem[s'.written..] == mem[s'.written..];
  }

  /** The documented use of the encoder: a stream over the caller's buffer, then `pb_encode`. */
  method EncodeToBuffer(buf: array<byte>, bufsize: nat, fields: seq<Field>, slots: seq<Slot>) returns (ok: bool, written: nat)
    requires bufsize <= buf.Length && MessageInMemory(fields, slots)
    modifies buf
    ensures var e := EncMessage(fields, slots);
            && (ok <==> e.ok && |e.bytes| <= bufsize)
            && written <= bufsize && buf[..written] <= e.bytes
            && (ok ==> buf[..written] == e.bytes)
            && buf[written..] == old(buf[written..])
  {
    var stream := new OStream.FromBuffer(buf, 0, bufsize);
    ghost var mem := buf[..];
    ok := Encode(stream, fields, slots);
    written := stream.bytesWritten;
    ghost var e := EncMessage(fields, slots);
    ExactBufferCriterion(mem, bufsize, e, stream.Abs(), ok);
    assert buf[..written] == stream.Abs().mem[..written] && buf[written..] == stream.Abs().mem[written..];
    assert old(buf[written..]) == mem[written..];
  }

  // ----- Every well-formed message can be given to the encoder -----

  lemma {:induction false} WellFormedValueInMemory(f: Field, v: Value)
    requires ValidField(f) && WfValue(f, v)
    ensures InMemory(f, v)
    decreases f, 0
  {
    if f.ltype.Submessage? {
      WellFormedInMemory(f.ltype.fields, v.slots);
    }
  }

  lemma {:induction false} WellFormedInMemory(fields: seq<Field>, slots: seq<Slot>)
    requires ValidSchema(fields) && WfMessage(fields, slots)
    ensures MessageInMemory(fields, slots)
    decreases fields, 1
  {
    forall i | 0 <= i < |fields|
      ensures SlotInMemory(fields[i], Get(slots, Home(fields, i)))
    {
      var f, s := fields[i], Get(slots, Home(fields, i));
      assert ValidField(f) && WfSlot(f, s);
      if f.htype.Repeated? {
        forall k | 0 <= k < |Items(s)| ensures InMemory(f, Items(s)[k]) {
          WellFormedValueInMemory(f, Items(s)[k]);
        }
      } else if IsPresent(f, s) {
        WellFormedValueInMemory(f, ValueOf(s));
      }
    }
  }

  // ----- Framed messages -----

  /** A null-terminated message is read back, and what follows the terminator is left in the stream. */
  lemma NullTerminatedRoundTrip(fields: seq<Field>, slots: seq<Slot>, t: seq<byte>)
    requires ValidSchema(fields) && WfMessage(fields, slots)
    ensures var e := EncMessage(fields, slots);
            e.ok && DecMessage(fields, e.bytes + [0] + t) == Done(Canon(fields, slots), t)
  {
    hide EncMessage, ValidSchema, WfMessage, FitsMessage, Canon, Merge, Room, Defaults, SeenFrom, FixedFull, AllRequiredSeen;
    var e, initial, seen := EncMessage(fields, slots).bytes, Defaults(fields), SeenFrom(fields, UNSEEN, |fields|);
    DefaultsFit(fields);
    MergeIntoDefaults(fields, slots);
    NothingResumed(fields, initial);
    LoopMerges(fields, initial, slots, UNSEEN, [0] + t);
    MergedComplete(fields, initial, slots, UNSEEN);
    LoopUnfold(fields, Canon(fields, slots), seen, [0] + t);
    assert ([0] + t)[1..] == t;
    assert e + [0] + t == e + ([0] + t);
    hide DecLoop;
  }

  lemma EndsWithoutTerminator(fields: seq<Field>, slots: seq<Slot>)
    requires ValidSchema(fields) && WfMessage(fields, slots)
    ensures CompleteFields(fields, Defaults(fields), EncMessage(fields, slots).bytes)
  {
    hide DecLoop, EncMessage, ValidSchema, WfMessage, FitsMessage, Canon, Merge, Room, Defaults, SeenFrom;
    DefaultsFit(fields);
    MergeIntoDefaults(fields, slots);
    NothingResumed(fields, Defaults(fields));
    LoopMerges(fields, Defaults(fields), slots, UNSEEN, []);
    EndOfInput(fields, Canon(fields, slots), SeenFrom(fields, UNSEEN, |fields|));
    assert EncMessage(fields, slots).bytes + [] == EncMessage(fields, slots).bytes;
  }

  /** A length-delimited message is read back, and what follows it is left in the stream. */
  lemma DelimitedRoundTrip(fields: seq<Field>, slots: seq<Slot>, t: seq<byte>)
    requires ValidSchema(fields) && WfMessage(fields, slots) && |EncMessage(fields, slots).bytes| < U32
    ensures var e := EncMessage(fields, slots);
            var d := Substream(EncString(e.bytes) + t);
            e.ok && d.Done? && d.rest == t && DecMessage(fields, d.value) == Done(Canon(fields, slots), [])
  {
    hide EncMessage, ValidSchema, WfMessage, Canon, Substream, EncString;
    MessageRoundTrip(fields, slots);
    StringRoundTrip(EncMessage(fields, slots).bytes, t);
  }

  // ----- Strings: exactly which ones survive -----

  lemma ZeroCuts(bs: seq<byte>, dataSize: nat)
    requires 0 in bs && |bs| <= dataSize
    ensures |CString(bs, dataSize)| < |bs|
  {
    var i :| 0 <= i < |bs| && bs[i] == 0;
    assert StringLength(bs, 0) <= i;
  }

  /** What becomes of a string member: cut at its first zero byte, refused when full, and itself otherwise. */
  lemma StringComesBack(f: Field, bs: seq<byte>, t: seq<byte>)
    requires f.ltype.String? && f.dataSize < PB_SIZE_MAX && |bs| <= f.dataSize
    ensures DecScalar(f, EncValue(f, VBytes(bs)).bytes + t) ==
            if 0 in bs || |bs| < f.dataSize then Done(VBytes(CString(bs, f.dataSize)), t) else Fail
  {
    hide DecVarint32, EncString, StringLength;
    var s := CString(bs, f.dataSize);
    StringRoundTrip(s, t);
    assert LengthAccepted(f, |s|) <==> |s| < f.dataSize;
    if 0 in bs {
      ZeroCuts(bs, f.dataSize);
    } else {
      WholeString(bs, f.dataSize);
    }
  }

  /**
    A string member round-trips if and only if it contains no zero byte and leaves room for its terminator.
    A full member without terminator is encoded whole but refused by the decoder; a member with an embedded
    zero byte comes back cut short.
   */
  lemma StringSurvivesExactly(f: Field, bs: seq<byte>, t: seq<byte>)
    requires f.ltype.String? && f.dataSize < PB_SIZE_MAX && |bs| <= f.dataSize
    ensures EncValue(f, VBytes(bs)).ok
    ensures DecScalar(f, EncValue(f, VBytes(bs)).bytes + t) == Done(VBytes(bs), t) <==> 0 !in bs && |bs| < f.dataSize
  {
    StringComesBack(f, bs, t);
    if 0 in bs {
      ZeroCuts(bs, f.dataSize);
    } else {
      WholeString(bs, f.dataSize);
    }
    hide DecScalar, CString, EncString;
  }

  /** A string with a zero byte inside comes back short; a full one without terminator is refused. */
  lemma StringsLost(t: seq<byte>)
    ensures var roomy := Field(1, Required, String, 0, 0, 8, 0, None);
            DecScalar(roomy, EncValue(roomy, VBytes([65, 0, 66])).bytes + t) == Done(VBytes([65]), t)
    ensures var tight := Field(1, Required, String, 0, 0, 2, 0, None);
            DecScalar(tight, EncValue(tight, VBytes([65, 66])).bytes + t) == Fail
  {
    var roomy, tight := Field(1, Required, String, 0, 0, 8, 0, None), Field(1, Required, String, 0, 0, 2, 0, None);
    StringComesBack(roomy, [65, 0, 66], t);
    StringComesBack(tight, [65, 66], t);
    var bs: seq<byte> := [65, 0, 66];
    assert StringLength(bs, 0) == StringLength(bs, 1) == 1 by { assert bs[0] == 65 && bs[1] == 0; }
    assert CString(bs, 8) == bs[..1] == [65];
    assert 0 !in [65, 66];
    hide DecScalar, EncValue, CString;
  }
}

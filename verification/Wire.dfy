/**
  The wire format of pb_encode.c and pb_decode.c as functions on byte sequences:
  base-128 varints, zigzag integers, fixed-width integers, tags and field skipping.
  Each decoding function follows its C loop branch by branch; the lemmas say what the loops compute.
 */
module Wire {
  import opened Bits

  /** The outcome of reading one item from the front of a stream: `rest` is what is left unread. */
  datatype Dec<+T> = Fail | Done(value: T, rest: seq<byte>)

  // ----- Varints -----

  /** The bytes `pb_encode_varint` writes. */
  function EncVarint(v: nat): (bs: seq<byte>)
    ensures |bs| > 0
  {
    if v < 128 then [v] else [v % 128 + 128] + EncVarint(v / 128)
  }

  /** The loop of `pb_decode_varint`, from bit position `bitpos` with `result` read so far. */
  function DecVarintFrom(bs: seq<byte>, bitpos: nat, result: nat): (d: Dec<nat>)
    ensures d.Done? ==> |d.rest| < |bs|
  {
    if bitpos >= 64 || bs == [] then Fail
    else
      var r := Or(result, Shl64(bs[0] % 128, bitpos));
      if bs[0] >= 128 then DecVarintFrom(bs[1..], bitpos + 7, r) else Done(r, bs[1..])
  }

  function DecVarint(bs: seq<byte>): (d: Dec<nat>)
    ensures d.Done? ==> |d.rest| < |bs|
  {
    DecVarintFrom(bs, 0, 0)
  }

  /** The byte that extends the sign of a negative 32-bit value at `bitpos`. */
  function SignExtension(bitpos: nat): byte {
    if bitpos < 63 then 0xFF else 0x01
  }

  /** The do-while loop of `pb_decode_varint32_eof`; `bitpos` is an 8-bit counter and wraps at 256. */
  function DecVarint32From(bs: seq<byte>, bitpos: nat, result: nat): (d: Dec<nat>)
    ensures d.Done? ==> |d.rest| < |bs|
  {
    if bs == [] then Fail
    else
      var b := bs[0];
      if bitpos >= 32 && b % 128 != 0 && (result / 0x8000_0000 == 0 || b != SignExtension(bitpos)) then Fail
      else
        var r := if bitpos >= 32 then result else Or(result, Shl32(b % 128, bitpos));
        var next := (bitpos + 7) % 256;
        if b >= 128 then DecVarint32From(bs[1..], next, r)
        else if next == 35 && b / 16 % 8 != 0 then Fail
        else Done(r, bs[1..])
  }

  function DecVarint32(bs: seq<byte>): (d: Dec<nat>)
    ensures d.Done? ==> |d.rest| < |bs|
  {
    if bs == [] then Fail
    else if bs[0] < 128 then Done(bs[0], bs[1..])
    else DecVarint32From(bs[1..], 7, bs[0] % 128)
  }

  /** The number written in base 128, least significant group first, top bit of each byte ignored. */
  function GroupValue(bs: seq<byte>): nat {
    if bs == [] then 0 else bs[0] % 128 + 128 * GroupValue(bs[1..])
  }

  /** `bs` starts with a varint of exactly `n` bytes. */
  predicate StartsVarint(bs: seq<byte>, n: nat) {
    1 <= n <= |bs| && bs[n - 1] < 128 && forall i :: 0 <= i < n - 1 ==> bs[i] >= 128
  }

  lemma {:induction false} EncVarintShape(v: nat, t: seq<byte>)
    ensures StartsVarint(EncVarint(v) + t, |EncVarint(v)|)
    ensures GroupValue(EncVarint(v)) == v
  {
    if v >= 128 {
      EncVarintShape(v / 128, t);
      var e := EncVarint(v / 128) + t;
      assert EncVarint(v) + t == [v % 128 + 128] + e;
    }
  }

  /** A varint of a value below 2^(7n) takes at most n bytes. */
  lemma {:induction false} EncVarintLength(v: nat, n: nat)
    requires n > 0 && v < Pow2(7 * n)
    ensures |EncVarint(v)| <= n
  {
    Pow2Group(n - 1);
    if n == 1 {
      assert Pow2(7 * (n - 1)) == 1;
    } else if v >= 128 {
      EncVarintLength(v / 128, n - 1);
    }
  }

  /** A 64-bit value takes at most ten bytes. */
  lemma EncVarintLength64(v: nat)
    requires v < U64
    ensures 1 <= |EncVarint(v)| <= 10
  {
    var k := 9;
    Pow2Weight(k);
    Pow2Group(k);
    EncVarintLength(v, k + 1);
  }

  /** What the 64-bit loop computes: the base-128 number modulo 2^64, or failure beyond ten bytes. */
  lemma {:induction false} DecVarintFromValue(bs: seq<byte>, n: nat, k: nat, r: nat)
    requires StartsVarint(bs, n) && k <= 10 && (k < 10 ==> r < Pow2(7 * k))
    ensures k + n <= 10 ==>
              DecVarintFrom(bs, 7 * k, r) == Done(Low64(r + GroupValue(bs[..n]) * Pow2(7 * k)), bs[n..])
    ensures k + n > 10 ==> DecVarintFrom(bs, 7 * k, r).Fail?
    decreases n
  {
    hide DecVarintFrom, GroupValue, Pow2, Low64, Shl64, Or;
    if k < 9 {
      var g := GroupValue(bs[1..][..n - 1]);
      GroupValueStep(bs, n);
      DecVarintFromStep(bs, k, r);
      Regroup(bs[0] % 128, g, Pow2(7 * k));
      if n > 1 {
        DecVarintFromValue(bs[1..], n - 1, k + 1, r + bs[0] % 128 * Pow2(7 * k));
        assert bs[1..][n - 1..] == bs[n..];
      } else {
        SmallLow64(r + bs[0] % 128 * Pow2(7 * k));
      }
    } else {
      DecVarintFromTop(bs, n, k, r);
    }
  }

  lemma SmallLow64(x: nat)
    requires x < U64
    ensures Low64(x) == x
  {
  }

  /** The tenth byte must end the varint. */
  lemma DecVarintFromTop(bs: seq<byte>, n: nat, k: nat, r: nat)
    requires StartsVarint(bs, n) && 9 <= k <= 10 && (k < 10 ==> r < Pow2(7 * k))
    ensures k + n <= 10 ==>
              DecVarintFrom(bs, 7 * k, r) == Done(Low64(r + GroupValue(bs[..n]) * Pow2(7 * k)), bs[n..])
    ensures k + n > 10 ==> DecVarintFrom(bs, 7 * k, r).Fail?
  {
    if k == 9 {
      GroupValueStep(bs, n);
      LastVarint64Step(bs[0], k, r);
    }
  }

  lemma GroupValueStep(bs: seq<byte>, n: nat)
    requires 1 <= n <= |bs|
    ensures GroupValue(bs[..n]) == bs[0] % 128 + 128 * GroupValue(bs[1..][..n - 1])
    ensures n == 1 ==> GroupValue(bs[..n]) == bs[0] % 128
  {
    assert bs[..n][1..] == bs[1..][..n - 1];
  }

  /** One round of the 64-bit loop below bit 63, where nothing is lost. */
  lemma DecVarintFromStep(bs: seq<byte>, k: nat, r: nat)
    requires bs != [] && k < 9 && r < Pow2(7 * k)
    ensures var r' := r + bs[0] % 128 * Pow2(7 * k);
            && r' < Pow2(7 * (k + 1)) == 128 * Pow2(7 * k)
            && r' < U64
            && DecVarintFrom(bs, 7 * k, r) ==
               if bs[0] >= 128 then DecVarintFrom(bs[1..], 7 * (k + 1), r') else Done(r', bs[1..])
  {
    Varint64Step(bs[0] % 128, k, r);
  }

  lemma Varint64Step(x: nat, k: nat, r: nat)
    requires x < 128 && k < 9 && r < Pow2(7 * k)
    ensures Or(r, Shl64(x, 7 * k)) == r + x * Pow2(7 * k) < Pow2(7 * (k + 1)) < U64
    ensures Pow2(7 * (k + 1)) == 128 * Pow2(7 * k)
  {
    Pow2Group(k);
    Pow2Weight(k + 1);
    ScaleBound(x, 127, Pow2(7 * k));
    Shl64Exact(x, 7 * k);
    OrDisjoint(r, x, 7 * k);
  }

  /** At bit 63 only the lowest bit of the group survives. */
  lemma LastVarint64Step(b: byte, k: nat, r: nat)
    requires k == 9 && r < Pow2(7 * k)
    ensures Or(r, Shl64(b % 128, 7 * k)) == r + b % 2 * Weight(9) == Low64(r + b % 128 * Pow2(7 * k))
  {
    Pow2Weight(k);
    Shl64IsProduct(b % 128, 7 * k);
    SplitAtBit63(b, 0);
    SplitAtBit63(b, r);
    OrDisjoint(r, b % 2, 7 * k);
  }

  lemma SplitAtBit63(b: byte, r: nat)
    requires r < Weight(9)
    ensures Low64(r + b % 128 * Weight(9)) == r + b % 2 * Weight(9)
  {
    var y, q := b % 2, b / 2 % 64;
    assert b % 128 == y + 2 * q;
    WrapMultiple(r + y * 0x8000_0000_0000_0000, q);
  }

  /** `pb_decode_varint` accepts exactly the varints of at most ten bytes and yields their value mod 2^64. */
  lemma DecVarintMeaning(bs: seq<byte>, n: nat)
    requires StartsVarint(bs, n)
    ensures n <= 10 ==> DecVarint(bs) == Done(Low64(GroupValue(bs[..n])), bs[n..])
    ensures n > 10 ==> DecVarint(bs).Fail?
  {
    DecVarintFromValue(bs, n, 0, 0);
  }

  /** Conversely, whatever it accepts starts with a varint. */
  lemma {:induction false} DecVarintAccepts(bs: seq<byte>, bitpos: nat, result: nat)
    requires DecVarintFrom(bs, bitpos, result).Done?
    ensures StartsVarint(bs, |bs| - |DecVarintFrom(bs, bitpos, result).rest|)
  {
    if bs[0] >= 128 {
      var r := Or(result, Shl64(bs[0] % 128, bitpos));
      DecVarintAccepts(bs[1..], bitpos + 7, r);
      var n := |bs| - |DecVarintFrom(bs, bitpos, result).rest|;
      assert forall i :: 1 <= i < n - 1 ==> bs[i] == bs[1..][i - 1];
    }
  }

  lemma VarintRoundTrip(v: nat, t: seq<byte>)
    requires v < U64
    ensures DecVarint(EncVarint(v) + t) == Done(v, t)
  {
    hide EncVarint, DecVarint, GroupValue, Low64, StartsVarint;
    var e := EncVarint(v);
    EncVarintShape(v, t);
    EncVarintLength64(v);
    DecVarintMeaning(e + t, |e|);
    assert (e + t)[..|e|] == e && (e + t)[|e|..] == t;
    SmallLow64(v);
  }

  // ----- The 32-bit varint decoder against the 64-bit one -----

  /** The two loops at the same byte: their results agree modulo 2^32. */
  ghost predicate InStep(k: nat, r32: nat, r64: nat) {
    && 1 <= k <= 10
    && r32 < U32 && (k < 10 ==> r64 < Pow2(7 * k))
    && r32 == Low32(r64)
  }

  function Next32(b: byte, bitpos: nat, r: nat): nat {
    if bitpos >= 32 then r else Or(r, Shl32(b % 128, bitpos))
  }

  lemma {:induction false} Varint32FromAgrees(bs: seq<byte>, k: nat, r32: nat, r64: nat)
    requires InStep(k, r32, r64)
    requires var d := DecVarint32From(bs, 7 * k, r32); d.Done? && k + (|bs| - |d.rest|) <= 10
    ensures var d32, d64 := DecVarint32From(bs, 7 * k, r32), DecVarintFrom(bs, 7 * k, r64);
            d64.Done? && d64.rest == d32.rest && d32.value == Low32(d64.value)
    decreases |bs|
  {
    hide Pow2, Or, Shl64, Shl32, Low32;
    var b := bs[0];
    var n32, n64 := Next32(b, 7 * k, r32), Or(r64, Shl64(b % 128, 7 * k));
    StepTogether(b, k, r32, r64);
    if b >= 128 {
      assert DecVarint32From(bs, 7 * k, r32) == DecVarint32From(bs[1..], 7 * (k + 1), n32);
      assert DecVarintFrom(bs, 7 * k, r64) == DecVarintFrom(bs[1..], 7 * (k + 1), n64);
      hide DecVarint32From, DecVarintFrom;
      Varint32FromAgrees(bs[1..], k + 1, n32, n64);
    }
  }

  lemma StepTogether(b: byte, k: nat, r32: nat, r64: nat)
    requires InStep(k, r32, r64) && k < 10
    ensures InStep(k + 1, Next32(b, 7 * k, r32), Or(r64, Shl64(b % 128, 7 * k)))
  {
    hide Or, Shl64, Shl32, Pow2, Low32;
    if k == 9 {
      StepTogetherLast(b, k, r32, r64);
    } else {
      Varint64Step(b % 128, k, r64);
      if k >= 5 {
        AboveBit32(b % 128, k, r64);
      } else {
        StepTogetherLow(b, k, r32, r64);
      }
    }
  }

  lemma StepTogetherLow(b: byte, k: nat, r32: nat, r64: nat)
    requires 1 <= k <= 4 && r64 < Pow2(7 * k) && r32 == Low32(r64)
    ensures Or(r32, Shl32(b % 128, 7 * k)) == Low32(r64 + b % 128 * Pow2(7 * k))
  {
    hide Or, Shl32, Pow2;
    Pow2Weight(k);
    if k == 4 {
      StepAtBit28(b, k, r32);
    } else {
      Varint32Middle(b % 128, k, r32);
    }
  }

  lemma StepTogetherLast(b: byte, k: nat, r32: nat, r64: nat)
    requires k == 9 && r64 < Pow2(7 * k) && r32 == Low32(r64)
    ensures Low32(Or(r64, Shl64(b % 128, 7 * k))) == r32
  {
    LastVarint64Step(b, k, r64);
    WrapMultiple32(r64, b % 2 * 0x8000_0000);
  }

  lemma AboveBit32(x: nat, k: nat, r: nat)
    requires 5 <= k
    ensures Low32(r + x * Pow2(7 * k)) == Low32(r)
  {
    var five := 5;
    Pow2Weight(five);
    Pow2Add(7 * five, 7 * (k - five));
    LiftFactor(x, Pow2(7 * (k - five)));
    WrapMultiple32(r, x * Pow2(7 * (k - five)) * 8);
  }

  lemma LiftFactor(x: nat, p: nat)
    ensures x * (0x8_0000_0000 * p) == x * p * 8 * 0x1_0000_0000
  {
  }

  /** At bit 28 the 32-bit loop keeps the low four bits of the group. */
  lemma StepAtBit28(b: byte, k: nat, r: nat)
    requires k == 4 && r < Pow2(7 * k)
    ensures var n := Or(r, Shl32(b % 128, 7 * k));
            n == r + b % 16 * Weight(4) == Low32(r + b % 128 * Pow2(7 * k))
  {
    Pow2Weight(k);
    Shl32IsProduct(b % 128, 7 * k);
    SplitAtBit28(b, 0);
    SplitAtBit28(b, r);
    OrDisjoint(r, b % 16, 7 * k);
  }

  lemma SplitAtBit28(b: byte, r: nat)
    requires r < Weight(4)
    ensures Low32(r + b % 128 * Weight(4)) == r + b % 16 * Weight(4)
  {
    var y, q := b % 16, b / 16 % 8;
    assert b % 128 == y + 16 * q;
    WrapMultiple32(r + y * 0x1000_0000, q);
  }

  lemma Varint32Middle(x: nat, k: nat, r: nat)
    requires x < 128 && 1 <= k <= 3 && r < Pow2(7 * k)
    ensures Or(r, Shl32(x, 7 * k)) == r + x * Pow2(7 * k) < Pow2(7 * (k + 1)) < U32
    ensures Pow2(7 * (k + 1)) == 128 * Pow2(7 * k)
  {
    Pow2Group(k);
    Pow2Weight(k + 1);
    ScaleBound(x, 127, Pow2(7 * k));
    Shl32Exact(x, 7 * k);
    OrDisjoint(r, x, 7 * k);
  }

  /**
    Whatever `pb_decode_varint32` accepts in at most ten bytes, `pb_decode_varint` accepts too,
    reads to the same place, and yields the same value modulo 2^32.
   */
  lemma Varint32Agrees(bs: seq<byte>)
    requires var d := DecVarint32(bs); d.Done? && |bs| - |d.rest| <= 10
    ensures var d32, d64 := DecVarint32(bs), DecVarint(bs);
            d64.Done? && d64.rest == d32.rest && d32.value == Low32(d64.value)
  {
    hide Pow2, Or, Shl64, Shl32, Low32;
    Varint32Entry(bs, 1);
    if bs[0] >= 128 {
      hide DecVarint32From, DecVarintFrom, DecVarint, DecVarint32;
      Varint32FromAgrees(bs[1..], 1, bs[0] % 128, bs[0] % 128);
    }
  }

  /** Both decoders read the first byte alike. */
  lemma Varint32Entry(bs: seq<byte>, k: nat)
    requires bs != [] && k == 1
    ensures InStep(k, bs[0] % 128, bs[0] % 128)
    ensures bs[0] >= 128 ==> DecVarint(bs) == DecVarintFrom(bs[1..], 7 * k, bs[0] % 128)
    ensures bs[0] >= 128 ==> DecVarint32(bs) == DecVarint32From(bs[1..], 7 * k, bs[0] % 128)
    ensures bs[0] < 128 ==> DecVarint(bs) == DecVarint32(bs) == Done(bs[0], bs[1..])
  {
    Pow2Weight(k);
    hide DecVarint32From, Pow2, Or, Shl64;
    DecVarintFirstByte(bs);
    hide DecVarintFrom;
  }

  lemma DecVarintFirstByte(bs: seq<byte>)
    requires bs != []
    ensures bs[0] >= 128 ==> DecVarint(bs) == DecVarintFrom(bs[1..], 7, bs[0] % 128)
    ensures bs[0] < 128 ==> DecVarint(bs) == Done(bs[0], bs[1..])
  {
    var zero := 0;
    assert Pow2(7 * zero) == 1;
    hide Pow2, Or, Shl64, DecVarintFrom;
    DecVarintFromStep(bs, zero, 0);
  }

  /** One round of the 32-bit loop below bit 28. */
  lemma DecVarint32FromStep(bs: seq<byte>, k: nat, r: nat)
    requires bs != [] && 1 <= k <= 3 && r < Pow2(7 * k)
    ensures var r' := r + bs[0] % 128 * Pow2(7 * k);
            && r' < Pow2(7 * (k + 1)) == 128 * Pow2(7 * k)
            && DecVarint32From(bs, 7 * k, r) ==
               if bs[0] >= 128 then DecVarint32From(bs[1..], 7 * (k + 1), r') else Done(r', bs[1..])
  {
    hide Or, Shl32, Pow2;
    Varint32Middle(bs[0] % 128, k, r);
  }

  lemma EncVarintFirst(w: nat, t: seq<byte>)
    ensures var e := EncVarint(w) + t;
            e[0] == (if w < 128 then w else w % 128 + 128) && e[1..] == if w < 128 then t else EncVarint(w / 128) + t
  {
    if w < 128 {
      assert EncVarint(w) + t == [w] + t;
    } else {
      assert EncVarint(w) + t == [w % 128 + 128] + (EncVarint(w / 128) + t);
    }
  }

  lemma {:induction false} Varint32FromAccepts(w: nat, k: nat, r: nat, t: seq<byte>)
    requires 1 <= k <= 4 && r < Pow2(7 * k) && r + w * Pow2(7 * k) < U32
    ensures DecVarint32From(EncVarint(w) + t, 7 * k, r) == Done(r + w * Pow2(7 * k), t)
    decreases w
  {
    hide DecVarint32From, EncVarint, Pow2;
    EncVarintFirst(w, t);
    if k == 4 {
      LastVarint32Accepts(w, k, r, t);
    } else {
      DecVarint32FromStep(EncVarint(w) + t, k, r);
      if w >= 128 {
        Regroup(w % 128, w / 128, Pow2(7 * k));
        Varint32FromAccepts(w / 128, k + 1, r + w % 128 * Pow2(7 * k), t);
      }
    }
  }

  lemma LastVarint32Accepts(w: nat, k: nat, r: nat, t: seq<byte>)
    requires k == 4 && r < Pow2(7 * k) && r + w * Pow2(7 * k) < U32
    ensures DecVarint32From(EncVarint(w) + t, 7 * k, r) == Done(r + w * Pow2(7 * k), t)
  {
    Pow2Weight(k);
    hide Pow2, Or, Shl32, EncVarint;
    assert w < 16;
    EncVarintFirst(w, t);
    StepAtBit28(w, k, r);
  }

  /** Every value below 2^32 decodes through the 32-bit decoder. */
  lemma Varint32RoundTrip(v: nat, t: seq<byte>)
    requires v < U32
    ensures DecVarint32(EncVarint(v) + t) == Done(v, t)
  {
    EncVarintFirst(v, t);
    hide DecVarint32From, EncVarint, Pow2;
    var k := 1;
    Pow2Weight(k);
    if v >= 128 {
      Varint32FromAccepts(v / 128, k, v % 128, t);
    }
  }

  /** From bit 35 on a sign-extended negative number is all ones, and the loop skips it. */
  lemma {:induction false} Varint32SignTail(w: nat, k: nat, r: nat, t: seq<byte>)
    requires 5 <= k <= 9 && r / 0x8000_0000 == 1
    requires w + 1 == 2 * Weight(9 - k)
    ensures DecVarint32From(EncVarint(w) + t, 7 * k, r) == Done(r, t)
    decreases 9 - k
  {
    EncVarintFirst(w, t);
    if k < 9 {
      assert w % 128 == 127 && w / 128 + 1 == 2 * Weight(9 - (k + 1));
      Varint32SignTail(w / 128, k + 1, r, t);
    }
  }

  lemma {:induction false} Varint32FromSign(w: nat, k: nat, r: nat, t: seq<byte>)
    requires 1 <= k <= 4 && r < Pow2(7 * k)
    requires U64 - U31 <= r + w * Pow2(7 * k) < U64
    ensures DecVarint32From(EncVarint(w) + t, 7 * k, r) == Done(r + w * Pow2(7 * k) - (U64 - U32), t)
    decreases 4 - k
  {
    hide DecVarint32From, EncVarint, Pow2;
    if k < 4 {
      Pow2Weight(k);
      assert w >= 128 by { if w < 128 { ScaleBound(w, 128, Weight(k)); } }
      EncVarintFirst(w, t);
      DecVarint32FromStep(EncVarint(w) + t, k, r);
      Regroup(w % 128, w / 128, Pow2(7 * k));
      Varint32FromSign(w / 128, k + 1, r + w % 128 * Pow2(7 * k), t);
    } else {
      SignAtBit28(w, k, r, t);
    }
  }

  lemma SignAtBit28(w: nat, k: nat, r: nat, t: seq<byte>)
    requires k == 4 && r < Pow2(7 * k) && U64 - U31 <= r + w * Pow2(7 * k) < U64
    ensures DecVarint32From(EncVarint(w) + t, 7 * k, r) == Done(r + w * Pow2(7 * k) - (U64 - U32), t)
  {
    hide EncVarint, Pow2, Or, Shl32;
    Pow2Weight(k);
    EncVarintFirst(w, t);
    SignGroups(w, r);
    StepAtBit28(w % 128 + 128, k, r);
    Varint32SignTail(w / 128, k + 1, r + w % 16 * Weight(4), t);
  }

  lemma SignGroups(w: nat, r: nat)
    requires r < 0x1000_0000 && U64 - U31 <= r + w * 0x1000_0000 < U64
    ensures w / 128 == 0x1FFF_FFFF && 128 > w % 128 >= 120
    ensures w % 16 == w - 0xF_FFFF_FFF0
  {
    assert 0xF_FFFF_FFF8 <= w < 0x10_0000_0000;
  }

  /** A negative int32 is written sign-extended to ten bytes; the 32-bit decoder accepts it. */
  lemma Varint32SignRoundTrip(n: int, t: seq<byte>)
    requires -U31 <= n < 0
    ensures DecVarint32(EncVarint(n + U64) + t) == Done(n + U32, t)
  {
    hide DecVarint32From, EncVarint, Pow2;
    var v, k := n + U64, 1;
    Pow2Weight(k);
    EncVarintFirst(v, t);
    Varint32FromSign(v / 128, k, v % 128, t);
  }

  // ----- Exactly which varints the 32-bit decoder accepts -----

  /**
    The varint of `n` bytes whose fifth byte is at `i` fits 32 bits: the fifth byte, when it is the last, has only four
    bits, and each later one is empty, or extends the sign of a negative value.
   */
  predicate Fits32(bs: seq<byte>, n: nat, i: nat)
    requires n <= |bs|
  {
    && (n == i + 1 ==> bs[i] < 16)
    && forall j :: i < j < n ==> bs[j] % 128 == 0 || (bs[i] % 16 >= 8 && bs[j] == if j - i < 5 then 255 else 1)
  }

  /** From the sixth byte on nothing is added any more. */
  lemma {:induction false} ExtensionAccepted(bs: seq<byte>, n: nat, k: nat, r: nat)
    requires StartsVarint(bs, n) && 5 <= k && k + n <= 10
    ensures DecVarint32From(bs, 7 * k, r).Done? <==>
            forall j :: 0 <= j < n ==> bs[j] % 128 == 0 || (r / 0x8000_0000 != 0 && bs[j] == if k + j < 9 then 255 else 1)
    decreases n
  {
    hide Or, Shl32;
    if bs[0] >= 128 {
      var rest := bs[1..];
      ExtensionAccepted(rest, n - 1, k + 1, r);
      assert forall j :: 1 <= j < n ==> bs[j] == rest[j - 1];
    }
  }

  lemma {:induction false} AcceptedFrom(bs: seq<byte>, n: nat, k: nat, r: nat)
    requires StartsVarint(bs, n) && 1 <= k <= 4 && k + n <= 10 && r < Pow2(7 * k)
    ensures DecVarint32From(bs, 7 * k, r).Done? <==> Fits32(bs, n, 4 - k)
    decreases n
  {
    hide DecVarint32From, Pow2;
    if k < 4 {
      DecVarint32FromStep(bs, k, r);
      if bs[0] >= 128 {
        AcceptedFrom(bs[1..], n - 1, k + 1, r + bs[0] % 128 * Pow2(7 * k));
        ShiftedFits(bs, n, 4 - k);
      }
    } else {
      FifthByte(bs, n, k, r);
    }
  }

  lemma ShiftedFits(bs: seq<byte>, n: nat, i: nat)
    requires 1 <= n <= |bs| && i > 0
    ensures Fits32(bs, n, i) <==> Fits32(bs[1..], n - 1, i - 1)
  {
    var rest := bs[1..];
    assert forall j :: 1 <= j < n ==> bs[j] == rest[j - 1];
    if Fits32(rest, n - 1, i - 1) {
      forall j | i < j < n
        ensures bs[j] % 128 == 0 || (bs[i] % 16 >= 8 && bs[j] == if j - i < 5 then 255 else 1)
      {
        assert rest[j - 1] == bs[j];
      }
    }
  }

  lemma FifthByte(bs: seq<byte>, n: nat, k: nat, r: nat)
    requires StartsVarint(bs, n) && k == 4 && k + n <= 10 && r < Pow2(7 * k)
    ensures DecVarint32From(bs, 7 * k, r).Done? <==> Fits32(bs, n, 0)
  {
    Pow2Weight(k);
    StepAtBit28(bs[0], k, r);
    hide Pow2, Or, Shl32;
    if bs[0] >= 128 {
      var r', rest := r + bs[0] % 16 * Weight(4), bs[1..];
      assert DecVarint32From(bs, 7 * k, r) == DecVarint32From(rest, 7 * (k + 1), r');
      hide DecVarint32From;
      ExtensionAccepted(rest, n - 1, k + 1, r');
      TopBit(bs[0] % 16, r);
      assert forall j :: 1 <= j < n ==> bs[j] == rest[j - 1];
    }
  }

  lemma TopBit(x: nat, r: nat)
    requires x < 16 && r < Weight(4)
    ensures (r + x * Weight(4)) / 0x8000_0000 != 0 <==> x >= 8
  {
  }

  /**
    `pb_decode_varint32` on varints of at most ten bytes: it accepts exactly those that fit 32 bits, and yields their
    value modulo 2^32.
   */
  lemma Varint32Exactly(bs: seq<byte>, n: nat)
    requires StartsVarint(bs, n) && n <= 10
    ensures DecVarint32(bs) == if Fits32(bs, n, 4) then Done(Low32(GroupValue(bs[..n])), bs[n..]) else Fail
  {
    hide DecVarint32From, DecVarint, GroupValue, Pow2;
    DecVarintMeaning(bs, n);
    if bs[0] >= 128 {
      var k := 1;
      Pow2Weight(k);
      AcceptedFrom(bs[1..], n - 1, k, bs[0] % 128);
      ShiftedFits(bs, n, 4);
      if DecVarint32(bs).Done? {
        Accepts32(bs[1..], 7, bs[0] % 128);
        SameVarint(bs, n, |bs| - |DecVarint32(bs).rest|);
        Varint32Agrees(bs);
        Low32OfLow64(GroupValue(bs[..n]));
      }
    } else {
      GroupValueStep(bs, n);
      Low32OfLow64(bs[0]);
    }
  }

  lemma Low32OfLow64(x: nat)
    ensures Low32(Low64(x)) == Low32(x)
    ensures x < 256 ==> Low32(x) == x
  {
    var q := x / 0x1_0000_0000_0000_0000;
    assert x == Low64(x) + q * 0x1_0000_0000 * 0x1_0000_0000;
    WrapMultiple32(Low64(x), q * 0x1_0000_0000);
  }

  /** Whatever the loop accepts starts with a varint, which ends where the loop does. */
  lemma {:induction false} Accepts32(bs: seq<byte>, bitpos: nat, result: nat)
    requires DecVarint32From(bs, bitpos, result).Done?
    ensures StartsVarint(bs, |bs| - |DecVarint32From(bs, bitpos, result).rest|)
    decreases |bs|
  {
    hide Or, Shl32;
    if bs[0] >= 128 {
      var r := if bitpos >= 32 then result else Or(result, Shl32(bs[0] % 128, bitpos));
      Accepts32(bs[1..], (bitpos + 7) % 256, r);
      var n := |bs| - |DecVarint32From(bs, bitpos, result).rest|;
      assert forall i :: 1 <= i < n - 1 ==> bs[i] == bs[1..][i - 1];
    }
  }

  lemma SameVarint(bs: seq<byte>, n: nat, m: nat)
    requires StartsVarint(bs, n) && 1 <= m <= |bs| && StartsVarint(bs[1..], m - 1) && bs[0] >= 128
    ensures n == m
  {
    assert forall i :: 1 <= i < |bs| ==> bs[i] == bs[1..][i - 1];
    assert n >= 2 && bs[1..][n - 2] < 128;
  }
}

/**
  Scalar values on the wire: C integer casts, zigzag, the width checks of the `pb_dec_*` functions,
  little-endian fixed-width integers, tags, and the skipping of unknown fields.
 */
module Scalars {
  import opened Options
  import opened Bits
  import opened Wire

  // ----- Integer casts -----

  predicate IsWidth(size: nat) {
    size == 1 || size == 2 || size == 4 || size == 8
  }

  /** The C conversion of an integer to a signed type of `size` bytes. */
  function ToSigned(n: int, size: nat): int {
    match size
    case 1 => var m := n % 0x100; if m < 0x80 then m else m - 0x100
    case 2 => var m := n % 0x1_0000; if m < 0x8000 then m else m - 0x1_0000
    case 4 => var m := n % 0x1_0000_0000; if m < 0x8000_0000 then m else m - 0x1_0000_0000
    case _ => var m := n % 0x1_0000_0000_0000_0000;
              if m < 0x8000_0000_0000_0000 then m else m - 0x1_0000_0000_0000_0000
  }

  /** The C conversion of an integer to an unsigned type of `size` bytes. */
  function ToUnsigned(n: int, size: nat): nat {
    match size
    case 1 => n % 0x100
    case 2 => n % 0x1_0000
    case 4 => n % 0x1_0000_0000
    case _ => n % 0x1_0000_0000_0000_0000
  }

  /** `n` is a value of the signed, or unsigned, C type of `size` bytes. */
  predicate FitsSigned(n: int, size: nat) {
    match size
    case 1 => -0x80 <= n < 0x80
    case 2 => -0x8000 <= n < 0x8000
    case 4 => -0x8000_0000 <= n < 0x8000_0000
    case _ => -0x8000_0000_0000_0000 <= n < 0x8000_0000_0000_0000
  }

  predicate FitsUnsigned(n: int, size: nat) {
    match size
    case 1 => 0 <= n < 0x100
    case 2 => 0 <= n < 0x1_0000
    case 4 => 0 <= n < 0x1_0000_0000
    case _ => 0 <= n < 0x1_0000_0000_0000_0000
  }

  /** Multiples of a width lie at least one width above, or two below, those nearest to zero. */
  lemma MultiplesBeyond(q: int, w: nat)
    ensures q >= 1 ==> q * w >= w
    ensures q <= -2 ==> q * w <= -2 * w
  {
    if q >= 1 {
      assert q * w == w + (q - 1) * w;
      assert (q - 1) * w >= 0;
    } else if q <= -2 {
      assert q * w == -2 * w + (q + 2) * w;
      assert (q + 2) * w <= 0;
    }
  }

  /** The residue of `n` nearest to zero is `n` itself exactly when `n` is that near. */
  lemma NearestResidue(n: int, q: int, m: int, half: int)
    requires n == q * (2 * half) + m && 0 <= m < 2 * half
    ensures var r := if m < half then m else m - 2 * half;
            -half <= r < half && (r == n <==> -half <= n < half)
  {
    MultiplesBeyond(q, 2 * half);
  }

  lemma ToSignedMeaning(n: int, size: nat)
    requires IsWidth(size)
    ensures FitsSigned(ToSigned(n, size), size)
    ensures ToSigned(n, size) == n <==> FitsSigned(n, size)
  {
    if size == 1 {
      NearestResidue(n, n / 0x100, n % 0x100, 0x80);
    } else if size == 2 {
      NearestResidue(n, n / 0x1_0000, n % 0x1_0000, 0x8000);
    } else if size == 4 {
      NearestResidue(n, n / 0x1_0000_0000, n % 0x1_0000_0000, 0x8000_0000);
    } else {
      NearestResidue(n, n / 0x1_0000_0000_0000_0000, n % 0x1_0000_0000_0000_0000, 0x8000_0000_0000_0000);
    }
  }

  lemma ToUnsignedMeaning(n: int, size: nat)
    requires IsWidth(size)
    ensures FitsUnsigned(ToUnsigned(n, size), size)
    ensures ToUnsigned(n, size) == n <==> FitsUnsigned(n, size)
  {
  }

  // ----- Zigzag -----

  /** `pb_encode_svarint`: the complement of the doubled value for a negative number. */
  function ZigZag(n: int): nat {
    if n < 0 then 0xFFFF_FFFF_FFFF_FFFF - Low64(2 * Low64(n)) else Low64(2 * n)
  }

  /** `pb_decode_svarint` after the varint has been read. */
  function UnZigZag(v: nat): int {
    if v % 2 == 1 then ToSigned(0xFFFF_FFFF_FFFF_FFFF - v / 2, 8) else ToSigned(v / 2, 8)
  }

  lemma ZigZagMeaning(n: int)
    requires FitsSigned(n, 8)
    ensures ZigZag(n) == if n < 0 then -2 * n - 1 else 2 * n
    ensures ZigZag(n) < U64
  {
  }

  lemma ZigZagRoundTrip(n: int)
    requires FitsSigned(n, 8)
    ensures UnZigZag(ZigZag(n)) == n
  {
    ZigZagMeaning(n);
    hide ZigZag;
  }

  lemma UnZigZagRoundTrip(v: nat)
    requires v < U64
    ensures FitsSigned(UnZigZag(v), 8) && ZigZag(UnZigZag(v)) == v
  {
    var n := if v % 2 == 1 then -1 - v / 2 else v / 2;
    assert UnZigZag(v) == n;
    ZigZagMeaning(n);
  }

  // ----- Width checks of pb_dec_varint, pb_dec_uvarint and pb_dec_svarint -----

  /** `pb_dec_varint`: fields of at most 32 bits read the low half only, then check that nothing is lost. */
  function NarrowSigned(v: nat, size: nat): Option<int> {
    if !IsWidth(size) then None
    else
      var svalue := if size == 8 then ToSigned(v, 8) else ToSigned(v, 4);
      var clamped := ToSigned(svalue, size);
      if clamped != svalue then None else Some(clamped)
  }

  function NarrowUnsigned(v: nat, size: nat): Option<int> {
    if !IsWidth(size) then None
    else
      var clamped := ToUnsigned(v, size);
      if clamped != v then None else Some(clamped)
  }

  function NarrowZigZag(v: nat, size: nat): Option<int> {
    if !IsWidth(size) then None
    else
      var value := UnZigZag(v);
      var clamped := ToSigned(value, size);
      if clamped != value then None else Some(clamped)
  }

  /** A signed field accepts exactly the varints whose low part is in range, and keeps that part. */
  lemma NarrowSignedMeaning(v: nat, size: nat)
    requires v < U64
    ensures NarrowSigned(v, size).Some? <==>
              IsWidth(size) && FitsSigned(ToSigned(v, if size == 8 then 8 else 4), size)
    ensures NarrowSigned(v, size).Some? ==> FitsSigned(NarrowSigned(v, size).value, size)
  {
    if IsWidth(size) {
      ToSignedMeaning(v, if size == 8 then 8 else 4);
      ToSignedMeaning(ToSigned(v, if size == 8 then 8 else 4), size);
    }
  }

  /** The range of each width, as powers of two. */
  lemma WidthRange(n: int, size: nat)
    requires IsWidth(size)
    ensures var half: int := Pow2(8 * size - 1); FitsSigned(n, size) <==> -half <= n < half
    ensures FitsUnsigned(n, size) <==> 0 <= n < Pow2(8 * size)
  {
    var bits := 8 * size - 1;
    assert Pow2(bits + 1) == 2 * Pow2(bits);
    match size {
      case 1 => Pow2Byte(0);
      case 2 => Pow2Byte(0); Pow2Byte(1);
      case _ => Pow2Bytes(size);
    }
    hide Pow2;
  }

  /**
    What a signed field makes of a varint: the one number of its width that equals it modulo 2^64 in an eight-byte
    field, and modulo 2^32 in any other; and nothing when there is none.
   */
  lemma NarrowSignedExactly(v: nat, size: nat, n: int)
    requires v < U64 && IsWidth(size)
    ensures NarrowSigned(v, size) == Some(n) <==>
            FitsSigned(n, size) && (n - v) % (if size == 8 then 0x1_0000_0000_0000_0000 else 0x1_0000_0000) == 0
  {
    var wide := if size == 8 then 8 else 4;
    ToSignedMeaning(v, wide);
    ToSignedMeaning(ToSigned(v, wide), size);
    ToSignedExactly(v, wide, n);
    ToSignedExactly(v, wide, ToSigned(v, wide));
  }

  /** A C conversion keeps the number modulo the range of the type. */
  lemma ToSignedExactly(v: nat, size: nat, n: int)
    requires size == 4 || size == 8
    ensures ToSigned(v, size) == n <==>
            FitsSigned(n, size) && (n - v) % (if size == 8 then 0x1_0000_0000_0000_0000 else 0x1_0000_0000) == 0
  {
    if size == 8 {
      OneResidue(v, n, 0x8000_0000_0000_0000);
    } else {
      OneResidue(v, n, 0x8000_0000);
    }
  }

  lemma OneResidue(v: nat, n: int, half: int)
    requires half > 0
    ensures var m := v % (2 * half);
            (if m < half then m else m - 2 * half) == n <==> -half <= n < half && (n - v) % (2 * half) == 0
  {
    var w := 2 * half;
    var m, q := v % w, v / w;
    assert v == q * w + m;
    NearestResidue(v, q, m, half);
    if (n - v) % w == 0 {
      var p := (n - v) / w;
      Sum(p, q, w);
      NearestResidue(n, p + q, m, half);
    }
    if n == m { NegatedMultiple(q, w); }
    if n == m - w { NegatedMultiple(q + 1, w); }
  }

  lemma Sum(p: int, q: int, w: int)
    ensures (p + q) * w == p * w + q * w
  {
  }

  lemma NegatedMultiple(q: int, w: int)
    requires w > 0
    ensures (-(q * w)) % w == 0 && (q + 1) * w == q * w + w
  {
    assert -(q * w) == (-q) * w;
    ExactMultiple(-q, w);
  }

  lemma ExactMultiple(p: int, w: int)
    requires w > 0
    ensures (p * w) % w == 0
  {
    var x, d := p * w, p - p * w / w;
    assert x == x / w * w + x % w;
    assert d * w == p * w - x / w * w;
    MultiplesBeyond(d, w);
    assert d == -1 ==> d * w == -w;
    assert d == 0 ==> d * w == 0;
  }

  lemma NarrowUnsignedMeaning(v: nat, size: nat)
    requires v < U64
    ensures NarrowUnsigned(v, size) == if IsWidth(size) && FitsUnsigned(v, size) then Some(v) else None
  {
    if IsWidth(size) { ToUnsignedMeaning(v, size); }
  }

  lemma NarrowZigZagMeaning(v: nat, size: nat)
    requires v < U64
    ensures NarrowZigZag(v, size) ==
            if IsWidth(size) && FitsSigned(UnZigZag(v), size) then Some(UnZigZag(v)) else None
  {
    if IsWidth(size) { ToSignedMeaning(UnZigZag(v), size); }
  }

  /** Every width round-trips: the value written as a 64-bit varint is the value read back. */
  lemma SignedRoundTrip(n: int, size: nat)
    requires IsWidth(size) && FitsSigned(n, size)
    ensures NarrowSigned(Low64(n), size) == Some(n)
  {
    var v := Low64(n);
    assert ToSigned(v, if size == 8 then 8 else 4) == n;
    ToSignedMeaning(n, size);
  }

  lemma ZigZagFieldRoundTrip(n: int, size: nat)
    requires IsWidth(size) && FitsSigned(n, size)
    ensures ZigZag(n) < U64 && NarrowZigZag(ZigZag(n), size) == Some(n)
  {
    ZigZagMeaning(n);
    ZigZagRoundTrip(n);
    ToSignedMeaning(n, size);
  }

  // ----- Fixed-width integers -----

  /** The low `k` bytes of `n`, least significant first. */
  function LittleEndian(n: nat, k: nat): (bs: seq<byte>)
    ensures |bs| == k
    decreases k
  {
    if k == 0 then [] else [n % 256] + LittleEndian(n / 256, k - 1)
  }

  function FromLittleEndian(bs: seq<byte>): nat {
    if bs == [] then 0 else bs[0] + 256 * FromLittleEndian(bs[1..])
  }

  lemma {:induction false} LittleEndianRoundTrip(n: nat, k: nat)
    requires n < Pow2(8 * k)
    ensures FromLittleEndian(LittleEndian(n, k)) == n
    decreases k
  {
    if k > 0 {
      Pow2Byte(k - 1);
      LittleEndianRoundTrip(n / 256, k - 1);
    }
  }

  lemma Pow2Byte(k: nat)
    ensures Pow2(8 * (k + 1)) == 256 * Pow2(8 * k)
  {
    var n := 8 * k;
    assert Pow2(n + 2) == 2 * Pow2(n + 1) == 4 * Pow2(n);
    assert Pow2(n + 4) == 2 * Pow2(n + 3) == 4 * Pow2(n + 2);
    assert Pow2(n + 6) == 2 * Pow2(n + 5) == 4 * Pow2(n + 4);
    assert Pow2(n + 8) == 2 * Pow2(n + 7) == 4 * Pow2(n + 6);
  }

  lemma Pow2Bytes(k: nat)
    ensures k == 4 ==> Pow2(8 * k) == U32
    ensures k == 8 ==> Pow2(8 * k) == U64
  {
    if k == 4 { Pow2Above(4, 8 * k); }
    if k == 8 { Pow2Above(9, 8 * k); }
  }

  /** `pb_read` of `n` bytes. */
  function Take(bs: seq<byte>, n: nat): (d: Dec<seq<byte>>)
    ensures d.Done? ==> |d.rest| == |bs| - n
  {
    if |bs| < n then Fail else Done(bs[..n], bs[n..])
  }

  function DecFixed(bs: seq<byte>, k: nat): (d: Dec<nat>)
    ensures d.Done? ==> |d.rest| == |bs| - k
  {
    match Take(bs, k)
    case Fail => Fail
    case Done(raw, rest) => Done(FromLittleEndian(raw), rest)
  }

  lemma FixedRoundTrip(n: nat, k: nat, t: seq<byte>)
    requires k == 4 || k == 8
    requires FitsUnsigned(n, k)
    ensures DecFixed(LittleEndian(n, k) + t, k) == Done(n, t)
  {
    Pow2Bytes(k);
    LittleEndianRoundTrip(n, k);
    var e := LittleEndian(n, k);
    assert (e + t)[..k] == e && (e + t)[k..] == t;
  }

  // ----- Tags -----

  const WT_VARINT: nat := 0
  const WT_64BIT: nat := 1
  const WT_STRING: nat := 2
  const WT_32BIT: nat := 5

  /** `pb_encode_tag`. */
  function EncTag(wireType: nat, tag: nat): (bs: seq<byte>)
    ensures |bs| > 0
  {
    EncVarint(tag * 8 + wireType)
  }

  /** `pb_decode_tag`: `TagEof` is the zero that ends a null-terminated message (or an empty stream). */
  datatype TagRead = TagFail | TagEof(rest: seq<byte>) | Tag(tag: nat, wireType: nat, rest: seq<byte>)

  function DecTag(bs: seq<byte>): (r: TagRead)
    ensures !r.TagFail? ==> |r.rest| <= |bs|
    ensures !r.TagFail? && bs != [] ==> |r.rest| < |bs|
  {
    if bs == [] then TagEof([])
    else
      match DecVarint32(bs)
      case Fail => TagFail
      case Done(n, rest) => if n == 0 then TagEof(rest) else Tag(n / 8, n % 8, rest)
  }

  lemma TagRoundTrip(tag: nat, wireType: nat, t: seq<byte>)
    requires 1 <= tag < 0x2000_0000 && wireType < 8
    ensures DecTag(EncTag(wireType, tag) + t) == Tag(tag, wireType, t)
  {
    hide DecVarint32, EncVarint;
    Varint32RoundTrip(tag * 8 + wireType, t);
  }

  // ----- Skipping -----

  function SkipVarint(bs: seq<byte>): (d: Dec<()>)
    ensures d.Done? ==> |d.rest| < |bs|
  {
    if bs == [] then Fail
    else if bs[0] >= 128 then SkipVarint(bs[1..])
    else Done((), bs[1..])
  }

  function SkipBytes(bs: seq<byte>, n: nat): (d: Dec<()>)
    ensures d.Done? ==> |d.rest| == |bs| - n
  {
    if |bs| < n then Fail else Done((), bs[n..])
  }

  /** `pb_skip_field`. */
  function SkipField(wireType: nat, bs: seq<byte>): (d: Dec<()>)
    ensures d.Done? ==> |d.rest| < |bs|
  {
    if wireType == WT_VARINT then SkipVarint(bs)
    else if wireType == WT_64BIT then SkipBytes(bs, 8)
    else if wireType == WT_STRING then
      match DecVarint32(bs)
      case Fail => Fail
      case Done(n, rest) => SkipBytes(rest, n)
    else if wireType == WT_32BIT then SkipBytes(bs, 4)
    else Fail
  }

  /** Skipping a varint consumes exactly the varint, of whatever length. */
  lemma {:induction false} SkipVarintMeaning(bs: seq<byte>, n: nat)
    requires StartsVarint(bs, n)
    ensures SkipVarint(bs) == Done((), bs[n..])
    decreases n
  {
    if bs[0] >= 128 {
      SkipVarintMeaning(bs[1..], n - 1);
      assert bs[1..][n - 1..] == bs[n..];
    }
  }

  // ----- Locality: bytes after the ones consumed do not matter -----

  /** `d` with `t` appended to what is left unread. */
  function Extend<T>(d: Dec<T>, t: seq<byte>): Dec<T> {
    if d.Done? then Done(d.value, d.rest + t) else Fail
  }

  lemma {:induction false} DecVarintFromLocal(bs: seq<byte>, bitpos: nat, result: nat, t: seq<byte>)
    requires DecVarintFrom(bs, bitpos, result).Done?
    ensures DecVarintFrom(bs + t, bitpos, result) == Extend(DecVarintFrom(bs, bitpos, result), t)
  {
    hide Shl64, Or;
    assert (bs + t)[1..] == bs[1..] + t;
    if bs[0] >= 128 {
      DecVarintFromLocal(bs[1..], bitpos + 7, Or(result, Shl64(bs[0] % 128, bitpos)), t);
    }
  }

  lemma DecVarintLocal(bs: seq<byte>, t: seq<byte>)
    requires DecVarint(bs).Done?
    ensures DecVarint(bs + t) == Extend(DecVarint(bs), t)
  {
    DecVarintFromLocal(bs, 0, 0, t);
  }

  lemma {:induction false} DecVarint32FromLocal(bs: seq<byte>, bitpos: nat, result: nat, t: seq<byte>)
    requires DecVarint32From(bs, bitpos, result).Done?
    ensures DecVarint32From(bs + t, bitpos, result) == Extend(DecVarint32From(bs, bitpos, result), t)
  {
    hide Shl32, Or;
    assert (bs + t)[1..] == bs[1..] + t;
    if bs[0] >= 128 {
      DecVarint32FromLocal(bs[1..], (bitpos + 7) % 256, Next32(bs[0], bitpos, result), t);
    }
  }

  lemma DecVarint32Local(bs: seq<byte>, t: seq<byte>)
    requires DecVarint32(bs).Done?
    ensures DecVarint32(bs + t) == Extend(DecVarint32(bs), t)
  {
    assert (bs + t)[1..] == bs[1..] + t;
    if bs[0] >= 128 {
      DecVarint32FromLocal(bs[1..], 7, bs[0] % 128, t);
    }
  }

  lemma DecTagLocal(bs: seq<byte>, t: seq<byte>)
    requires bs != [] && !DecTag(bs).TagFail?
    ensures DecTag(bs + t) == match DecTag(bs) case TagEof(r) => TagEof(r + t) case Tag(n, w, r) => Tag(n, w, r + t)
  {
    DecVarint32Local(bs, t);
  }

  lemma {:induction false} SkipVarintLocal(bs: seq<byte>, t: seq<byte>)
    requires SkipVarint(bs).Done?
    ensures SkipVarint(bs + t) == Extend(SkipVarint(bs), t)
  {
    assert (bs + t)[1..] == bs[1..] + t;
    if bs[0] >= 128 { SkipVarintLocal(bs[1..], t); }
  }

  lemma SkipFieldLocal(wireType: nat, bs: seq<byte>, t: seq<byte>)
    requires SkipField(wireType, bs).Done?
    ensures SkipField(wireType, bs + t) == Extend(SkipField(wireType, bs), t)
  {
    hide DecVarint32, SkipVarint;
    if wireType == WT_VARINT {
      SkipVarintLocal(bs, t);
    } else if wireType == WT_STRING {
      DecVarint32Local(bs, t);
      var d := DecVarint32(bs);
      assert (d.rest + t)[d.value..] == d.rest[d.value..] + t;
    } else {
      var n := if wireType == WT_64BIT then 8 else 4;
      assert (bs + t)[n..] == bs[n..] + t;
    }
  }
}

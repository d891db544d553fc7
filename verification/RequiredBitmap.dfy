/** The bitmap in which `pb_decode_noinit` records the required fields it has met. */
module RequiredBitmap {
  import opened Bits
  import opened Schema
  import opened Decoding

  const ALLBITS: nat := 0xFFFF_FFFF

  /** The word with the given bits, the lowest first. */
  function WordOf(bits: seq<bool>): (w: nat)
    ensures w < Pow2(|bits|)
  {
    if bits == [] then 0 else (if bits[0] then 1 else 0) + 2 * WordOf(bits[1..])
  }

  lemma {:induction false} SetBit(bits: seq<bool>, k: nat)
    requires k < |bits|
    ensures Or(WordOf(bits), Pow2(k)) == WordOf(bits[k := true])
  {
    hide Or;
    var set' := bits[k := true];
    var low := if bits[0] then 1 else 0;
    if k == 0 {
      assert set'[1..] == bits[1..];
      OrOne(low, WordOf(bits[1..]));
    } else {
      assert set'[1..] == bits[1..][k - 1 := true];
      SetBit(bits[1..], k - 1);
      OrDoubled(low, WordOf(bits[1..]), Pow2(k - 1));
    }
  }

  lemma OrOne(low: nat, a: nat)
    requires low <= 1
    ensures Or(low + 2 * a, 1) == 1 + 2 * a
  {
    assert Or((low + 2 * a) / 2, 0) == a;
  }

  lemma OrDoubled(low: nat, a: nat, p: nat)
    requires low <= 1 && p > 0
    ensures Or(low + 2 * a, 2 * p) == low + 2 * Or(a, p)
  {
    assert (low + 2 * a) / 2 == a && (low + 2 * a) % 2 == low;
  }

  /** A word of ones up to bit `r` is exactly the word whose first `r` bits, and no others, are set. */
  lemma {:induction false} OnesExactly(bits: seq<bool>, r: nat)
    requires r <= |bits|
    ensures WordOf(bits) == Pow2(r) - 1 <==> forall j :: 0 <= j < |bits| ==> bits[j] == (j < r)
  {
    if bits != [] {
      var tail := bits[1..];
      if r == 0 {
        OnesExactly(tail, 0);
        assert (forall j :: 0 <= j < |bits| ==> bits[j] == (j < 0)) <==>
               !bits[0] && forall j :: 0 <= j < |tail| ==> tail[j] == (j < 0) by { TailBits(bits, 0); }
      } else {
        OnesExactly(tail, r - 1);
        TailBits(bits, r);
      }
    }
  }

  lemma TailBits(bits: seq<bool>, r: nat)
    requires bits != []
    ensures (forall j :: 0 <= j < |bits| ==> bits[j] == (j < r)) <==>
            (bits[0] == (0 < r) && forall j :: 0 <= j < |bits[1..]| ==> bits[1..][j] == (j + 1 < r))
  {
    var tail := bits[1..];
    if bits[0] == (0 < r) && forall j :: 0 <= j < |tail| ==> tail[j] == (j + 1 < r) {
      forall j | 0 <= j < |bits| ensures bits[j] == (j < r) {
        if j > 0 { assert bits[j] == tail[j - 1]; }
      }
    }
    if forall j :: 0 <= j < |bits| ==> bits[j] == (j < r) {
      forall j | 0 <= j < |tail| ensures tail[j] == (j + 1 < r) {
        assert tail[j] == bits[j + 1];
      }
    }
  }

  // ----- The bitmap of a description -----

  /** The required field with index `k` was met. */
  ghost predicate SeenBit(fields: seq<Field>, seen: set<nat>, k: nat) {
    exists i :: 0 <= i < |fields| && i in seen && fields[i].htype.Required? && RequiredBefore(fields, i) == k
  }

  ghost function SeenBits(fields: seq<Field>, seen: set<nat>, w: nat): (bits: seq<bool>)
    ensures |bits| == 32
  {
    seq(32, j requires 0 <= j < 32 => SeenBit(fields, seen, 32 * w + j))
  }

  /** The two words hold the bits of the fields met. */
  ghost predicate Holds(words: seq<nat>, fields: seq<Field>, seen: set<nat>) {
    && |words| == 2
    && words[0] == WordOf(SeenBits(fields, seen, 0))
    && words[1] == WordOf(SeenBits(fields, seen, 1))
  }

  lemma {:induction false} RequiredBeforeMonotone(fields: seq<Field>, i: nat, j: nat)
    requires i <= j <= |fields|
    ensures RequiredBefore(fields, i) <= RequiredBefore(fields, j)
    ensures i < j && fields[i].htype.Required? ==> RequiredBefore(fields, i) < RequiredBefore(fields, j)
  {
    if i < j {
      RequiredBeforeMonotone(fields, i, j - 1);
    }
  }

  /** The indexes of the required fields are exactly the numbers below their count. */
  lemma {:induction false} RequiredIndexExists(fields: seq<Field>, n: nat, k: nat) returns (i: nat)
    requires n <= |fields| && k < RequiredBefore(fields, n)
    ensures i < n && fields[i].htype.Required? && RequiredBefore(fields, i) == k
  {
    if fields[n - 1].htype.Required? && RequiredBefore(fields, n - 1) == k {
      i := n - 1;
    } else {
      i := RequiredIndexExists(fields, n - 1, k);
    }
  }

  /** Meeting field `i` sets its bit and changes no other. */
  lemma SeeSetsBit(fields: seq<Field>, seen: set<nat>, i: nat, k: nat)
    requires i < |fields| && fields[i].htype.Required?
    ensures SeenBit(fields, seen + {i}, k) <==> SeenBit(fields, seen, k) || k == RequiredBefore(fields, i)
  {
    if k == RequiredBefore(fields, i) {
      assert i in seen + {i};
    }
  }

  lemma MarkedWord(fields: seq<Field>, seen: set<nat>, i: nat, w: nat)
    requires i < |fields| && fields[i].htype.Required?
    ensures var idx := RequiredBefore(fields, i);
            SeenBits(fields, seen + {i}, w) ==
            if w == idx / 32 then SeenBits(fields, seen, w)[idx % 32 := true] else SeenBits(fields, seen, w)
  {
    hide RequiredBefore;
    var idx := RequiredBefore(fields, i);
    var before, after := SeenBits(fields, seen, w), SeenBits(fields, seen + {i}, w);
    forall j | 0 <= j < 32 ensures after[j] == (before[j] || (w == idx / 32 && j == idx % 32)) {
      SeeSetsBit(fields, seen, i, 32 * w + j);
    }
  }

  lemma MarkSeen(words: seq<nat>, fields: seq<Field>, seen: set<nat>, i: nat)
    requires Holds(words, fields, seen) && i < |fields| && fields[i].htype.Required?
    requires RequiredBefore(fields, i) < PB_MAX_REQUIRED_FIELDS
    ensures var idx := RequiredBefore(fields, i);
            Holds(words[idx / 32 := Or(words[idx / 32], Pow2(idx % 32))], fields, seen + {i})
  {
    hide WordOf, RequiredBefore, Or, Pow2, SeenBits;
    var idx := RequiredBefore(fields, i);
    SetBit(SeenBits(fields, seen, idx / 32), idx % 32);
    MarkedWord(fields, seen, i, 0);
    MarkedWord(fields, seen, i, 1);
  }

  lemma MarkBeyond(words: seq<nat>, fields: seq<Field>, seen: set<nat>, i: nat)
    requires Holds(words, fields, seen) && i < |fields| && fields[i].htype.Required?
    requires RequiredBefore(fields, i) >= PB_MAX_REQUIRED_FIELDS
    ensures Holds(words, fields, seen + {i})
  {
    forall w | 0 <= w < 2 ensures SeenBits(fields, seen + {i}, w) == SeenBits(fields, seen, w) {
      forall j | 0 <= j < 32
        ensures SeenBits(fields, seen + {i}, w)[j] == SeenBits(fields, seen, w)[j]
      {
        SeeSetsBit(fields, seen, i, 32 * w + j);
      }
    }
  }

  /** No bit at or beyond the number of required fields is ever set. */
  lemma NoBitBeyond(fields: seq<Field>, seen: set<nat>, k: nat)
    requires k >= RequiredBefore(fields, |fields|)
    ensures !SeenBit(fields, seen, k)
  {
    forall i | 0 <= i < |fields| && fields[i].htype.Required? ensures RequiredBefore(fields, i) != k {
      RequiredBeforeMonotone(fields, i, |fields|);
    }
  }

  function Min(a: nat, b: nat): nat { if a < b then a else b }

  /** All the bits below the clamped count are set exactly when every tracked required field was met. */
  lemma AllBitsMeanAllSeen(fields: seq<Field>, seen: set<nat>)
    ensures var n := Min(RequiredBefore(fields, |fields|), PB_MAX_REQUIRED_FIELDS);
            (forall k :: 0 <= k < n ==> SeenBit(fields, seen, k)) <==> AllRequiredSeen(fields, seen)
  {
    var n := Min(RequiredBefore(fields, |fields|), PB_MAX_REQUIRED_FIELDS);
    if forall k :: 0 <= k < n ==> SeenBit(fields, seen, k) {
      forall i | 0 <= i < |fields| && fields[i].htype.Required? && RequiredBefore(fields, i) < PB_MAX_REQUIRED_FIELDS
        ensures i in seen
      {
        RequiredBeforeMonotone(fields, i, |fields|);
        var idx := RequiredBefore(fields, i);
        assert SeenBit(fields, seen, idx);
        var i' :| 0 <= i' < |fields| && i' in seen && fields[i'].htype.Required? && RequiredBefore(fields, i') == idx;
        RequiredBeforeMonotone(fields, if i < i' then i else i', if i < i' then i' else i);
      }
    }
    if AllRequiredSeen(fields, seen) {
      forall k | 0 <= k < n ensures SeenBit(fields, seen, k) {
        var i := RequiredIndexExists(fields, |fields|, k);
      }
    }
  }

  /** Comparing word `w` with `r` ones checks exactly the required fields `32 w` to `32 w + r - 1`. */
  lemma WordCheck(fields: seq<Field>, seen: set<nat>, w: nat, r: nat)
    requires r <= 32 && (r < 32 ==> 32 * w + r >= RequiredBefore(fields, |fields|))
    ensures WordOf(SeenBits(fields, seen, w)) == Pow2(r) - 1 <==>
            forall k :: 32 * w <= k < 32 * w + r ==> SeenBit(fields, seen, k)
  {
    hide WordOf, Pow2, SeenBit;
    var bits := SeenBits(fields, seen, w);
    OnesExactly(bits, r);
    forall j | r <= j < 32 ensures !bits[j] {
      NoBitBeyond(fields, seen, 32 * w + j);
    }
    if forall j :: 0 <= j < 32 ==> bits[j] == (j < r) {
      forall k | 32 * w <= k < 32 * w + r ensures SeenBit(fields, seen, k) {
        assert bits[k - 32 * w];
      }
    }
    if forall k :: 32 * w <= k < 32 * w + r ==> SeenBit(fields, seen, k) {
      forall j | 0 <= j < 32 ensures bits[j] == (j < r) {
        if j < r { assert SeenBit(fields, seen, 32 * w + j); }
      }
    }
  }

  /** `allbits >> (32 - r)`. */
  lemma ShiftedOnes(r: nat)
    requires r <= 32
    ensures Shr(ALLBITS, 32 - r) == Pow2(r) - 1
    ensures r == 32 ==> Pow2(r) - 1 == ALLBITS
  {
    var full := 32;
    Pow2Above(4, full);
    ShrOnes(r, full - r);
  }

  lemma HoldsAt(words: seq<nat>, fields: seq<Field>, seen: set<nat>, w: nat)
    requires Holds(words, fields, seen) && w < 2
    ensures |words| == 2 && words[w] == WordOf(SeenBits(fields, seen, w))
  {
  }
}

/** The wrapping field iterator of pb_common.c. */
module FieldCursor {
  import opened Options
  import opened Schema
  import opened Decoding

  /** Bytes a field occupies: `data_size` is that of one entry of a static array. */
  function Extent(f: Field): nat {
    if f.htype.Repeated? then f.dataSize * f.arraySize else f.dataSize
  }

  /** The address of the field at `i`, from the sizes and paddings of the fields before it. */
  function DataAddress(fields: seq<Field>, base: int, i: nat): int
    requires i < |fields|
  {
    if i == 0 then base + fields[0].dataOffset
    else if Continues(fields, i) then DataAddress(fields, base, i - 1)
    else DataAddress(fields, base, i - 1) + Extent(fields[i - 1]) + fields[i].dataOffset
  }

  /** The address of its has-flag, count or which-tag; a union has one for all members. */
  function SizeAddress(fields: seq<Field>, base: int, i: nat): int
    requires i < |fields|
  {
    if Continues(fields, i) then SizeAddress(fields, base, i - 1)
    else DataAddress(fields, base, i) + fields[i].sizeOffset
  }

  class FieldIter {
    const start: seq<Field>
    const destStruct: int
    var pos: nat
    var requiredFieldIndex: nat
    var pData: int
    var pSize: int

    /** The cursor carries no history: everything it holds is a function of `pos`. */
    ghost predicate Valid()
      reads this
    {
      if start == [] then
        pos == 0 && requiredFieldIndex == 0 && pData == destStruct && pSize == destStruct
      else
        && pos < |start|
        && requiredFieldIndex == RequiredBefore(start, pos)
        && pData == DataAddress(start, destStruct, pos)
        && pSize == SizeAddress(start, destStruct, pos)
    }

    /** The tag under the cursor: that of the list terminator in an empty description. */
    function CurrentTag(): nat
      requires Valid()
      reads this
    {
      if start == [] then 0 else start[pos].tag
    }

    /** `pb_field_iter_begin`. */
    constructor (fields: seq<Field>, dest: int)
      ensures Valid() && start == fields && destStruct == dest && pos == 0
    {
      start := fields;
      destStruct := dest;
      pos := 0;
      requiredFieldIndex := 0;
      pData := if fields == [] then dest else dest + fields[0].dataOffset;
      pSize := if fields == [] then dest else dest + fields[0].dataOffset + fields[0].sizeOffset;
    }

    /** `pb_field_iter_begin` on the same description, when the cursor wraps. */
    method Rewind()
      requires start != []
      modifies this
      ensures Valid() && pos == 0
    {
      pos := 0;
      requiredFieldIndex := 0;
      pData := destStruct + start[0].dataOffset;
      pSize := pData + start[0].sizeOffset;
    }

    /** `pb_field_iter_next`: one field on, wrapping at the end; false exactly when it wraps. */
    method Next() returns (more: bool)
      requires Valid()
      modifies this
      ensures Valid()
      ensures start == [] ==> !more
      ensures start != [] ==> more == (old(pos) + 1 < |start|) && pos == if more then old(pos) + 1 else 0
    {
      if start == [] {
        return false;
      }
      var prev := start[pos];
      if pos + 1 == |start| {
        Rewind();
        return false;
      }
      pos := pos + 1;
      if prev.htype.Oneof? && start[pos].htype.Oneof? && start[pos].dataOffset == PB_SIZE_MAX {
        return true;
      }
      var prevSize := prev.dataSize;
      if prev.htype.Repeated? {
        prevSize := prevSize * prev.arraySize;
      }
      if prev.htype.Required? {
        requiredFieldIndex := requiredFieldIndex + 1;
      }
      pData := pData + prevSize + start[pos].dataOffset;
      pSize := pData + start[pos].sizeOffset;
      return true;
    }

    /**
      `pb_field_iter_find`: the first field with the tag, searching once around from the current one.
      Finding nothing brings the cursor back to where it was.
     */
    method Find(tag: nat) returns (found: bool)
      requires Valid()
      modifies this
      ensures Valid()
      ensures found ==> CurrentTag() == tag && NoneBetween(start, old(pos), pos, tag)
      ensures !found ==> pos == old(pos)
      ensures found <==> (start == [] && tag == 0) || exists i :: 0 <= i < |start| && start[i].tag == tag
    {
      var first := pos;
      ghost var steps := 0;
      while true
        invariant Valid()
        invariant start == [] ==> steps == 0
        invariant start != [] ==> steps < |start| && pos == Around(first, steps, |start|)
        invariant NoneBetween(start, first, pos, tag)
        invariant forall k :: 0 <= k < steps ==> start[Around(first, k, |start|)].tag != tag
        decreases |start| - steps
      {
        if CurrentTag() == tag {
          return true;
        }
        var _ := Next();
        if pos == first {
          AroundCovers(start, first, tag, steps);
          return false;
        }
        steps := steps + 1;
      }
    }
  }

  /** The index `k` places after `first` in a circle of `n`. */
  function Around(first: nat, k: nat, n: nat): nat {
    if first + k < n then first + k else first + k - n
  }

  /** No field from `first` up to but excluding `last`, going round, has the tag. */
  predicate NoneBetween(fields: seq<Field>, first: nat, last: nat, tag: nat) {
    forall i :: 0 <= i < |fields| ==>
      (if first <= last then first <= i < last else first <= i || i < last) ==> fields[i].tag != tag
  }

  lemma AroundCovers(fields: seq<Field>, first: nat, tag: nat, steps: nat)
    requires fields != [] ==> first < |fields| && steps + 1 == |fields| && fields[Around(first, steps, |fields|)].tag != tag
    requires forall k :: 0 <= k < steps ==> Around(first, k, |fields|) < |fields| && fields[Around(first, k, |fields|)].tag != tag
    ensures forall i :: 0 <= i < |fields| ==> fields[i].tag != tag
  {
    forall i | 0 <= i < |fields| ensures fields[i].tag != tag {
      var k := if first <= i then i - first else i + |fields| - first;
      assert Around(first, k, |fields|) == i;
    }
  }

  /** With distinct tags it does not matter where the search starts: it ends where a fresh lookup does. */
  lemma FindIsLookup(fields: seq<Field>, tag: nat, pos: nat)
    requires DistinctTags(fields) && pos < |fields| && fields[pos].tag == tag
    ensures Schema.Find(fields, tag) == Some(pos)
  {
    FindUnique(fields, pos);
  }

  /** Addresses grow from one home to the next, so fields share memory exactly when they share a slot. */
  lemma {:induction false} SlotsAreAddresses(fields: seq<Field>, base: int, i: nat, j: nat)
    requires i <= j < |fields|
    requires forall k :: 0 <= k < |fields| ==> Extent(fields[k]) > 0
    ensures DataAddress(fields, base, i) <= DataAddress(fields, base, j)
    ensures DataAddress(fields, base, i) == DataAddress(fields, base, j) <==> Home(fields, i) == Home(fields, j)
  {
    hide Extent;
    if i < j {
      SlotsAreAddresses(fields, base, i, j - 1);
      if Home(fields, j) == j {
        assert !Continues(fields, j);
      }
    }
  }

  lemma {:induction false} AddressesGrow(fields: seq<Field>, base: int, i: nat, j: nat)
    requires i <= j < |fields|
    ensures DataAddress(fields, base, i) <= DataAddress(fields, base, j)
  {
    if i < j {
      AddressesGrow(fields, base, i, j - 1);
      ExtentPositive(fields[j - 1]);
      hide Extent;
    }
  }

  lemma ExtentPositive(f: Field)
    ensures Extent(f) >= 0
  {
  }

  /**
    A member that is not in a union ends before the next one starts: after its size, or that of all its entries. Its
    has-flag or count lies at the stated distance from it, and a union has one which-tag, found from its first member.
   */
  lemma {:induction false} MembersDisjoint(fields: seq<Field>, base: int, i: nat, j: nat)
    requires i < j < |fields| && !fields[i].htype.Oneof?
    ensures var f := fields[i];
            DataAddress(fields, base, i) + (if f.htype.Repeated? then f.dataSize * f.arraySize else f.dataSize) <= DataAddress(fields, base, j)
    ensures SizeAddress(fields, base, i) == DataAddress(fields, base, i) + fields[i].sizeOffset
    ensures SizeAddress(fields, base, j) == SizeAddress(fields, base, Home(fields, j)) == DataAddress(fields, base, j) + fields[Home(fields, j)].sizeOffset
  {
    AddressesGrow(fields, base, i + 1, j);
    UnionAddress(fields, base, j);
    assert !Continues(fields, i) && !Continues(fields, i + 1);
    assert DataAddress(fields, base, i + 1) == DataAddress(fields, base, i) + Extent(fields[i]) + fields[i + 1].dataOffset;
  }

  lemma {:induction false} UnionAddress(fields: seq<Field>, base: int, j: nat)
    requires j < |fields|
    ensures SizeAddress(fields, base, j) == SizeAddress(fields, base, Home(fields, j)) == DataAddress(fields, base, j) + fields[Home(fields, j)].sizeOffset
  {
    HomeIdempotent(fields, j);
    hide Extent;
    if Continues(fields, j) { UnionAddress(fields, base, j - 1); }
  }
}

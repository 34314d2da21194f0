/** `pb_common.c`: the wrap-around field iterator. */
module PbIter {
  import opened Common
  import opened PbSchema
  import opened PbCodec

  /** The bytes a static field occupies in the struct. */
  function StorageSize(f: Field): nat {
    if f.htype.REPEATED? then f.dataSize * f.arraySize else f.dataSize
  }

  /** A further member of the union the previous field belongs to. */
  predicate SharesUnion(prev: Field, cur: Field) {
    prev.htype.ONEOF? && cur.htype.ONEOF? && cur.layout.dataOffset == PB_SIZE_MAX
  }

  /** The offset of field `i` in the struct, walking from the start. */
  function DataOffset(fields: seq<Field>, i: nat): (o: nat)
    requires i < |fields|
  {
    if i == 0 then fields[0].layout.dataOffset
    else if SharesUnion(fields[i - 1], fields[i]) then DataOffset(fields, i - 1)
    else DataOffset(fields, i - 1) + StorageSize(fields[i - 1]) + fields[i].layout.dataOffset
  }

  /** The offset of its has-flag, count or `which_`; members of a union keep that of the first. */
  function SizeOffset(fields: seq<Field>, i: nat): int
    requires i < |fields|
  {
    if i > 0 && SharesUnion(fields[i - 1], fields[i]) then SizeOffset(fields, i - 1)
    else DataOffset(fields, i) + fields[i].layout.sizeOffset
  }

  // ---- Where the fields lie ------------------------------------------------------------------

  /** How many objects of `dataSize` bytes the struct holds for the field. */
  function Elements(f: Field): nat { if f.htype.REPEATED? then f.arraySize else 1 }

  /** The members from `i` to `j` live in one union. */
  predicate OneUnion(fields: seq<Field>, i: nat, j: nat) {
    i <= j < |fields| && forall k :: i < k <= j ==> SharesUnion(fields[k - 1], fields[k])
  }

  /**
   * The descriptor says what the compiler's struct layout is: `offs[i]` is the offset of field `i`, `sizes[i]` that of its
   * has-flag, count or `which_`. `data_offset` is the distance from the end of the field before (`PB_DATAOFFSET_FIRST`,
   * `PB_DATAOFFSET_OTHER`, `PB_DATAOFFSET_UNION`), `size_offset` the distance from the data to its size (`pb_delta`).
   */
  predicate Describes(fields: seq<Field>, offs: seq<nat>, sizes: seq<int>) {
    |fields| == |offs| == |sizes| && forall i :: 0 <= i < |fields| ==> DescribesField(fields, offs, sizes, i)
  }

  predicate DescribesField(fields: seq<Field>, offs: seq<nat>, sizes: seq<int>, i: nat)
    requires |fields| == |offs| == |sizes| && i < |fields|
  {
    if i > 0 && SharesUnion(fields[i - 1], fields[i]) then offs[i] == offs[i - 1] && sizes[i] == sizes[i - 1]
    else
      && sizes[i] == offs[i] + fields[i].layout.sizeOffset
      && offs[i] == fields[i].layout.dataOffset + if i == 0 then 0 else offs[i - 1] + Elements(fields[i - 1]) * fields[i - 1].dataSize
  }

  /** The walk finds every field, and its size, where the compiler put them. */
  lemma {:induction false} WalkFindsLayout(fields: seq<Field>, offs: seq<nat>, sizes: seq<int>, i: nat)
    requires Describes(fields, offs, sizes) && i < |fields|
    ensures DataOffset(fields, i) == offs[i] && SizeOffset(fields, i) == sizes[i]
  {
    assert DescribesField(fields, offs, sizes, i);
    if i > 0 {
      WalkFindsLayout(fields, offs, sizes, i - 1);
      assert Elements(fields[i - 1]) * fields[i - 1].dataSize == StorageSize(fields[i - 1]);
    }
  }

  /** Members of one union lie at one place. */
  lemma {:induction false} UnionShares(fields: seq<Field>, i: nat, j: nat)
    requires OneUnion(fields, i, j)
    ensures DataOffset(fields, i) == DataOffset(fields, j) && SizeOffset(fields, i) == SizeOffset(fields, j)
    decreases j
  {
    if i < j { UnionShares(fields, i, j - 1); }
  }

  /**
   * Room for a member of a union up to the field after it: the walk goes on from the last member, so a larger one
   * before it must be made up for by the distance to the next field.
   */
  predicate Covered(fields: seq<Field>, i: nat) {
    forall l :: i < l < |fields| - 1 && OneUnion(fields, i, l) && !OneUnion(fields, i, l + 1) ==>
      fields[i].dataSize <= Elements(fields[l]) * fields[l].dataSize + fields[l + 1].layout.dataOffset
  }

  /** Where element `k` of field `i` ends. */
  function ElementEnd(fields: seq<Field>, i: nat, k: nat): nat
    requires i < |fields|
  {
    DataOffset(fields, i) + (k + 1) * fields[i].dataSize
  }

  lemma {:induction false} Multiply(a: nat, b: nat, n: nat)
    requires a <= b
    ensures a * n <= b * n
  {
  }

  lemma {:induction false} NextPast(fields: seq<Field>, i: nat, k: nat)
    requires i + 1 < |fields| && !SharesUnion(fields[i], fields[i + 1]) && k < Elements(fields[i])
    ensures ElementEnd(fields, i, k) <= DataOffset(fields, i + 1)
  {
    Multiply(k + 1, Elements(fields[i]), fields[i].dataSize);
    assert Elements(fields[i]) * fields[i].dataSize == StorageSize(fields[i]);
  }

  /** No element of a field reaches into a later field, other than a member of the same union. */
  lemma {:induction false} Apart(fields: seq<Field>, i: nat, j: nat, k: nat)
    requires i < j < |fields| && !OneUnion(fields, i, j) && k < Elements(fields[i]) && Covered(fields, i)
    ensures ElementEnd(fields, i, k) <= DataOffset(fields, j)
    decreases j
  {
    hide Covered;
    if !OneUnion(fields, i, j - 1) {
      Apart(fields, i, j - 1, k);
    } else if i == j - 1 {
      NextPast(fields, i, k);
    } else {
      assert SharesUnion(fields[i], fields[i + 1]) by { assert SharesUnion(fields[(i + 1) - 1], fields[i + 1]); }
      CoveredThere(fields, i, j - 1);
      ApartExactly(fields, i, j - 1);
    }
  }

  lemma {:induction false} CoveredThere(fields: seq<Field>, i: nat, l: nat)
    requires Covered(fields, i) && i < l < |fields| - 1 && OneUnion(fields, i, l) && !OneUnion(fields, i, l + 1)
    ensures fields[i].dataSize <= Elements(fields[l]) * fields[l].dataSize + fields[l + 1].layout.dataOffset
  {
  }

  /** For a member of a union that room is just what keeps it from the field after the union. */
  lemma {:induction false} ApartExactly(fields: seq<Field>, i: nat, l: nat)
    requires i < l < |fields| - 1 && OneUnion(fields, i, l) && !OneUnion(fields, i, l + 1)
    ensures DataOffset(fields, i) + fields[i].dataSize <= DataOffset(fields, l + 1)
       <==> fields[i].dataSize <= Elements(fields[l]) * fields[l].dataSize + fields[l + 1].layout.dataOffset
  {
    UnionShares(fields, i, l);
  }

  /** A position holds field `j`: past every element of the fields before it, and where its union began. */
  predicate Placed(fields: seq<Field>, j: nat, at: nat)
    requires j < |fields|
  {
    && (forall i: nat, k: nat :: i < j && !OneUnion(fields, i, j) && k < Elements(fields[i]) && Covered(fields, i) ==>
         ElementEnd(fields, i, k) <= at)
    && (forall i :: 0 <= i < j && OneUnion(fields, i, j) ==> DataOffset(fields, i) == at)
  }

  lemma {:induction false} OffsetPlaced(fields: seq<Field>, j: nat)
    requires j < |fields|
    ensures Placed(fields, j, DataOffset(fields, j))
  {
    hide DataOffset, OneUnion, Covered;
    forall i: nat, k: nat | i < j && !OneUnion(fields, i, j) && k < Elements(fields[i]) && Covered(fields, i)
      ensures ElementEnd(fields, i, k) <= DataOffset(fields, j)
    {
      Apart(fields, i, j, k);
    }
    forall i | 0 <= i < j && OneUnion(fields, i, j) ensures DataOffset(fields, i) == DataOffset(fields, j) {
      UnionShares(fields, i, j);
    }
  }

  /** `pb_field_iter_t`. Position `|start|` is the terminator, where only the empty message stops. */
  class FieldIter {
    const start: seq<Field>
    var pos: nat
    var requiredFieldIndex: nat
    var pData: nat
    var pSize: int

    /** The iterator is where a fresh walk to `pos` would leave it. */
    ghost predicate Valid()
      reads this
    {
      if start == [] then pos == 0
      else
        && pos < |start| && pData == DataOffset(start, pos) && pSize == SizeOffset(start, pos)
        && requiredFieldIndex == RequiredCount(start[..pos])
    }

    /** `pb_field_iter_begin`. */
    method Begin() returns (more: bool)
      modifies this
      ensures Valid() && pos == 0 && requiredFieldIndex == 0 && more == (start != [])
    {
      pos := 0;
      requiredFieldIndex := 0;
      if start != [] {
        pData := start[0].layout.dataOffset;
        pSize := pData + start[0].layout.sizeOffset;
        assert start[..0] == [];
      }
      more := start != [];
    }

    constructor (fields: seq<Field>)
      ensures Valid() && start == fields && pos == 0 && requiredFieldIndex == 0
    {
      start, pos, requiredFieldIndex, pData, pSize := fields, 0, 0, 0, 0;
      new;
      var _ := Begin();
    }

    /** `pb_field_iter_next`: false when it wrapped back to the beginning. */
    method Next() returns (more: bool)
      requires Valid()
      modifies this
      ensures Valid()
      ensures more <==> old(pos) + 1 < |start|
      ensures pos == if more then old(pos) + 1 else 0
      ensures start != [] ==> Placed(start, pos, pData)
    {
      hide Placed;
      if start == [] { return false; }
      var prev := start[pos];
      pos := pos + 1;
      if pos == |start| {
        var _ := Begin();
        OffsetPlaced(start, pos);
        return false;
      }
      OffsetPlaced(start, pos);
      assert RequiredCount(start[..pos]) == RequiredCount(start[..pos - 1]) + if prev.htype.REQUIRED? then 1 else 0 by {
        RequiredCountSnoc(start, pos - 1);
      }
      var cur := start[pos];
      if SharesUnion(prev, cur) {
        return true;
      }
      if prev.htype.REQUIRED? {
        requiredFieldIndex := requiredFieldIndex + 1;
      }
      pData := pData + StorageSize(prev) + cur.layout.dataOffset;
      pSize := pData + cur.layout.sizeOffset;
      more := true;
    }

    /**
     * `pb_field_iter_find`: from any position it terminates, finds a field with the tag exactly when there
     * is one, and otherwise has gone full circle. (On the empty message, the terminator has tag zero.)
     */
    method Find(tag: nat) returns (found: bool)
      requires Valid()
      modifies this
      ensures Valid()
      ensures start != [] ==> (found <==> HasTag(start, tag))
      ensures start == [] ==> (found <==> tag == 0)
      ensures found && start != [] ==> start[pos].tag == tag
      ensures found && DistinctTags(start) && start != [] ==> FindField(start, tag) == Some(pos)
      ensures !found ==> pos == old(pos)
      ensures start != [] ==> Placed(start, pos, pData)
    {
      hide Placed;
      if start != [] { OffsetPlaced(start, pos); }
      if start == [] {
        return tag == 0;
      }
      var from := pos;
      ghost var wrapped := false;
      while true
        invariant Valid() && from == old(pos) < |start| && (wrapped <==> pos < from)
        invariant Placed(start, pos, pData)
        invariant forall i :: from <= i < (if wrapped then |start| else pos) ==> start[i].tag != tag
        invariant wrapped ==> forall i :: 0 <= i < pos ==> start[i].tag != tag
        decreases !wrapped, |start| - pos
      {
        if start[pos].tag == tag {
          return true;
        }
        var more := Next();
        wrapped := wrapped || !more;
        if pos == from {
          return false;
        }
      }
    }
  }
}

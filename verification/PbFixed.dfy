/** Arrays without a count: an accepted message fills each that it mentions, and leaves the others empty. */
module PbFixed {
  import opened Common
  import opened PbWire
  import opened PbSchema
  import opened PbCodec
  import opened PbRequired
  import opened PbMerge

  /** The field is an array without a count. */
  predicate Fixed(fields: seq<Field>, j: nat)
    requires j < |fields|
  {
    fields[j].htype.REPEATED? && fields[j].layout.sizeOffset == 0
  }

  /** The array is the one being read. */
  predicate Current(st: State, j: nat) { st.fixed.Some? && st.fixed.value.0 == j }

  /** It is as long as it may be. */
  predicate Full(fields: seq<Field>, slots: seq<Slot>, j: nat)
    requires j < |fields| == |slots|
  {
    slots[j].Items? && |slots[j].items| == fields[j].arraySize
  }

  /** An array that is not being read is full or empty; the one being read has as many elements as were read, or is full. */
  predicate Progress(fields: seq<Field>, st: State, j: nat)
    requires j < |fields| == |st.slots|
  {
    && st.slots[j].Items? && |st.slots[j].items| <= fields[j].arraySize
    && if Current(st, j) then Full(fields, st.slots, j) || |st.slots[j].items| == st.fixed.value.1
       else Full(fields, st.slots, j) || st.slots[j].items == []
  }

  lemma {:induction false} PackedGrows(f: Field, s: seq<byte>, items: seq<Value>, k: nat)
    requires DecodePacked(f, s, items, k).Some? && |items| <= f.arraySize && k <= f.arraySize
    requires |items| == f.arraySize || |items| == k
    ensures var p := DecodePacked(f, s, items, k).value;
            k <= p.1 <= f.arraySize && |p.0| <= f.arraySize && (|p.0| == f.arraySize || |p.0| == p.1)
    decreases |s|
  {
    hide DecodeValue;
    if s != [] {
      var v := DecodeValue(f, s, Int(0)).value;
      PackedGrows(f, v.1, StoreItem(items, k, v.0), k + 1);
    }
  }

  lemma {:induction false} PackedBounded(f: Field, s: seq<byte>, items: seq<Value>, k: nat)
    requires DecodePacked(f, s, items, k).Some? && k <= f.arraySize
    ensures DecodePacked(f, s, items, k).value.1 <= f.arraySize
    decreases |s|
  {
    hide DecodeValue;
    if s != [] {
      var v := DecodeValue(f, s, Int(0)).value;
      PackedBounded(f, v.1, StoreItem(items, k, v.0), k + 1);
    }
  }

  /** One entry keeps the progress of every array, and makes its own the current one. */
  lemma {:induction false} EntryProgress(fields: seq<Field>, i: nat, wireType: nat, s: seq<byte>, st: State, j: nat)
    requires i < |fields| == |st.slots| && j < |fields| && Fixed(fields, j) && Progress(fields, st, j)
    requires st.fixed.Some? ==> st.fixed.value.0 < |fields| && st.fixed.value.1 <= fields[st.fixed.value.0].arraySize
    requires Enter(fields, i, st).Some? && DecodeField(fields, i, wireType, s, Enter(fields, i, st).value).Some?
    ensures var st' := DecodeField(fields, i, wireType, s, Enter(fields, i, st).value).value.0;
            && |st'.slots| == |fields| && Progress(fields, st', j)
            && (st'.fixed.Some? ==> st'.fixed.value.0 < |fields| && st'.fixed.value.1 <= fields[st'.fixed.value.0].arraySize)
            && (i == j ==> Current(st', j))
            && (i != j && (Current(st, j) || Full(fields, st.slots, j)) ==> Current(st', j) || Full(fields, st'.slots, j))
            && (i != j && !Current(st, j) && !Full(fields, st.slots, j) ==> !Current(st', j) && !Full(fields, st'.slots, j))
  {
    hide DecodeValue, DecodePacked, TakeString, DefaultValue, SelectMember, RequiredCount;
    var e := Enter(fields, i, st).value;
    EnterProgress(fields, i, st, j);
    if i != j {
      assert !Reaches(fields, i, j) by { assert fields[j].htype.REPEATED?; }
      FieldKeepsOthers(fields, i, wireType, s, e, j);
    }
    if fields[i].htype.REPEATED? { ArrayProgress(fields, i, wireType, s, e); }
  }

  lemma {:induction false} EnterProgress(fields: seq<Field>, i: nat, st: State, j: nat)
    requires i < |fields| == |st.slots| && j < |fields| && Fixed(fields, j) && Progress(fields, st, j)
    requires st.fixed.Some? ==> st.fixed.value.0 < |fields| && st.fixed.value.1 <= fields[st.fixed.value.0].arraySize
    requires Enter(fields, i, st).Some?
    ensures var e := Enter(fields, i, st).value;
            && e.slots == st.slots && Progress(fields, e, j)
            && (e.fixed.Some? ==> e.fixed.value.0 < |fields| && e.fixed.value.1 <= fields[e.fixed.value.0].arraySize)
            && (i == j ==> Current(e, j))
            && (i != j && Current(st, j) ==> Current(e, j) || Full(fields, st.slots, j))
            && (i != j && !Current(st, j) ==> !Current(e, j))
  {
    hide RequiredCount;
  }

  /** What an entry of an array does to the count of the one being read. */
  lemma {:induction false} ArrayProgress(fields: seq<Field>, i: nat, wireType: nat, s: seq<byte>, e: State)
    requires i < |fields| == |e.slots| && fields[i].htype.REPEATED? && DecodeField(fields, i, wireType, s, e).Some?
    ensures var st' := DecodeField(fields, i, wireType, s, e).value.0;
            && e.slots[i].Items? && st'.slots[i].Items?
            && (!Current(e, i) ==> st'.fixed == e.fixed)
            && (Current(e, i) ==> st'.fixed.Some? && st'.fixed.value.0 == i)
            && (Current(e, i) && e.fixed.value.1 <= fields[i].arraySize ==> st'.fixed.value.1 <= fields[i].arraySize)
            && (Current(e, i) && e.fixed.value.1 <= fields[i].arraySize && |e.slots[i].items| <= fields[i].arraySize
                && (|e.slots[i].items| == fields[i].arraySize || |e.slots[i].items| == e.fixed.value.1) ==>
                  && st'.fixed.value.1 <= fields[i].arraySize && |st'.slots[i].items| <= fields[i].arraySize
                  && (|st'.slots[i].items| == fields[i].arraySize || |st'.slots[i].items| == st'.fixed.value.1))
  {
    hide DecodeValue, DecodePacked, TakeString, DefaultValue, SelectMember;
    var f, items, k := fields[i], e.slots[i].items, NextIndex(e, i);
    if wireType == 2 && Packable(f.ltype) {
      var t := TakeString(s).value;
      if k <= f.arraySize { PackedBounded(f, t.0, items, k); }
      if Current(e, i) && k <= f.arraySize && |items| <= f.arraySize && (|items| == f.arraySize || |items| == k) {
        PackedGrows(f, t.0, items, k);
      }
    }
  }

  /** The decoder on any input: an array without a count ends up full if it was begun or is among the entries, else empty. */
  lemma {:induction false} RunFills(fields: seq<Field>, s: seq<byte>, st: State, j: nat)
    requires j < |fields| == |st.slots| && DistinctTags(fields) && Fixed(fields, j) && Progress(fields, st, j)
    requires st.fixed.Some? ==> st.fixed.value.0 < |fields| && st.fixed.value.1 <= fields[st.fixed.value.0].arraySize
    requires DecodeFields(fields, s, st).Some?
    ensures var slot := DecodeFields(fields, s, st).value[j];
            && slot.Items?
            && |slot.items| == if fields[j].tag in EntryTags(fields, s) || Current(st, j) || Full(fields, st.slots, j) then fields[j].arraySize else 0
    decreases |s|
  {
    hide Enter, DecodeField, SkipField, DecodeVarint32, FindField, PassedAs, Progress, RequiredCount;
    if s == [] || DecodeVarint32(s).value.0 == 0 {
      FinishFilled(fields, st, j);
    } else {
      var key := DecodeVarint32(s).value;
      var tag, wireType := key.0 / 8, key.0 % 8;
      var i := FindField(fields, tag);
      if i.None? {
        assert fields[j].tag != tag;
        RunFills(fields, SkipField(wireType, key.1).value, st, j);
      } else {
        var e := Enter(fields, i.value, st).value;
        var d := DecodeField(fields, i.value, wireType, key.1, e).value;
        FieldPasses(fields, i.value, wireType, key.1, e);
        EntryProgress(fields, i.value, wireType, key.1, st, j);
        RunFills(fields, d.1, d.0, j);
        assert i.value != j ==> fields[j].tag != tag;
      }
    }
  }

  lemma {:induction false} FinishFilled(fields: seq<Field>, st: State, j: nat)
    requires j < |fields| == |st.slots| && Fixed(fields, j) && Progress(fields, st, j) && Finish(fields, st).Some?
    ensures Finish(fields, st).value == st.slots && st.slots[j].Items?
    ensures |st.slots[j].items| == if Current(st, j) || Full(fields, st.slots, j) then fields[j].arraySize else 0
  {
    hide RequiredCount;
  }

  /**
   * `pb_decode` on any bytes: an array without a count is filled if the message has an entry for it, however its elements
   * are spread over entries, and is empty otherwise. A message that fills one partly is refused.
   */
  lemma {:induction false} FilledOrEmpty(d: Desc, s: seq<byte>, j: nat)
    requires j < |d.fields| && DistinctTags(d.fields) && Fixed(d.fields, j) && Decode(d, s).Some?
    ensures var slot := Decode(d, s).value[j];
            slot.Items? && |slot.items| == if d.fields[j].tag in EntryTags(d.fields, s) then d.fields[j].arraySize else 0
  {
    hide DecodeFields, EntryTags;
    RunFills(d.fields, s, Start(DefaultSlots(d.fields)), j);
  }
}

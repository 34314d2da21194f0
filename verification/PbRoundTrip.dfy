/** `pb_decode` undoes `pb_encode`, also when the reader knows only part of the writer's schema. */
module PbRoundTrip {
  import opened Common
  import opened PbWire
  import opened PbSchema
  import opened PbCodec

  // ---- Scalars, tags and skipping -----------------------------------------------------------

  lemma {:induction false} CStringWithoutNul(s: seq<byte>)
    requires 0 !in s
    ensures CString(s) == s
  {
    if s != [] {
      CStringWithoutNul(s[1..]);
    }
  }

  lemma {:induction false} TakeAppended(a: seq<byte>, b: seq<byte>)
    ensures Take(a + b, |a|) == Some((a, b))
  {
    assert (a + b)[..|a|] == a && (a + b)[|a|..] == b;
  }

  lemma {:induction false} TakeStringPrefixed(s: seq<byte>, rest: seq<byte>)
    requires |s| < TWO32
    ensures TakeString(LengthPrefixed(s) + rest) == Some((s, rest))
    ensures DecodeVarint32(LengthPrefixed(s) + rest) == Some((|s|, s + rest))
  {
    assert |s| % TWO64 == |s|;
    assert LengthPrefixed(s) + rest == EncodeVarint(|s|) + (s + rest);
    Varint32OfEncoded(|s|, s + rest);
    TakeAppended(s, rest);
  }

  /** An integer of the declared width is unchanged by the conversions of the readers. */
  lemma {:induction false} IntegerConversions(i: int, n: nat)
    requires IntSize(n) && FitsSigned(i, n)
    ensures IsInt64(i) && AsInt64(AsUint64(i)) == i && WrapSigned(i, n) == i
    ensures n < 8 ==> WrapSigned(AsUint64(i), 4) == i
  {
    WrapInRange(i, n);
    if n < 8 {
      assert FitsSigned(i, 4);
      WrapInRange(i, 4);
      if i < 0 { ModUnique(i + TWO64, TWO32, TWO32 - 1, i + TWO32); }
    }
  }

  lemma {:induction false} WrapInRange(i: int, n: nat)
    requires IntSize(n) && FitsSigned(i, n)
    ensures WrapSigned(i, n) == i
    ensures i % IntBound(n) == if i < 0 then i + IntBound(n) else i
  {
    var m := IntBound(n);
    if i < 0 { ModUnique(i, m, -1, i + m); } else { ModUnique(i, m, 0, i); }
  }

  lemma {:induction false} IntegerRoundTrip(f: Field, i: int, rest: seq<byte>, prior: Value)
    requires WfField(f) && FitsValue(f, Int(i)) && !f.ltype.FIXED32? && !f.ltype.FIXED64?
    ensures EncodeValue(f, Int(i)).Some?
    ensures DecodeValue(f, EncodeValue(f, Int(i)).value + rest, prior) == Some((Int(i), rest))
  {
    hide DecodeVarint, EncodeVarint;
    match f.ltype
    case VARINT =>
      IntegerConversions(i, f.dataSize);
      VarintRoundTrip(AsUint64(i), rest);
    case UVARINT =>
      VarintRoundTrip(i, rest);
    case SVARINT =>
      IntegerConversions(i, f.dataSize);
      ZigZagRoundTrip(i);
      VarintRoundTrip(ZigZag(i), rest);
  }

  lemma {:induction false} FixedWordRoundTrip(f: Field, i: int, rest: seq<byte>, prior: Value)
    requires FitsValue(f, Int(i)) && (f.ltype.FIXED32? || f.ltype.FIXED64?)
    ensures EncodeValue(f, Int(i)).Some?
    ensures DecodeValue(f, EncodeValue(f, Int(i)).value + rest, prior) == Some((Int(i), rest))
  {
    hide Pow2, EncodeFixed, DecodeFixed, Take;
    Pow2Values();
    if f.ltype.FIXED32? {
      assert Word(Int(i), TWO32) == i;
      FixedRoundTrip(i, 4);
      TakeAppended(EncodeFixed(i, 4), rest);
    } else {
      assert Word(Int(i), TWO64) == i;
      FixedRoundTrip(i, 8);
      TakeAppended(EncodeFixed(i, 8), rest);
    }
  }

  lemma {:induction false} PayloadRoundTrip(f: Field, b: seq<byte>, rest: seq<byte>, prior: Value)
    requires WfField(f) && FitsValue(f, Raw(b)) && |b| < TWO32
    ensures EncodeValue(f, Raw(b)) == Some(LengthPrefixed(b))
    ensures DecodeValue(f, LengthPrefixed(b) + rest, prior) == Some((Raw(b), rest))
  {
    hide DecodeVarint32, EncodeVarint, LengthPrefixed, CString, Take, TakeString;
    TakeStringPrefixed(b, rest);
    TakeAppended(b, rest);
    match f.ltype
    case STRING => CStringWithoutNul(b);
    case FIXED_LENGTH_BYTES => if b == [] { assert b == Zeros(0) && b + rest == rest; }
    case BYTES =>
  }

  /**
   * A string that fills its buffer, which the encoder accepts, is rejected by the decoder: among the
   * strings a struct can hold, exactly those with room for the terminator survive.
   */
  lemma {:induction false} StringRoundTripExactly(f: Field, b: seq<byte>, rest: seq<byte>, prior: Value)
    requires WfField(f) && f.ltype.STRING? && 0 !in b && |b| <= f.dataSize
    ensures EncodeValue(f, Raw(b)) == Some(LengthPrefixed(b))
    ensures DecodeValue(f, LengthPrefixed(b) + rest, prior) == Some((Raw(b), rest)) <==> |b| < f.dataSize
  {
    hide DecodeVarint32, EncodeVarint, LengthPrefixed, CString, Take, TakeString;
    TakeStringPrefixed(b, rest);
    if |b| < f.dataSize {
      PayloadRoundTrip(f, b, rest, prior);
    }
  }

  lemma {:induction false} TagRoundTrip(f: Field, wireType: nat, rest: seq<byte>)
    requires WfField(f) && wireType < 8
    ensures DecodeVarint32(Tag(f, wireType) + rest) == Some((f.tag * 8 + wireType, rest))
    ensures (f.tag * 8 + wireType) / 8 == f.tag && (f.tag * 8 + wireType) % 8 == wireType
    ensures f.tag * 8 + wireType != 0
  {
    Varint32OfEncoded(f.tag * 8 + wireType, rest);
  }

  lemma {:induction false} SkipEncodedVarint(v: nat, rest: seq<byte>)
    ensures SkipVarint(EncodeVarint(v) + rest) == Some(rest)
    decreases v
  {
    EncodedBytes(v, rest);
    if v >= 128 { SkipEncodedVarint(v / 128, rest); }
  }

  lemma {:induction false} SkipPrefixed(s: seq<byte>, rest: seq<byte>)
    requires |s| < TWO32
    ensures SkipField(2, LengthPrefixed(s) + rest) == Some(rest)
  {
    TakeStringPrefixed(s, rest);
  }

  /** Skipping by wire type consumes precisely what the encoder wrote after the tag. */
  lemma {:induction false} SkipEncodedValue(f: Field, v: Value, rest: seq<byte>)
    requires EncodeValue(f, v).Some? && |EncodeValue(f, v).value| < TWO32
    ensures SkipField(WireType(f.ltype), EncodeValue(f, v).value + rest) == Some(rest)
  {
    var e := EncodeValue(f, v).value;
    match f.ltype
    case VARINT => SkipEncodedVarint(AsUint64(v.i), rest);
    case UVARINT => SkipEncodedVarint(v.i, rest);
    case SVARINT => SkipEncodedVarint(ZigZag(v.i), rest);
    case FIXED32 => assert (e + rest)[4..] == rest;
    case FIXED64 => assert (e + rest)[8..] == rest;
    case SUBMESSAGE => SkipPrefixed(EncodeSlots(f.ptr.desc.fields, v.slots).value, rest);
    case _ => SkipPrefixed(v.bytes, rest);
  }

  // ---- One step of the field loop -----------------------------------------------------------

  lemma {:induction false} FindDistinct(fields: seq<Field>, j: nat)
    requires DistinctTags(fields) && j < |fields|
    ensures FindField(fields, fields[j].tag) == Some(j)
  {
    var i := FindField(fields, fields[j].tag);
    assert HasTag(fields, fields[j].tag);
    assert i.value == j;
  }

  lemma {:induction false} KnownEntry(fields: seq<Field>, j: nat, w: nat, body: seq<byte>, rest: seq<byte>, st: State, st': State)
    requires WfFields(fields) && j < |fields| == |st.slots| == |st'.slots| && w < 8
    requires Enter(fields, j, st).Some?
    requires DecodeField(fields, j, w, body + rest, Enter(fields, j, st).value) == Some((st', rest))
    ensures DecodeFields(fields, Tag(fields[j], w) + body + rest, st) == DecodeFields(fields, rest, st')
  {
    hide Tag, DecodeField, Enter, WfField;
    var f := fields[j];
    assert f in fields;
    TagRoundTrip(f, w, body + rest);
    FindDistinct(fields, j);
    assert Tag(f, w) + body + rest == Tag(f, w) + (body + rest);
  }

  lemma {:induction false} UnknownEntry(fields: seq<Field>, f: Field, w: nat, body: seq<byte>, rest: seq<byte>, st: State)
    requires |fields| == |st.slots| && w < 8
    requires WfField(f) && !HasTag(fields, f.tag)
    requires SkipField(w, body + rest) == Some(rest)
    ensures DecodeFields(fields, Tag(f, w) + body + rest, st) == DecodeFields(fields, rest, st)
  {
    hide Tag, SkipField;
    TagRoundTrip(f, w, body + rest);
    assert Tag(f, w) + body + rest == Tag(f, w) + (body + rest);
  }

  // ---- Facts about projection ---------------------------------------------------------------

  lemma {:induction false} PrunedTags(older: seq<Field>, newer: seq<Field>)
    requires Prunes(older, newer)
    ensures forall f :: f in older ==> HasTag(newer, f.tag)
    decreases newer
  {
    if newer != [] {
      var kept := older != [] && older[0].tag == newer[0].tag;
      var older' := if kept then older[1..] else older;
      PrunedTags(older', newer[1..]);
      forall f | f in older ensures HasTag(newer, f.tag) {
        if f in older' {
          var i :| 0 <= i < |newer[1..]| && newer[1..][i].tag == f.tag;
          assert newer[i + 1].tag == f.tag;
        } else {
          assert f == older[0] && newer[0].tag == f.tag;
        }
      }
    }
  }

  lemma {:induction false} TailDistinct(fields: seq<Field>)
    requires fields != [] && DistinctTags(fields)
    ensures DistinctTags(fields[1..]) && !HasTag(fields[1..], fields[0].tag)
  {
  }

  lemma {:induction false} TailWf(fields: seq<Field>)
    requires fields != [] && WfFields(fields)
    ensures WfField(fields[0]) && WfFields(fields[1..]) && !HasTag(fields[1..], fields[0].tag)
  {
    TailDistinct(fields);
    forall f | f in fields[1..] ensures WfField(f) { assert f in fields; }
  }

  /** Pruning keeps descriptors well formed. */
  lemma {:induction false} PrunedWf(older: seq<Field>, newer: seq<Field>)
    requires Prunes(older, newer) && WfFields(newer)
    ensures WfFields(older)
    decreases newer, 0
  {
    if newer != [] {
      TailWf(newer);
      if older != [] && older[0].tag == newer[0].tag {
        PrunedFieldWf(older[0], newer[0]);
        PrunedWf(older[1..], newer[1..]);
        PrunedTags(older[1..], newer[1..]);
        assert older == [older[0]] + older[1..];
      } else {
        PrunedWf(older, newer[1..]);
      }
    }
  }

  lemma {:induction false} PrunedFieldWf(older: Field, newer: Field)
    requires PrunesField(older, newer) && WfField(newer)
    ensures WfField(older)
    decreases newer, 1
  {
    if newer.ltype.SUBMESSAGE? && newer.ptr.Fields? {
      PrunedWf(older.ptr.desc.fields, newer.ptr.desc.fields);
      if newer.htype.OPTIONAL? && !newer.Sized() {
        PrunedCounts(older.ptr.desc.fields, newer.ptr.desc.fields);
      }
    }
  }

  lemma {:induction false} PrunedCounts(older: seq<Field>, newer: seq<Field>)
    requires Prunes(older, newer) && CountsVisible(newer)
    ensures CountsVisible(older)
    decreases newer, 0
  {
    if newer != [] {
      assert CountsVisible(newer[1..]) by {
        forall f | f in newer[1..] ensures CountVisible(f) { assert f in newer; }
      }
      if older != [] && older[0].tag == newer[0].tag {
        PrunedCountVisible(older[0], newer[0]);
        PrunedCounts(older[1..], newer[1..]);
        assert older == [older[0]] + older[1..];
      } else {
        PrunedCounts(older, newer[1..]);
      }
    }
  }

  lemma {:induction false} PrunedCountVisible(older: Field, newer: Field)
    requires PrunesField(older, newer) && CountVisible(newer)
    ensures CountVisible(older)
    decreases newer, 1
  {
    if newer.ltype.SUBMESSAGE? && newer.ptr.Fields? && newer.htype.OPTIONAL? && !newer.Sized() {
      PrunedCounts(older.ptr.desc.fields, newer.ptr.desc.fields);
    }
  }

  lemma {:induction false} ProjectLength(older: seq<Field>, newer: seq<Field>, slots: seq<Slot>)
    requires |newer| == |slots| && Prunes(older, newer)
    ensures |Project(older, newer, slots)| == |older|
    decreases slots
  {
    if newer != [] {
      if older != [] && older[0].tag == newer[0].tag {
        ProjectLength(older[1..], newer[1..], slots[1..]);
      } else {
        ProjectLength(older, newer[1..], slots[1..]);
      }
    }
  }

  /** What the encoder leaves out as zero is what the decoder presets. */
  lemma {:induction false} ZeroProjects(older: Field, newer: Field, v: Value)
    requires WfField(newer) && PrunesField(older, newer) && newer.htype.OPTIONAL? && !newer.Sized()
    requires FitsValue(newer, v) && IsZero(newer, v)
    ensures ProjectValue(older, newer, v) == DefaultValue(older)
    decreases v, 1
  {
    if newer.ltype.SUBMESSAGE? {
      AllZeroProjects(older.ptr.desc.fields, newer.ptr.desc.fields, v.slots);
    } else if newer.ltype.FIXED_LENGTH_BYTES? {
      assert Zeros(0) == [];
    }
  }

  lemma {:induction false} ZeroSlotProjects(older: Field, newer: Field, s: Slot)
    requires WfField(newer) && PrunesField(older, newer) && FitsSlot(newer, s) && SlotZero(newer, s)
    ensures ProjectSlot(older, newer, s) == DefaultSlot(older)
    decreases s, 2
  {
    match s
    case Single(v) => ZeroProjects(older, newer, v);
    case _ =>
  }

  lemma {:induction false} AllZeroProjects(older: seq<Field>, newer: seq<Field>, slots: seq<Slot>)
    requires |newer| == |slots| && WfFields(newer) && Prunes(older, newer)
    requires FitsSlots(newer, slots) && AllZero(newer, slots)
    ensures Project(older, newer, slots) == DefaultSlots(older)
    decreases slots, 0
  {
    if newer != [] {
      TailWf(newer);
      if older != [] && older[0].tag == newer[0].tag {
        ZeroSlotProjects(older[0], newer[0], slots[0]);
        AllZeroProjects(older[1..], newer[1..], slots[1..]);
      } else {
        AllZeroProjects(older, newer[1..], slots[1..]);
      }
    }
  }

  // ---- The round trip -----------------------------------------------------------------------

  /** The slots from `j` on are still at their defaults. */
  predicate Pristine(fields: seq<Field>, slots: seq<Slot>, j: nat)
    requires |fields| == |slots|
  {
    forall i :: j <= i < |fields| ==> slots[i] == DefaultSlot(fields[i])
  }

  /** The required fields among the first `j` have been seen. */
  predicate SeenUpTo(fields: seq<Field>, seen: set<nat>, j: nat)
    requires j <= |fields|
  {
    forall k: nat :: k < RequiredCount(fields[..j]) && k < PB_MAX_REQUIRED_FIELDS ==> k in seen
  }

  /** Fixed-count arrays started before field `j` are complete. */
  predicate FixedBefore(fields: seq<Field>, fixed: Option<(nat, nat)>, j: nat) {
    fixed.Some? ==> fixed.value.0 < j && fixed.value.0 < |fields| && fixed.value.1 == fields[fixed.value.0].arraySize
  }

  /** Unions of which a member is still to come hold nothing yet. */
  predicate UnionsFree(fields: seq<Field>, slots: seq<Slot>, j: nat, coming: seq<Field>, values: seq<Slot>)
    requires |fields| == |slots| && |coming| == |values|
  {
    forall i, k :: 0 <= i < j && i < |fields| && 0 <= k < |coming| && fields[i].htype.ONEOF?
                   && coming[k].htype == fields[i].htype && values[k].Union? && values[k].o.Some?
      ==> slots[i] == Union(None)
  }

  /** The reader has handled the first `j` of its fields; the writer has `coming` still to write. */
  predicate Ready(fields: seq<Field>, st: State, j: nat, coming: seq<Field>, values: seq<Slot>) {
    && j <= |fields| == |st.slots| && |coming| == |values|
    && WfFields(fields) && WfFields(coming) && Prunes(fields[j..], coming)
    && FitsSlots(coming, values) && OneOfExclusive(coming, values)
    && Pristine(fields, st.slots, j) && SeenUpTo(fields, st.seen, j) && FixedBefore(fields, st.fixed, j)
    && UnionsFree(fields, st.slots, j, coming, values)
    && (forall i :: 0 <= i < j ==> !HasTag(coming, fields[i].tag))
  }

  /** The state after field `j` has been decoded from what the encoder wrote for slot `s`. */
  function After(fields: seq<Field>, st: State, j: nat, newer: Field, s: Slot): (r: State)
    requires j < |fields| == |st.slots|
    ensures |r.slots| == |fields|
  {
    var f := fields[j];
    State(st.slots[j := ProjectSlot(f, newer, s)],
          if f.htype.REQUIRED? && RequiredCount(fields[..j]) < PB_MAX_REQUIRED_FIELDS
          then st.seen + {RequiredCount(fields[..j])} else st.seen,
          if f.htype.REPEATED? && !f.Sized() && s.Items? && s.items != [] then Some((j, f.arraySize)) else st.fixed)
  }

  lemma {:induction false} EncodeAppend(a: Option<seq<byte>>, b: Option<seq<byte>>)
    requires Append(a, b).Some?
    ensures a.Some? && b.Some? && |a.value| <= |Append(a, b).value| && |b.value| <= |Append(a, b).value|
  {
  }

  /** Everything within bounds can be encoded. */
  lemma {:induction false} FitsEncodes(fields: seq<Field>, slots: seq<Slot>)
    requires |fields| == |slots| && WfFields(fields) && FitsSlots(fields, slots)
    ensures EncodeSlots(fields, slots).Some?
    decreases slots, 0
  {
    if slots != [] {
      TailWf(fields);
      FitsSlotEncodes(fields[0], slots[0]);
      FitsEncodes(fields[1..], slots[1..]);
    }
  }

  lemma {:induction false} FitsSlotEncodes(f: Field, s: Slot)
    requires WfField(f) && FitsSlot(f, s)
    ensures EncodeSlot(f, s).Some?
    decreases s, 2
  {
    match s
    case Single(v) => FitsValueEncodes(f, v);
    case Has(_, v) => FitsValueEncodes(f, v);
    case Items(items) => FitsItemsEncode(f, items);
    case Union(o) => if o.Some? { FitsValueEncodes(f, o.value); }
  }

  lemma {:induction false} FitsItemsEncode(f: Field, items: seq<Value>)
    requires WfField(f) && forall v :: v in items ==> FitsValue(f, v)
    ensures EncodePacked(f, items).Some? && EncodeUnpacked(f, items).Some?
    decreases items, 0
  {
    if items != [] {
      FitsValueEncodes(f, items[0]);
      FitsItemsEncode(f, items[1..]);
    }
  }

  lemma {:induction false} FitsValueEncodes(f: Field, v: Value)
    requires WfField(f) && FitsValue(f, v)
    ensures EncodeValue(f, v).Some?
    decreases v, 1
  {
    if f.ltype.SUBMESSAGE? {
      FitsEncodes(f.ptr.desc.fields, v.slots);
    } else if v.Int? && !f.ltype.FIXED32? && !f.ltype.FIXED64? {
      if !f.ltype.UVARINT? { IntegerConversions(v.i, f.dataSize); }
    }
  }

  /** The local part of `Ready` for one slot. */
  predicate SlotReady(fields: seq<Field>, st: State, j: nat, newer: Field, s: Slot) {
    && WfFields(fields) && j < |fields| == |st.slots|
    && WfField(newer) && PrunesField(fields[j], newer) && FitsSlot(newer, s)
    && st.slots[j] == DefaultSlot(fields[j]) && FixedBefore(fields, st.fixed, j)
    && (s.Union? && s.o.Some? ==>
          forall i :: 0 <= i < |fields| && fields[i].htype == fields[j].htype ==> st.slots[i] == Union(None))
  }

  lemma {:induction false} ValueRoundTrip(older: Field, newer: Field, v: Value, rest: seq<byte>, prior: Value)
    requires WfField(newer) && PrunesField(older, newer) && FitsValue(newer, v)
    requires EncodeValue(newer, v).Some? && |EncodeValue(newer, v).value| < TWO32
    requires older.htype.REPEATED? || prior == DefaultValue(older)
    ensures DecodeValue(older, EncodeValue(newer, v).value + rest, prior) == Some((ProjectValue(older, newer, v), rest))
    decreases v, 1
  {
    match newer.ltype
    case SUBMESSAGE =>
      var sub := EncodeSlots(newer.ptr.desc.fields, v.slots).value;
      TakeStringPrefixed(sub, rest);
      MessageRoundTrip(older.ptr.desc.fields, newer.ptr.desc.fields, v.slots);
    case FIXED32 | FIXED64 => FixedWordRoundTrip(newer, v.i, rest, prior);
    case BYTES | STRING | FIXED_LENGTH_BYTES => PayloadRoundTrip(newer, v.bytes, rest, prior);
    case _ => IntegerRoundTrip(newer, v.i, rest, prior);
  }

  /** A nested or outermost message, read into a struct at its defaults. */
  lemma {:induction false} MessageRoundTrip(older: seq<Field>, newer: seq<Field>, slots: seq<Slot>)
    requires |newer| == |slots| && WfFields(newer) && Prunes(older, newer)
    requires FitsSlots(newer, slots) && OneOfExclusive(newer, slots)
    requires EncodeSlots(newer, slots).Some? && |EncodeSlots(newer, slots).value| < TWO32
    ensures DecodeFields(older, EncodeSlots(newer, slots).value, Start(DefaultSlots(older)))
         == Some(Project(older, newer, slots))
    decreases slots, 1
  {
    PrunedWf(older, newer);
    var st := Start(DefaultSlots(older));
    assert older[0..] == older && older[..0] == [];
    ComingRoundTrip(older, st, 0, newer, slots);
    assert st.slots[..0] + Project(older[0..], newer, slots) == Project(older, newer, slots);
  }

  lemma {:induction false} ComingRoundTrip(fields: seq<Field>, st: State, j: nat, coming: seq<Field>, values: seq<Slot>)
    requires Ready(fields, st, j, coming, values)
    requires EncodeSlots(coming, values).Some? && |EncodeSlots(coming, values).value| < TWO32
    ensures DecodeFields(fields, EncodeSlots(coming, values).value, st)
         == Some(st.slots[..j] + Project(fields[j..], coming, values))
    decreases values, 0
  {
    hide EncodeSlot, WfFields, WfField, Prunes, OneOfExclusive, UnionsFree, SeenUpTo, FixedBefore;
    if coming == [] {
      AllKept(fields, st, j);
    } else {
      var e, rest := EncodeSlot(coming[0], values[0]), EncodeSlots(coming[1..], values[1..]);
      EncodeAppend(e, rest);
      if j < |fields| && fields[j].tag == coming[0].tag {
        KeepSlot(fields, st, j, coming, values);
        SlotRoundTrip(fields, st, j, coming[0], values[0], rest.value);
        var st' := After(fields, st, j, coming[0], values[0]);
        ComingRoundTrip(fields, st', j + 1, coming[1..], values[1..]);
        ProjectKept(fields, st, j, coming, values);
      } else {
        DropSlot(fields, st, j, coming, values);
        SlotSkipped(fields, st, coming[0], values[0], rest.value);
        ComingRoundTrip(fields, st, j, coming[1..], values[1..]);
      }
    }
  }

  lemma {:induction false} AllKept(fields: seq<Field>, st: State, j: nat)
    requires j <= |fields| == |st.slots| && Prunes(fields[j..], [])
    requires SeenUpTo(fields, st.seen, j) && FixedBefore(fields, st.fixed, j)
    ensures DecodeFields(fields, [], st) == Some(st.slots[..j] + Project(fields[j..], [], []))
  {
    assert j == |fields| && fields[..j] == fields && st.slots[..j] + [] == st.slots;
  }

  lemma {:induction false} ProjectKept(fields: seq<Field>, st: State, j: nat, coming: seq<Field>, values: seq<Slot>)
    requires j < |fields| == |st.slots| && |coming| == |values| && coming != []
    requires fields[j].tag == coming[0].tag
    ensures After(fields, st, j, coming[0], values[0]).slots[..j + 1] + Project(fields[j + 1..], coming[1..], values[1..])
         == st.slots[..j] + Project(fields[j..], coming, values)
  {
    var p, tail := ProjectSlot(fields[j], coming[0], values[0]), Project(fields[j + 1..], coming[1..], values[1..]);
    assert fields[j..][0] == fields[j] && fields[j..][1..] == fields[j + 1..];
    assert st.slots[j := p][..j + 1] == st.slots[..j] + [p];
    assert st.slots[..j] + [p] + tail == st.slots[..j] + ([p] + tail);
  }

  lemma {:induction false} NoTagInTail(fields: seq<Field>, tag: nat)
    requires fields != [] && !HasTag(fields, tag)
    ensures !HasTag(fields[1..], tag)
  {
    forall i | 0 <= i < |fields[1..]| ensures fields[1..][i].tag != tag {
      assert fields[1..][i] == fields[i + 1];
    }
  }

  /** Ready for a kept field leaves the reader ready for the rest. */
  lemma {:induction false} KeepSlot(fields: seq<Field>, st: State, j: nat, coming: seq<Field>, values: seq<Slot>)
    requires Ready(fields, st, j, coming, values) && coming != []
    requires j < |fields| && fields[j].tag == coming[0].tag
    ensures SlotReady(fields, st, j, coming[0], values[0])
    ensures Ready(fields, After(fields, st, j, coming[0], values[0]), j + 1, coming[1..], values[1..])
  {
    TailWf(coming);
    var st' := After(fields, st, j, coming[0], values[0]);
    assert fields[j..][0] == fields[j] && fields[j..][1..] == fields[j + 1..];
    forall i | 0 <= i < j + 1 ensures !HasTag(coming[1..], fields[i].tag) {
      if i < j { NoTagInTail(coming, fields[i].tag); }
    }
    KeepSeen(fields, st, j, coming[0], values[0]);
    assert OneOfExclusive(coming[1..], values[1..]) by {
      forall i, k | 0 <= i < k < |coming[1..]| && coming[1..][i].htype.ONEOF? && coming[1..][k].htype == coming[1..][i].htype
        ensures !(values[1..][i].Union? && values[1..][i].o.Some? && values[1..][k].Union? && values[1..][k].o.Some?)
      {
        assert coming[i + 1].htype == coming[k + 1].htype;
      }
    }
    KeepUnions(fields, st, j, coming, values);
  }

  lemma {:induction false} KeepSeen(fields: seq<Field>, st: State, j: nat, newer: Field, s: Slot)
    requires j < |fields| == |st.slots| && SeenUpTo(fields, st.seen, j)
    ensures SeenUpTo(fields, After(fields, st, j, newer, s).seen, j + 1)
  {
    RequiredCountSnoc(fields, j);
  }

  lemma {:induction false} KeepUnions(fields: seq<Field>, st: State, j: nat, coming: seq<Field>, values: seq<Slot>)
    requires |fields| == |st.slots| && |coming| == |values| && j < |fields| && coming != []
    requires OneOfExclusive(coming, values) && UnionsFree(fields, st.slots, j, coming, values)
    requires PrunesField(fields[j], coming[0]) && FitsSlot(coming[0], values[0])
    requires Pristine(fields, st.slots, j)
    ensures UnionsFree(fields, After(fields, st, j, coming[0], values[0]).slots, j + 1, coming[1..], values[1..])
    ensures values[0].Union? && values[0].o.Some? ==>
              forall i :: 0 <= i < |fields| && fields[i].htype == fields[j].htype ==> st.slots[i] == Union(None)
  {
    var slots' := After(fields, st, j, coming[0], values[0]).slots;
    forall i, k | 0 <= i < j + 1 && i < |fields| && 0 <= k < |coming[1..]| && fields[i].htype.ONEOF?
                  && coming[1..][k].htype == fields[i].htype && values[1..][k].Union? && values[1..][k].o.Some?
      ensures slots'[i] == Union(None)
    {
      assert coming[k + 1].htype == fields[i].htype && values[k + 1].o.Some?;
      if i == j { assert coming[0].htype == coming[k + 1].htype; }
    }
  }

  lemma {:induction false} DropSlot(fields: seq<Field>, st: State, j: nat, coming: seq<Field>, values: seq<Slot>)
    requires Ready(fields, st, j, coming, values) && coming != []
    requires !(j < |fields| && fields[j].tag == coming[0].tag)
    ensures WfField(coming[0]) && !HasTag(fields, coming[0].tag)
    ensures Ready(fields, st, j, coming[1..], values[1..])
    ensures Project(fields[j..], coming, values) == Project(fields[j..], coming[1..], values[1..])
  {
    TailWf(coming);
    PrunedTags(fields[j..], coming[1..]);
    forall i | 0 <= i < |fields| ensures fields[i].tag != coming[0].tag {
      if i < j {
        assert !HasTag(coming, fields[i].tag);
      } else {
        assert fields[i] in fields[j..];
      }
    }
    forall i | 0 <= i < j ensures !HasTag(coming[1..], fields[i].tag) {
      NoTagInTail(coming, fields[i].tag);
    }
    assert OneOfExclusive(coming[1..], values[1..]) by {
      forall i, k | 0 <= i < k < |coming[1..]| && coming[1..][i].htype.ONEOF? && coming[1..][k].htype == coming[1..][i].htype
        ensures !(values[1..][i].Union? && values[1..][i].o.Some? && values[1..][k].Union? && values[1..][k].o.Some?)
      {
        assert coming[i + 1].htype == coming[k + 1].htype;
      }
    }
    forall i, k | 0 <= i < j && i < |fields| && 0 <= k < |coming[1..]| && fields[i].htype.ONEOF?
                  && coming[1..][k].htype == fields[i].htype && values[1..][k].Union? && values[1..][k].o.Some?
      ensures st.slots[i] == Union(None)
    {
      assert coming[k + 1].htype == fields[i].htype && values[k + 1].o.Some?;
    }
  }

  /** Whatever the writer emits for an unknown field, the reader skips. */
  lemma {:induction false} SlotSkipped(fields: seq<Field>, st: State, f: Field, s: Slot, rest: seq<byte>)
    requires |fields| == |st.slots| && WfField(f) && !HasTag(fields, f.tag)
    requires EncodeSlot(f, s).Some? && |EncodeSlot(f, s).value| < TWO32
    ensures DecodeFields(fields, EncodeSlot(f, s).value + rest, st) == DecodeFields(fields, rest, st)
  {
    var e := EncodeSlot(f, s).value;
    if e == [] {
      assert e + rest == rest;
    } else {
      match s
      case Single(v) => ValueSkipped(fields, st, f, v, rest);
      case Has(_, v) => ValueSkipped(fields, st, f, v, rest);
      case Union(o) => ValueSkipped(fields, st, f, o.value, rest);
      case Items(items) =>
        if Packable(f.ltype) {
          var data := EncodePacked(f, items).value;
          SkipPrefixed(data, rest);
          UnknownEntry(fields, f, 2, LengthPrefixed(data), rest, st);
        } else {
          ItemsSkipped(fields, st, f, items, rest);
        }
    }
  }

  lemma {:induction false} ValueSkipped(fields: seq<Field>, st: State, f: Field, v: Value, rest: seq<byte>)
    requires |fields| == |st.slots| && WfField(f) && !HasTag(fields, f.tag)
    requires EncodeTagged(f, v).Some? && |EncodeTagged(f, v).value| < TWO32
    ensures DecodeFields(fields, EncodeTagged(f, v).value + rest, st) == DecodeFields(fields, rest, st)
  {
    EncodeAppend(Some(Tag(f, WireType(f.ltype))), EncodeValue(f, v));
    SkipEncodedValue(f, v, rest);
    UnknownEntry(fields, f, WireType(f.ltype), EncodeValue(f, v).value, rest, st);
  }

  lemma {:induction false} ItemsSkipped(fields: seq<Field>, st: State, f: Field, items: seq<Value>, rest: seq<byte>)
    requires |fields| == |st.slots| && WfField(f) && !HasTag(fields, f.tag)
    requires EncodeUnpacked(f, items).Some? && |EncodeUnpacked(f, items).value| < TWO32
    ensures DecodeFields(fields, EncodeUnpacked(f, items).value + rest, st) == DecodeFields(fields, rest, st)
  {
    hide EncodeTagged, DecodeFields, WfField;
    if items == [] {
      assert [] + rest == rest;
    } else {
      var e, tail := EncodeTagged(f, items[0]), EncodeUnpacked(f, items[1..]);
      EncodeAppend(e, tail);
      ValueSkipped(fields, st, f, items[0], tail.value + rest);
      ItemsSkipped(fields, st, f, items[1..], rest);
      assert e.value + tail.value + rest == e.value + (tail.value + rest);
    }
  }

  lemma {:induction false} SlotRoundTrip(fields: seq<Field>, st: State, j: nat, newer: Field, s: Slot, rest: seq<byte>)
    requires SlotReady(fields, st, j, newer, s)
    requires EncodeSlot(newer, s).Some? && |EncodeSlot(newer, s).value| < TWO32
    ensures DecodeFields(fields, EncodeSlot(newer, s).value + rest, st)
         == DecodeFields(fields, rest, After(fields, st, j, newer, s))
    decreases s, 2
  {
    match s
    case Single(v) =>
      if newer.htype.OPTIONAL? && IsZero(newer, v) {
        ZeroProjects(fields[j], newer, v);
        Untouched(fields, st, j, newer, s, rest);
      } else {
        SingleRoundTrip(fields, st, j, newer, s, v, rest);
      }
    case Has(has, v) =>
      if has { SingleRoundTrip(fields, st, j, newer, s, v, rest); } else { Untouched(fields, st, j, newer, s, rest); }
    case Union(o) =>
      if o.Some? {
        SingleRoundTrip(fields, st, j, newer, s, o.value, rest);
      } else {
        Untouched(fields, st, j, newer, s, rest);
      }
    case Items(items) =>
      if items == [] {
        Untouched(fields, st, j, newer, s, rest);
      } else if Packable(newer.ltype) {
        PackedRoundTrip(fields, st, j, newer, s, rest);
      } else {
        UnpackedRoundTrip(fields, st, j, newer, items, [], rest);
        assert [] + ProjectItems(fields[j], newer, items) == ProjectItems(fields[j], newer, items);
      }
  }

  /** A slot for which nothing is written. */
  lemma {:induction false} Untouched(fields: seq<Field>, st: State, j: nat, newer: Field, s: Slot, rest: seq<byte>)
    requires SlotReady(fields, st, j, newer, s) && !newer.htype.REQUIRED?
    requires EncodeSlot(newer, s) == Some([]) && ProjectSlot(fields[j], newer, s) == DefaultSlot(fields[j])
    requires s.Items? ==> s.items == []
    ensures DecodeFields(fields, EncodeSlot(newer, s).value + rest, st)
         == DecodeFields(fields, rest, After(fields, st, j, newer, s))
  {
    assert [] + rest == rest;
    assert st.slots[j := DefaultSlot(fields[j])] == st.slots;
  }

  /** A slot written as one tagged value. */
  lemma {:induction false} SingleRoundTrip(fields: seq<Field>, st: State, j: nat, newer: Field, s: Slot, v: Value, rest: seq<byte>)
    requires SlotReady(fields, st, j, newer, s)
    requires s == Single(v) || s == Has(true, v) || s == Union(Some(v))
    requires EncodeSlot(newer, s) == EncodeTagged(newer, v)
    requires EncodeTagged(newer, v).Some? && |EncodeTagged(newer, v).value| < TWO32
    ensures DecodeFields(fields, EncodeSlot(newer, s).value + rest, st)
         == DecodeFields(fields, rest, After(fields, st, j, newer, s))
    decreases v, 2
  {
    var f, w := fields[j], WireType(newer.ltype);
    var body := EncodeValue(newer, v).value;
    EncodeAppend(Some(Tag(newer, w)), EncodeValue(newer, v));
    ValueRoundTrip(f, newer, v, rest, DefaultValue(f));
    assert Tag(f, w) == Tag(newer, w);
    if s.Union? {
      assert SelectMember(fields, st.slots, j, ProjectValue(f, newer, v)) == st.slots[j := ProjectSlot(f, newer, s)];
    }
    KnownEntry(fields, j, w, body, rest, st, After(fields, st, j, newer, s));
  }

  lemma {:induction false} PackedItem(older: Field, newer: Field, v: Value, rest: seq<byte>)
    requires WfField(newer) && PrunesField(older, newer) && Packable(newer.ltype) && older.htype.REPEATED?
    requires FitsValue(newer, v) && EncodeValue(newer, v).Some? && |EncodeValue(newer, v).value| < TWO32
    ensures EncodeValue(newer, v).value != []
    ensures DecodeValue(older, EncodeValue(newer, v).value + rest, Int(0)) == Some((ProjectValue(older, newer, v), rest))
    decreases v, 2
  {
    ValueRoundTrip(older, newer, v, rest, Int(0));
  }

  lemma {:induction false} PackedItems(older: Field, newer: Field, items: seq<Value>, done: seq<Value>)
    requires WfField(newer) && PrunesField(older, newer) && Packable(newer.ltype) && older.htype.REPEATED?
    requires (forall v :: v in items ==> FitsValue(newer, v)) && |done| + |items| <= older.arraySize
    requires EncodePacked(newer, items).Some? && |EncodePacked(newer, items).value| < TWO32
    ensures DecodePacked(older, EncodePacked(newer, items).value, done, |done|)
         == Some((done + ProjectItems(older, newer, items), |done| + |items|))
    decreases items, 0
  {
    hide EncodeValue, DecodeValue, WfField, FitsValue, ProjectValue, PrunesField;
    if items == [] {
      assert done + [] == done;
    } else {
      var e, tail := EncodeValue(newer, items[0]), EncodePacked(newer, items[1..]);
      EncodeAppend(e, tail);
      PackedItem(older, newer, items[0], tail.value);
      var p := ProjectValue(older, newer, items[0]);
      PackedItems(older, newer, items[1..], done + [p]);
      assert done + [p] + ProjectItems(older, newer, items[1..]) == done + ProjectItems(older, newer, items);
      assert StoreItem(done, |done|, p) == done + [p];
    }
  }

  lemma {:induction false} PackedRoundTrip(fields: seq<Field>, st: State, j: nat, newer: Field, s: Slot, rest: seq<byte>)
    requires SlotReady(fields, st, j, newer, s)
    requires s.Items? && s.items != [] && Packable(newer.ltype)
    requires EncodeSlot(newer, s).Some? && |EncodeSlot(newer, s).value| < TWO32
    ensures DecodeFields(fields, EncodeSlot(newer, s).value + rest, st)
         == DecodeFields(fields, rest, After(fields, st, j, newer, s))
    decreases s, 1
  {
    var f := fields[j];
    var data := EncodePacked(newer, s.items).value;
    assert |data| < TWO32;
    TakeStringPrefixed(data, rest);
    PackedItems(f, newer, s.items, []);
    assert [] + ProjectItems(f, newer, s.items) == ProjectItems(f, newer, s.items);
    assert Tag(f, 2) == Tag(newer, 2);
    KnownEntry(fields, j, 2, LengthPrefixed(data), rest, st, After(fields, st, j, newer, s));
  }

  /** The reader stands inside the array of field `j`, with `done` stored. */
  predicate ItemsReady(fields: seq<Field>, st: State, j: nat, newer: Field, done: seq<Value>) {
    && WfFields(fields) && j < |fields| == |st.slots|
    && WfField(newer) && PrunesField(fields[j], newer) && newer.htype.REPEATED? && !Packable(newer.ltype)
    && st.slots[j] == Items(done)
    && (newer.Sized() || done == [] ==> FixedBefore(fields, st.fixed, j))
    && (!newer.Sized() && done != [] ==> st.fixed == Some((j, |done|)))
  }

  /** The state once `items` are stored after `done`. */
  function AfterItems(fields: seq<Field>, st: State, j: nat, newer: Field, items: seq<Value>, done: seq<Value>): (r: State)
    requires j < |fields| == |st.slots|
    ensures |r.slots| == |fields|
  {
    State(st.slots[j := Items(done + ProjectItems(fields[j], newer, items))], st.seen,
          if !newer.Sized() && items != [] then Some((j, |done| + |items|)) else st.fixed)
  }

  lemma {:induction false} UnpackedRoundTrip(fields: seq<Field>, st: State, j: nat, newer: Field, items: seq<Value>, done: seq<Value>, rest: seq<byte>)
    requires ItemsReady(fields, st, j, newer, done)
    requires (forall v :: v in items ==> FitsValue(newer, v)) && |done| + |items| <= newer.arraySize
    requires EncodeUnpacked(newer, items).Some? && |EncodeUnpacked(newer, items).value| < TWO32
    ensures DecodeFields(fields, EncodeUnpacked(newer, items).value + rest, st)
         == DecodeFields(fields, rest, AfterItems(fields, st, j, newer, items, done))
    decreases items, 0
  {
    hide EncodeTagged, DecodeFields, FitsValue, ProjectValue, WfFields, WfField, PrunesField;
    if items == [] {
      assert [] + rest == rest && done + [] == done;
      assert AfterItems(fields, st, j, newer, items, done).slots == st.slots;
    } else {
      var e, tail := EncodeTagged(newer, items[0]), EncodeUnpacked(newer, items[1..]);
      EncodeAppend(e, tail);
      var st' := AfterItems(fields, st, j, newer, items[..1], done);
      ItemRoundTrip(fields, st, j, newer, items[0], done, tail.value + rest);
      var done' := done + [ProjectValue(fields[j], newer, items[0])];
      assert ProjectItems(fields[j], newer, items[..1]) == [ProjectValue(fields[j], newer, items[0])];
      UnpackedRoundTrip(fields, st', j, newer, items[1..], done', rest);
      assert done' + ProjectItems(fields[j], newer, items[1..]) == done + ProjectItems(fields[j], newer, items);
      assert AfterItems(fields, st', j, newer, items[1..], done') == AfterItems(fields, st, j, newer, items, done);
      assert e.value + tail.value + rest == e.value + (tail.value + rest);
    }
  }

  lemma {:induction false} ItemRoundTrip(fields: seq<Field>, st: State, j: nat, newer: Field, v: Value, done: seq<Value>, rest: seq<byte>)
    requires ItemsReady(fields, st, j, newer, done)
    requires FitsValue(newer, v) && |done| < newer.arraySize
    requires EncodeTagged(newer, v).Some? && |EncodeTagged(newer, v).value| < TWO32
    ensures DecodeFields(fields, EncodeTagged(newer, v).value + rest, st)
         == DecodeFields(fields, rest, AfterItems(fields, st, j, newer, [v], done))
    decreases v, 2
  {
    var f, w := fields[j], WireType(newer.ltype);
    EncodeAppend(Some(Tag(newer, w)), EncodeValue(newer, v));
    ValueRoundTrip(f, newer, v, rest, Int(0));
    assert Tag(f, w) == Tag(newer, w);
    assert ProjectItems(f, newer, [v]) == [ProjectValue(f, newer, v)];
    var entered := Enter(fields, j, st).value;
    assert NextIndex(entered, j) == |done|;
    KnownEntry(fields, j, w, EncodeValue(newer, v).value, rest, st, AfterItems(fields, st, j, newer, [v], done));
  }

  // ---- Main results -------------------------------------------------------------------------

  /**
   * A message written under the descriptor `newer` and read under `older`, which lacks some of its
   * fields, comes back as exactly the projection onto the kept fields.
   */
  lemma {:induction false} DecodeProjects(older: Desc, newer: Desc, slots: seq<Slot>)
    requires WfFields(newer.fields) && Prunes(older.fields, newer.fields)
    requires |slots| == |newer.fields| && FitsSlots(newer.fields, slots) && OneOfExclusive(newer.fields, slots)
    ensures Encode(newer, slots).Some?
    ensures |Encode(newer, slots).value| < TWO32 ==>
              Decode(older, Encode(newer, slots).value) == Some(Project(older.fields, newer.fields, slots))
  {
    FitsEncodes(newer.fields, slots);
    if |Encode(newer, slots).value| < TWO32 {
      MessageRoundTrip(older.fields, newer.fields, slots);
    }
  }

  lemma {:induction false} PrunesSelf(fields: seq<Field>)
    ensures Prunes(fields, fields)
    decreases fields, 0
  {
    if fields != [] {
      PrunesSelfField(fields[0]);
      PrunesSelf(fields[1..]);
    }
  }

  lemma {:induction false} PrunesSelfField(f: Field)
    ensures PrunesField(f, f)
    decreases f, 1
  {
    if f.ltype.SUBMESSAGE? && f.ptr.Fields? { PrunesSelf(f.ptr.desc.fields); }
  }

  /** The struct with every absent optional, at any depth, reset to its default; all else unchanged. */
  function Normalize(fields: seq<Field>, slots: seq<Slot>): seq<Slot>
    requires |fields| == |slots|
  {
    Project(fields, fields, slots)
  }

  /** Two structs are the same up to the values of optionals that are absent in both, at any depth. */
  predicate SameUpToAbsent(a: seq<Slot>, b: seq<Slot>)
    decreases a, 0
  {
    |a| == |b| && forall i :: 0 <= i < |a| ==> SameSlot(a[i], b[i])
  }

  predicate SameSlot(s: Slot, t: Slot)
    decreases s, 2
  {
    match s
    case Single(v) => t.Single? && SameValue(v, t.v)
    case Has(has, v) => t.Has? && t.has == has && (has ==> SameValue(v, t.v))
    case Items(items) => t.Items? && SameItems(items, t.items)
    case Union(o) => t.Union? && (o.Some? <==> t.o.Some?) && (o.Some? ==> SameValue(o.value, t.o.value))
  }

  predicate SameItems(a: seq<Value>, b: seq<Value>)
    decreases a, 2
  {
    |a| == |b| && forall i :: 0 <= i < |a| ==> SameValue(a[i], b[i])
  }

  predicate SameValue(v: Value, w: Value)
    decreases v, 1
  {
    if v.Msg? then w.Msg? && SameUpToAbsent(v.slots, w.slots) else v == w
  }

  /** The normal form of a struct differs from it in absent optionals only. */
  lemma {:induction false} NormalizeSame(fields: seq<Field>, slots: seq<Slot>)
    requires |fields| == |slots| && FitsSlots(fields, slots)
    ensures SameUpToAbsent(slots, Normalize(fields, slots))
    decreases slots, 0
  {
    if slots != [] {
      var rest := Normalize(fields[1..], slots[1..]);
      NormalizeSameSlot(fields[0], slots[0]);
      NormalizeSame(fields[1..], slots[1..]);
      assert Normalize(fields, slots) == [ProjectSlot(fields[0], fields[0], slots[0])] + rest;
      forall i | 0 <= i < |slots| ensures SameSlot(slots[i], Normalize(fields, slots)[i]) {
        if i > 0 { assert slots[i] == slots[1..][i - 1]; }
      }
    }
  }

  lemma {:induction false} NormalizeSameSlot(f: Field, s: Slot)
    requires FitsSlot(f, s)
    ensures SameSlot(s, ProjectSlot(f, f, s))
    decreases s, 2
  {
    match s
    case Single(v) => NormalizeSameValue(f, v);
    case Has(has, v) => if has { NormalizeSameValue(f, v); }
    case Items(items) => NormalizeSameItems(f, items);
    case Union(o) => if o.Some? { NormalizeSameValue(f, o.value); }
  }

  lemma {:induction false} NormalizeSameItems(f: Field, items: seq<Value>)
    requires forall v :: v in items ==> FitsValue(f, v)
    ensures SameItems(items, ProjectItems(f, f, items))
    decreases items, 0
  {
    if items != [] {
      NormalizeSameValue(f, items[0]);
      NormalizeSameItems(f, items[1..]);
      forall i | 0 <= i < |items| ensures SameValue(items[i], ProjectItems(f, f, items)[i]) {
        if i > 0 { assert items[i] == items[1..][i - 1]; }
      }
    }
  }

  lemma {:induction false} NormalizeSameValue(f: Field, v: Value)
    requires FitsValue(f, v)
    ensures SameValue(v, ProjectValue(f, f, v))
    decreases v, 1
  {
    if v.Msg? { NormalizeSame(f.ptr.desc.fields, v.slots); }
  }

  /** Structs that are the same up to absent optionals have one normal form. */
  lemma {:induction false} SameNormalizes(fields: seq<Field>, a: seq<Slot>, b: seq<Slot>)
    requires |fields| == |a| && FitsSlots(fields, a) && SameUpToAbsent(a, b)
    ensures Normalize(fields, a) == Normalize(fields, b)
    decreases a, 0
  {
    if a != [] {
      assert SameSlot(a[0], b[0]);
      SameNormalizesSlot(fields[0], a[0], b[0]);
      assert SameUpToAbsent(a[1..], b[1..]) by {
        forall i | 0 <= i < |a[1..]| ensures SameSlot(a[1..][i], b[1..][i]) { assert SameSlot(a[i + 1], b[i + 1]); }
      }
      SameNormalizes(fields[1..], a[1..], b[1..]);
    }
  }

  lemma {:induction false} SameNormalizesSlot(f: Field, s: Slot, t: Slot)
    requires FitsSlot(f, s) && SameSlot(s, t)
    ensures ProjectSlot(f, f, s) == ProjectSlot(f, f, t)
    decreases s, 2
  {
    match s
    case Single(v) => SameNormalizesValue(f, v, t.v);
    case Has(has, v) => if has { SameNormalizesValue(f, v, t.v); }
    case Items(items) => SameNormalizesItems(f, items, t.items);
    case Union(o) => if o.Some? { SameNormalizesValue(f, o.value, t.o.value); }
  }

  lemma {:induction false} SameNormalizesItems(f: Field, a: seq<Value>, b: seq<Value>)
    requires SameItems(a, b) && forall v :: v in a ==> FitsValue(f, v)
    ensures ProjectItems(f, f, a) == ProjectItems(f, f, b)
    decreases a, 1
  {
    if a != [] {
      assert SameValue(a[0], b[0]);
      SameNormalizesValue(f, a[0], b[0]);
      assert SameItems(a[1..], b[1..]) by {
        forall i | 0 <= i < |a[1..]| ensures SameValue(a[1..][i], b[1..][i]) { assert SameValue(a[i + 1], b[i + 1]); }
      }
      SameNormalizesItems(f, a[1..], b[1..]);
    }
  }

  lemma {:induction false} SameNormalizesValue(f: Field, v: Value, w: Value)
    requires FitsValue(f, v) && SameValue(v, w)
    ensures ProjectValue(f, f, v) == ProjectValue(f, f, w)
    decreases v, 1
  {
    if v.Msg? { SameNormalizes(f.ptr.desc.fields, v.slots, w.slots); }
  }

  /** Two structs that are the same as a third are the same. */
  lemma {:induction false} SameJoin(a: seq<Slot>, b: seq<Slot>, n: seq<Slot>)
    requires SameUpToAbsent(a, n) && SameUpToAbsent(b, n)
    ensures SameUpToAbsent(a, b)
    decreases a, 0
  {
    forall i | 0 <= i < |a| ensures SameSlot(a[i], b[i]) {
      assert SameSlot(a[i], n[i]) && SameSlot(b[i], n[i]);
      SameJoinSlot(a[i], b[i], n[i]);
    }
  }

  lemma {:induction false} SameJoinSlot(a: Slot, b: Slot, n: Slot)
    requires SameSlot(a, n) && SameSlot(b, n)
    ensures SameSlot(a, b)
    decreases a, 2
  {
    match a
    case Single(v) => SameJoinValue(v, b.v, n.v);
    case Has(has, v) => if has { SameJoinValue(v, b.v, n.v); }
    case Items(items) =>
      forall i | 0 <= i < |items| ensures SameValue(items[i], b.items[i]) {
        assert SameValue(items[i], n.items[i]) && SameValue(b.items[i], n.items[i]);
        SameJoinValue(items[i], b.items[i], n.items[i]);
      }
    case Union(o) => if o.Some? { SameJoinValue(o.value, b.o.value, n.o.value); }
  }

  lemma {:induction false} SameJoinValue(v: Value, w: Value, n: Value)
    requires SameValue(v, n) && SameValue(w, n)
    ensures SameValue(v, w)
    decreases v, 1
  {
    if v.Msg? { SameJoin(v.slots, w.slots, n.slots); }
  }

  /** Normal forms are equal exactly when the structs are the same up to absent optionals. */
  lemma {:induction false} NormalizeExactly(fields: seq<Field>, a: seq<Slot>, b: seq<Slot>)
    requires |fields| == |a| == |b| && FitsSlots(fields, a) && FitsSlots(fields, b)
    ensures Normalize(fields, a) == Normalize(fields, b) <==> SameUpToAbsent(a, b)
  {
    if SameUpToAbsent(a, b) {
      SameNormalizes(fields, a, b);
    } else if Normalize(fields, a) == Normalize(fields, b) {
      NormalizeSame(fields, a);
      NormalizeSame(fields, b);
      SameJoin(a, b, Normalize(fields, a));
    }
  }

  /**
   * `pb_decode` of `pb_encode` output returns the original struct up to the values of absent optionals: its normal
   * form, in which those have their defaults.
   */
  lemma {:induction false} DecodeEncode(d: Desc, slots: seq<Slot>)
    requires WfFields(d.fields)
    requires |slots| == |d.fields| && FitsSlots(d.fields, slots) && OneOfExclusive(d.fields, slots)
    ensures Encode(d, slots).Some?
    ensures |Encode(d, slots).value| < TWO32 ==>
              Decode(d, Encode(d, slots).value) == Some(Normalize(d.fields, slots))
    ensures SameUpToAbsent(slots, Normalize(d.fields, slots))
  {
    PrunesSelf(d.fields);
    DecodeProjects(d, d, slots);
    NormalizeSame(d.fields, slots);
  }
}

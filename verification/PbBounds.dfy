/** Whatever bytes are decoded, the result stays within the struct that the descriptor describes. */
module PbBounds {
  import opened Common
  import opened PbWire
  import opened PbSchema
  import opened PbCodec
  import opened PbRoundTrip

  // ---- What the struct can hold --------------------------------------------------------------

  /**
   * The object lies within the `dataSize` bytes set aside for it: a number of that width, a payload with its
   * four-byte length, a string with its terminator.
   */
  predicate ValueHeld(f: Field, v: Value)
    decreases v, 1
  {
    match f.ltype
    case VARINT | SVARINT => v.Int? && -(IntBound(f.dataSize) / 2) <= v.i < IntBound(f.dataSize) / 2
    case UVARINT => v.Int? && 0 <= v.i < IntBound(f.dataSize)
    case FIXED32 => v.Int? && 0 <= v.i < TWO32
    case FIXED64 => v.Int? && 0 <= v.i < TWO64
    case BYTES => v.Raw? && 4 + |v.bytes| <= f.dataSize
    case STRING => v.Raw? && |v.bytes| + 1 <= f.dataSize && 0 !in v.bytes
    case FIXED_LENGTH_BYTES => v.Raw? && |v.bytes| == f.dataSize
    case SUBMESSAGE => v.Msg? && f.ptr.Fields? && |v.slots| == |f.ptr.desc.fields| && Held(f.ptr.desc.fields, v.slots)
  }

  predicate SlotHeld(f: Field, s: Slot)
    decreases s, 2
  {
    match f.htype
    case REQUIRED => s.Single? && ValueHeld(f, s.v)
    case OPTIONAL => if f.Sized() then s.Has? && ValueHeld(f, s.v) else s.Single? && ValueHeld(f, s.v)
    case REPEATED => s.Items? && |s.items| <= f.arraySize && forall v :: v in s.items ==> ValueHeld(f, v)
    case ONEOF(_) => s.Union? && (s.o.Some? ==> ValueHeld(f, s.o.value))
  }

  /** Every object within its storage, no array longer than it may be, and one member to a union at most. */
  predicate Held(fields: seq<Field>, slots: seq<Slot>)
    requires |fields| == |slots|
    decreases slots, 0
  {
    (forall i :: 0 <= i < |fields| ==> SlotHeld(fields[i], slots[i])) && OneOfExclusive(fields, slots)
  }

  /** The objects the struct is initialised with fit as well, at any depth. */
  predicate DefaultHeld(f: Field)
    decreases f, 1
  {
    ValueHeld(f, DefaultValue(f)) && (f.ltype.SUBMESSAGE? && f.ptr.Fields? ==> DefaultsHeld(f.ptr.desc.fields))
  }

  predicate DefaultsHeld(fields: seq<Field>)
    decreases fields, 0
  {
    forall f :: f in fields ==> DefaultHeld(f)
  }

  lemma {:induction false} StartHeld(fields: seq<Field>)
    requires DefaultsHeld(fields)
    ensures Held(fields, DefaultSlots(fields))
  {
    hide ValueHeld, DefaultValue;
    forall i | 0 <= i < |fields| ensures SlotHeld(fields[i], DefaultSlots(fields)[i]) {
      assert DefaultHeld(fields[i]);
    }
  }

  // ---- Scalars -------------------------------------------------------------------------------

  lemma {:induction false} WrappedFits(x: int, n: nat)
    requires IntSize(n) && WrapSigned(x, n) == x
    ensures -(IntBound(n) / 2) <= x < IntBound(n) / 2
  {
  }

  lemma {:induction false} CStringShort(s: seq<byte>)
    ensures |CString(s)| <= |s| && 0 !in CString(s)
  {
    if s != [] && s[0] != 0 { CStringShort(s[1..]); }
  }

  lemma {:induction false} FixedBelow(s: seq<byte>)
    ensures |s| == 4 ==> 0 <= DecodeFixed(s) < TWO32
    ensures |s| == 8 ==> 0 <= DecodeFixed(s) < TWO64
  {
    FixedBelowPow(s);
    Pow2Values();
  }

  lemma {:induction false} FixedBelowPow(s: seq<byte>)
    ensures DecodeFixed(s) < Pow2(8 * |s|)
    decreases |s|
  {
    if s != [] {
      FixedBelowPow(s[1..]);
      Pow2Sum(8 * (|s| - 1), 8);
      assert Pow2(8) == 256 by { Pow2Values(); }
      assert 8 * |s| == 8 * (|s| - 1) + 8;
    }
  }

  lemma {:induction false} ScalarHeld(f: Field, s: seq<byte>, prior: Value)
    requires WfField(f) && !f.ltype.SUBMESSAGE? && DecodeValue(f, s, prior).Some?
    ensures ValueHeld(f, DecodeValue(f, s, prior).value.0)
  {
    hide DecodeVarint, DecodeVarint32, DecodeFixed, WrapSigned, CString, IntBound, AsInt64, UnZigZag;
    match f.ltype
    case VARINT => WrappedFits(DecodeValue(f, s, prior).value.0.i, f.dataSize);
    case SVARINT => WrappedFits(DecodeValue(f, s, prior).value.0.i, f.dataSize);
    case UVARINT => UnsignedFits(DecodeVarint(s).value.0, f.dataSize);
    case FIXED32 => FixedBelow(s[..4]);
    case FIXED64 => FixedBelow(s[..8]);
    case STRING =>
      var n := DecodeVarint32(s).value;
      CStringShort(n.1[..n.0]);
    case _ =>
  }

  lemma {:induction false} UnsignedFits(x: nat, n: nat)
    requires IntSize(n)
    ensures x % IntBound(n) == x ==> x < IntBound(n)
  {
  }

  // ---- The decoder ---------------------------------------------------------------------------

  lemma {:induction false} DecodedValueHeld(f: Field, s: seq<byte>, prior: Value)
    requires WfField(f) && DefaultHeld(f) && (f.ltype.SUBMESSAGE? && !f.htype.REPEATED? ==> ValueHeld(f, prior))
    requires DecodeValue(f, s, prior).Some?
    ensures ValueHeld(f, DecodeValue(f, s, prior).value.0)
    decreases f, |s|, 0
  {
    if f.ltype.SUBMESSAGE? {
      hide DecodeFields, TakeString;
      var fields, t := f.ptr.desc.fields, TakeString(s).value;
      StartHeld(fields);
      var into := if f.htype.REPEATED? then DefaultSlots(fields) else prior.slots;
      DecodedHeld(fields, t.0, Start(into));
    } else {
      ScalarHeld(f, s, prior);
    }
  }

  predicate ItemsHeld(f: Field, items: seq<Value>) {
    |items| <= f.arraySize && forall v :: v in items ==> ValueHeld(f, v)
  }

  lemma {:induction false} StoredHeld(f: Field, items: seq<Value>, k: nat, v: Value)
    requires ItemsHeld(f, items) && k < f.arraySize && ValueHeld(f, v)
    ensures ItemsHeld(f, StoreItem(items, k, v))
  {
    hide ValueHeld;
    var stored := StoreItem(items, k, v);
    forall x | x in stored ensures ValueHeld(f, x) {
      var i :| 0 <= i < |stored| && stored[i] == x;
      if x != v { assert x == items[i]; }
    }
  }

  lemma {:induction false} DecodedPackedHeld(f: Field, s: seq<byte>, items: seq<Value>, k: nat)
    requires WfField(f) && DefaultHeld(f) && f.htype.REPEATED? && ItemsHeld(f, items)
    requires DecodePacked(f, s, items, k).Some?
    ensures ItemsHeld(f, DecodePacked(f, s, items, k).value.0)
    decreases f, |s|, 1
  {
    hide DecodeValue, ItemsHeld, WfField, DefaultHeld, ValueHeld;
    if s != [] {
      var v := DecodeValue(f, s, Int(0)).value;
      DecodedValueHeld(f, s, Int(0));
      StoredHeld(f, items, k, v.0);
      DecodedPackedHeld(f, v.1, StoreItem(items, k, v.0), k + 1);
    }
  }

  lemma {:induction false} DecodedFieldHeld(fields: seq<Field>, i: nat, wireType: nat, s: seq<byte>, st: State)
    requires i < |fields| == |st.slots| && WfField(fields[i]) && DefaultHeld(fields[i]) && Held(fields, st.slots)
    requires DecodeField(fields, i, wireType, s, st).Some?
    ensures Held(fields, DecodeField(fields, i, wireType, s, st).value.0.slots)
    decreases fields, |s|, 2
  {
    hide DecodeValue, DecodePacked, TakeString, WfField, DefaultHeld, ValueHeld, DefaultValue;
    var f := fields[i];
    assert SlotHeld(f, st.slots[i]);
    match f.htype
    case REQUIRED => DecodedValueHeld(f, s, st.slots[i].v);
    case OPTIONAL => DecodedValueHeld(f, s, st.slots[i].v);
    case ONEOF(_) =>
      DefaultIsHeld(f);
      DecodedValueHeld(f, s, DefaultValue(f));
    case REPEATED =>
      if wireType == 2 && Packable(f.ltype) {
        DecodedPackedHeld(f, TakeString(s).value.0, st.slots[i].items, NextIndex(st, i));
      } else {
        DecodedValueHeld(f, s, Int(0));
        StoredHeld(f, st.slots[i].items, NextIndex(st, i), DecodeValue(f, s, Int(0)).value.0);
      }
  }

  lemma {:induction false} DefaultIsHeld(f: Field)
    requires DefaultHeld(f)
    ensures ValueHeld(f, DefaultValue(f))
  {
  }

  lemma {:induction false} DecodedHeld(fields: seq<Field>, s: seq<byte>, st: State)
    requires |fields| == |st.slots| && WfFields(fields) && DefaultsHeld(fields) && Held(fields, st.slots)
    requires DecodeFields(fields, s, st).Some?
    ensures Held(fields, DecodeFields(fields, s, st).value)
    decreases fields, |s|, 4
  {
    hide DecodeField, SkipField, DecodeVarint32, FindField, WfField, DefaultHeld, Held;
    if s != [] && DecodeVarint32(s).value.0 != 0 {
      var key := DecodeVarint32(s).value;
      var d := DecodeEntry(fields, key.0, key.1, st).value;
      var i := FindField(fields, key.0 / 8);
      if i.Some? {
        assert fields[i.value] in fields;
        DecodedFieldHeld(fields, i.value, key.0 % 8, key.1, Enter(fields, i.value, st).value);
      }
      DecodedHeld(fields, d.1, d.0);
    }
  }

  /** `pb_decode` of any bytes whatever yields a struct within its bounds, or nothing. */
  lemma {:induction false} DecodedWithinBounds(d: Desc, s: seq<byte>)
    requires WfFields(d.fields) && DefaultsHeld(d.fields)
    ensures Decode(d, s).Some? ==> Held(d.fields, Decode(d, s).value)
  {
    StartHeld(d.fields);
    if Decode(d, s).Some? { DecodedHeld(d.fields, s, Start(DefaultSlots(d.fields))); }
  }

  // ---- Decoding brings any input into the form the encoder writes ----------------------------

  /** Every array has a stored count, at any depth. */
  predicate AllCounted(fields: seq<Field>)
    decreases fields, 0
  {
    forall f :: f in fields ==> Counted(f)
  }

  predicate Counted(f: Field)
    decreases f, 1
  {
    (f.htype.REPEATED? ==> f.Sized()) && (f.ltype.SUBMESSAGE? && f.ptr.Fields? ==> AllCounted(f.ptr.desc.fields))
  }

  lemma {:induction false} HeldFits(fields: seq<Field>, slots: seq<Slot>)
    requires |fields| == |slots| && AllCounted(fields) && Held(fields, slots)
    ensures FitsSlots(fields, slots) && OneOfExclusive(fields, slots)
    decreases slots, 0, |fields|
  {
    forall i | 0 <= i < |fields| ensures FitsSlot(fields[i], slots[i]) {
      assert Counted(fields[i]) && SlotHeld(fields[i], slots[i]);
      SlotFits(fields[i], slots[i]);
    }
    FitsEach(fields, slots);
  }

  lemma {:induction false} FitsEach(fields: seq<Field>, slots: seq<Slot>)
    requires |fields| == |slots| && forall i :: 0 <= i < |fields| ==> FitsSlot(fields[i], slots[i])
    ensures FitsSlots(fields, slots)
    decreases |slots|
  {
    hide FitsSlot;
    if slots != [] {
      forall i | 0 <= i < |fields[1..]| ensures FitsSlot(fields[1..][i], slots[1..][i]) { assert FitsSlot(fields[i + 1], slots[i + 1]); }
      FitsEach(fields[1..], slots[1..]);
    }
  }

  lemma {:induction false} SlotFits(f: Field, s: Slot)
    requires Counted(f) && SlotHeld(f, s)
    ensures FitsSlot(f, s)
    decreases s, 2
  {
    match s
    case Single(v) => ValueFits(f, v);
    case Has(_, v) => ValueFits(f, v);
    case Items(items) => forall v | v in items ensures FitsValue(f, v) { ValueFits(f, v); }
    case Union(o) => if o.Some? { ValueFits(f, o.value); }
  }

  lemma {:induction false} ValueFits(f: Field, v: Value)
    requires Counted(f) && ValueHeld(f, v)
    ensures FitsValue(f, v)
    decreases v, 1
  {
    if v.Msg? { HeldFits(f.ptr.desc.fields, v.slots); }
  }

  /**
   * Whatever bytes are accepted, the struct they are decoded to can be encoded, and is read back from that up to the
   * values of absent optionals.
   */
  lemma {:induction false} AcceptedIsReencoded(d: Desc, s: seq<byte>)
    requires WfFields(d.fields) && DefaultsHeld(d.fields) && AllCounted(d.fields) && Decode(d, s).Some?
    ensures var slots := Decode(d, s).value;
            && Encode(d, slots).Some?
            && (|Encode(d, slots).value| < TWO32 ==>
                 Decode(d, Encode(d, slots).value).Some? && SameUpToAbsent(slots, Decode(d, Encode(d, slots).value).value))
  {
    hide DecodeFields, EncodeSlots;
    DecodedWithinBounds(d, s);
    HeldFits(d.fields, Decode(d, s).value);
    DecodeEncode(d, Decode(d, s).value);
  }

  // ---- What the encoder leaves out -----------------------------------------------------------

  /**
   * An optional without a has-flag is left out exactly when it is zero: a zero number, an empty payload, or a struct
   * that itself has nothing to write.
   */
  lemma {:induction false} OmittedExactly(f: Field, v: Value)
    requires f.htype.OPTIONAL? && !f.Sized() && WfField(f) && FitsValue(f, v)
    ensures EncodeSlot(f, Single(v)) == Some([]) <==>
            match v
            case Int(i) => i == 0
            case Raw(b) => b == []
            case Msg(slots) => f.ptr.Fields? && |slots| == |f.ptr.desc.fields| && EncodeSlots(f.ptr.desc.fields, slots) == Some([])
  {
    hide EncodeValue, WfField;
    TaggedIsWritten(f, v);
    if v.Msg? { ZeroExactly(f.ptr.desc.fields, v.slots); }
  }

  lemma {:induction false} TaggedIsWritten(f: Field, v: Value)
    ensures EncodeTagged(f, v) != Some([])
  {
    hide EncodeValue;
  }

  lemma {:induction false} ZeroExactly(fields: seq<Field>, slots: seq<Slot>)
    requires |fields| == |slots| && FitsSlots(fields, slots)
    ensures EncodeSlots(fields, slots) == Some([]) <==> AllZero(fields, slots)
    decreases slots, 0
  {
    hide EncodeSlot, SlotZero, FitsSlot;
    if slots != [] {
      SlotZeroExactly(fields[0], slots[0]);
      ZeroExactly(fields[1..], slots[1..]);
      NothingAppended(EncodeSlot(fields[0], slots[0]), EncodeSlots(fields[1..], slots[1..]));
    }
  }

  lemma {:induction false} NothingAppended(a: Option<seq<byte>>, b: Option<seq<byte>>)
    ensures Append(a, b) == Some([]) <==> a == Some([]) && b == Some([])
  {
    if a.Some? && b.Some? {
      var ab := a.value + b.value;
      assert Append(a, b) == Some(ab);
      if ab == [] { assert |a.value| + |b.value| == |ab| == 0; }
    }
  }

  lemma {:induction false} SlotZeroExactly(f: Field, s: Slot)
    requires FitsSlot(f, s)
    ensures EncodeSlot(f, s) == Some([]) <==> SlotZero(f, s)
    decreases s, 2
  {
    hide EncodeValue, EncodeItems, FitsValue;
    match s
    case Single(v) => TaggedIsWritten(f, v);
    case Has(_, v) => TaggedIsWritten(f, v);
    case Items(items) => ItemsAreWritten(f, items);
    case Union(o) => if o.Some? { TaggedIsWritten(f, o.value); }
  }

  lemma {:induction false} ItemsAreWritten(f: Field, items: seq<Value>)
    ensures EncodeItems(f, items) == Some([]) <==> items == []
  {
    hide EncodeValue, EncodePacked;
    if items != [] { TaggedIsWritten(f, items[0]); }
  }

  // ---- What the encoder refuses --------------------------------------------------------------

  /** What the encoder reads of an object lies within it: no payload longer than its storage, at any depth. */
  predicate ValueWithin(f: Field, v: Value)
    decreases v, 1
  {
    && (f.ltype.VARINT? || f.ltype.SVARINT? ==> v.Int? && -TWO63 <= v.i < TWO63)
    && (f.ltype.UVARINT? ==> v.Int? && 0 <= v.i < TWO64)
    && (f.ltype.BYTES? ==> v.Raw? && 4 + |v.bytes| <= f.dataSize)
    && (f.ltype.STRING? || f.ltype.FIXED_LENGTH_BYTES? ==> v.Raw?)
    && (f.ltype.SUBMESSAGE? ==>
         v.Msg? && f.ptr.Fields? && |v.slots| == |f.ptr.desc.fields| && Within(f.ptr.desc.fields, v.slots))
  }

  /** No array is read past its end; what is absent is not read at all. */
  predicate SlotWithin(f: Field, s: Slot)
    decreases s, 2
  {
    match s
    case Single(v) => (f.htype.OPTIONAL? && IsZero(f, v)) || ValueWithin(f, v)
    case Has(has, v) => has ==> ValueWithin(f, v)
    case Items(items) =>
      && |items| <= f.arraySize && (!f.Sized() ==> |items| == f.arraySize)
      && forall v :: v in items ==> ValueWithin(f, v)
    case Union(o) => o.Some? ==> ValueWithin(f, o.value)
  }

  predicate Within(fields: seq<Field>, slots: seq<Slot>)
    requires |fields| == |slots|
    decreases slots, 0
  {
    slots == [] || (SlotWithin(fields[0], slots[0]) && Within(fields[1..], slots[1..]))
  }

  /** A struct with a count or a length past the end of its storage is not encoded. */
  lemma {:induction false} OverrunIsRefused(fields: seq<Field>, slots: seq<Slot>)
    requires |fields| == |slots| && EncodeSlots(fields, slots).Some?
    ensures Within(fields, slots)
    decreases slots, 0
  {
    hide EncodeSlot, SlotWithin;
    if slots != [] {
      SlotOverrunRefused(fields[0], slots[0]);
      OverrunIsRefused(fields[1..], slots[1..]);
    }
  }

  lemma {:induction false} SlotOverrunRefused(f: Field, s: Slot)
    requires EncodeSlot(f, s).Some?
    ensures SlotWithin(f, s)
    decreases s, 2
  {
    hide EncodeValue, EncodeItems, ValueWithin, IsZero;
    match s
    case Single(v) => if EncodeTagged(f, v).Some? { ValueOverrunRefused(f, v); }
    case Has(has, v) => if has { ValueOverrunRefused(f, v); }
    case Items(items) => ItemsOverrunRefused(f, items);
    case Union(o) => if o.Some? { ValueOverrunRefused(f, o.value); }
  }

  lemma {:induction false} ItemsOverrunRefused(f: Field, items: seq<Value>)
    requires EncodeItems(f, items).Some?
    ensures |items| <= f.arraySize && forall v :: v in items ==> ValueWithin(f, v)
    decreases items, 1
  {
    hide EncodePacked, EncodeUnpacked, ValueWithin;
    if items != [] {
      if Packable(f.ltype) { PackedOverrunRefused(f, items); } else { UnpackedOverrunRefused(f, items); }
    }
  }

  lemma {:induction false} PackedOverrunRefused(f: Field, items: seq<Value>)
    requires EncodePacked(f, items).Some?
    ensures forall v :: v in items ==> ValueWithin(f, v)
    decreases items, 0
  {
    hide EncodeValue, ValueWithin;
    if items != [] {
      ValueOverrunRefused(f, items[0]);
      PackedOverrunRefused(f, items[1..]);
    }
  }

  lemma {:induction false} UnpackedOverrunRefused(f: Field, items: seq<Value>)
    requires EncodeUnpacked(f, items).Some?
    ensures forall v :: v in items ==> ValueWithin(f, v)
    decreases items, 0
  {
    hide EncodeValue, ValueWithin;
    if items != [] {
      ValueOverrunRefused(f, items[0]);
      UnpackedOverrunRefused(f, items[1..]);
    }
  }

  lemma {:induction false} ValueOverrunRefused(f: Field, v: Value)
    requires EncodeValue(f, v).Some?
    ensures ValueWithin(f, v)
    decreases v, 1
  {
    if f.ltype.SUBMESSAGE? { OverrunIsRefused(f.ptr.desc.fields, v.slots); }
  }
}

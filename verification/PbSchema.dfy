/**
 * Descriptors and message structs of nanopb, for statically allocated fields without callbacks or
 * extensions, in the build the project configures (`PB_FIELD_32BIT`).
 */
module PbSchema {
  import opened Common

  /** `offsetof(pb_bytes_array_t, bytes)`: the 32-bit length word before the payload. */
  const PB_BYTES_OFFSET: nat := 4
  const PB_SIZE_MAX: uint32 := 0xFFFF_FFFF
  const PB_MAX_REQUIRED_FIELDS: nat := 64

  datatype LType = VARINT | UVARINT | SVARINT | FIXED32 | FIXED64 | BYTES | STRING | SUBMESSAGE | FIXED_LENGTH_BYTES

  /** Members of a oneof carry the number of the union they live in. */
  datatype HType = REQUIRED | OPTIONAL | REPEATED | ONEOF(union: nat)

  /** Submessage fields or default value, in the one pointer `pb_field_t` has for both. */
  datatype Ptr = Null | Fields(desc: Desc) | Default(value: Value)

  /**
   * Placement in the struct: the gap after the previous field (or `PB_SIZE_MAX` for a further member of a
   * union) and the distance from the data to its has-flag, count or `which_`; zero says there is none.
   */
  datatype Layout = Layout(dataOffset: uint32, sizeOffset: int)

  datatype Field = Field(
    tag: uint32, ltype: LType, htype: HType, layout: Layout, dataSize: uint32, arraySize: uint32, ptr: Ptr)
  {
    /** The struct holds a has-flag or a count for the field. */
    predicate Sized() { layout.sizeOffset != 0 }
  }

  datatype Desc = Desc(fields: seq<Field>)

  /** One C object: an integer, a byte payload or C string, or a nested struct. */
  datatype Value = Int(i: int) | Raw(bytes: seq<byte>) | Msg(slots: seq<Slot>)

  /**
   * The storage of one field. `Has` keeps a value even when the flag is clear; a member of a union is
   * `Union(Some(v))` exactly when `which_` holds its tag.
   */
  datatype Slot = Single(v: Value) | Has(has: bool, v: Value) | Items(items: seq<Value>) | Union(o: Option<Value>)

  predicate Packable(t: LType) {
    t.VARINT? || t.UVARINT? || t.SVARINT? || t.FIXED32? || t.FIXED64?
  }

  /** Wire types: 0 varint, 1 64-bit, 2 length-delimited, 5 32-bit. */
  function WireType(t: LType): (w: nat)
    ensures w < 8
  {
    match t
    case VARINT | UVARINT | SVARINT => 0
    case FIXED64 => 1
    case FIXED32 => 5
    case _ => 2
  }

  predicate IntSize(n: nat) { n == 1 || n == 2 || n == 4 || n == 8 }

  function IntBound(n: nat): nat {
    if n == 1 then 0x100 else if n == 2 then TWO16 else if n == 4 then TWO32 else TWO64
  }

  predicate FitsSigned(x: int, n: nat) { -(IntBound(n) / 2) <= x < IntBound(n) / 2 }

  predicate FitsUnsigned(x: int, n: nat) { 0 <= x < IntBound(n) }

  /** Conversion to a two's complement integer of `n` bytes. */
  function WrapSigned(x: int, n: nat): int {
    var u := x % IntBound(n);
    if u >= IntBound(n) / 2 then u - IntBound(n) else u
  }

  function Zeros(n: nat): (s: seq<byte>)
    ensures |s| == n
  {
    seq(n, _ => 0)
  }

  // ---- Defaults -----------------------------------------------------------------------------

  /** The content `pb_field_set_to_default` gives a single object of the field. */
  function DefaultValue(f: Field): Value
    decreases f, 1
  {
    if f.ltype.SUBMESSAGE? then Msg(if f.ptr.Fields? then DefaultSlots(f.ptr.desc.fields) else [])
    else if f.ptr.Default? then f.ptr.value
    else if f.ltype.BYTES? || f.ltype.STRING? then Raw([])
    else if f.ltype.FIXED_LENGTH_BYTES? then Raw(Zeros(f.dataSize))
    else Int(0)
  }

  function DefaultSlot(f: Field): Slot
    decreases f, 2
  {
    match f.htype
    case REQUIRED => Single(DefaultValue(f))
    case OPTIONAL => if f.Sized() then Has(false, DefaultValue(f)) else Single(DefaultValue(f))
    case REPEATED => Items([])
    case ONEOF(_) => Union(None)
  }

  /** `pb_message_set_to_defaults`. */
  function DefaultSlots(fields: seq<Field>): (slots: seq<Slot>)
    ensures |slots| == |fields|
    ensures forall i :: 0 <= i < |fields| ==> slots[i] == DefaultSlot(fields[i])
    decreases fields, 0
  {
    if fields == [] then [] else [DefaultSlot(fields[0])] + DefaultSlots(fields[1..])
  }

  /** `pb_check_proto3_default_value` on a single object: nothing the encoder would have to write. */
  predicate IsZero(f: Field, v: Value)
    decreases v, 1
  {
    match v
    case Int(i) => i == 0
    case Raw(b) => b == []
    case Msg(slots) => f.ptr.Fields? && |slots| == |f.ptr.desc.fields| && AllZero(f.ptr.desc.fields, slots)
  }

  predicate AllZero(fields: seq<Field>, slots: seq<Slot>)
    requires |fields| == |slots|
    decreases slots, 0
  {
    slots == [] || (SlotZero(fields[0], slots[0]) && AllZero(fields[1..], slots[1..]))
  }

  predicate SlotZero(f: Field, s: Slot)
    decreases s, 2
  {
    match s
    case Single(v) => f.htype.OPTIONAL? && IsZero(f, v)
    case Has(has, _) => !has
    case Items(items) => items == []
    case Union(o) => o.None?
  }

  // ---- Well-formed descriptors, structs within bounds ---------------------------------------

  /** The number of required fields, as counted by the field iterator. */
  function RequiredCount(fields: seq<Field>): nat {
    if fields == [] then 0 else (if fields[0].htype.REQUIRED? then 1 else 0) + RequiredCount(fields[1..])
  }

  lemma {:induction false} RequiredCountSnoc(fields: seq<Field>, j: nat)
    requires j < |fields|
    ensures RequiredCount(fields[..j + 1]) == RequiredCount(fields[..j]) + if fields[j].htype.REQUIRED? then 1 else 0
  {
    RequiredCountConcat(fields[..j], [fields[j]]);
    assert fields[..j + 1] == fields[..j] + [fields[j]];
  }

  lemma {:induction false} RequiredCountConcat(a: seq<Field>, b: seq<Field>)
    ensures RequiredCount(a + b) == RequiredCount(a) + RequiredCount(b)
  {
    if a == [] {
      assert a + b == b;
    } else {
      RequiredCountConcat(a[1..], b);
      assert (a + b)[1..] == a[1..] + b;
    }
  }

  predicate HasTag(fields: seq<Field>, tag: nat) {
    exists i :: 0 <= i < |fields| && fields[i].tag == tag
  }

  predicate DistinctTags(fields: seq<Field>) {
    forall i, j :: 0 <= i < j < |fields| ==> fields[i].tag != fields[j].tag
  }

  /**
   * A field the generator can emit. A field without a has-flag (proto3) has no default value, and the
   * zero test on a nested struct cannot see the length of an array without a count.
   */
  predicate WfField(f: Field)
    decreases f, 1
  {
    && 0 < f.tag < 0x2000_0000
    && (f.ltype.VARINT? || f.ltype.UVARINT? || f.ltype.SVARINT? ==> IntSize(f.dataSize))
    && (f.ltype.FIXED32? ==> f.dataSize == 4)
    && (f.ltype.FIXED64? ==> f.dataSize == 8)
    && (f.ltype.SUBMESSAGE? ==> f.ptr.Fields? && WfFields(f.ptr.desc.fields))
    && (f.htype.OPTIONAL? && !f.Sized() ==> !f.ptr.Default?)
    && (f.htype.OPTIONAL? && !f.Sized() && f.ptr.Fields? ==> CountsVisible(f.ptr.desc.fields))
  }

  predicate CountsVisible(fields: seq<Field>)
    decreases fields, 0
  {
    forall f :: f in fields ==> CountVisible(f)
  }

  predicate CountVisible(f: Field)
    decreases f, 1
  {
    && (f.htype.REPEATED? ==> f.Sized())
    && (f.htype.OPTIONAL? && !f.Sized() && f.ptr.Fields? ==> CountsVisible(f.ptr.desc.fields))
  }

  predicate WfFields(fields: seq<Field>)
    decreases fields, 0
  {
    DistinctTags(fields) && forall f :: f in fields ==> WfField(f)
  }

  /** A C object the round trip preserves: integers of the declared width, NUL-terminated strings. */
  predicate FitsValue(f: Field, v: Value)
    decreases v, 1
  {
    match f.ltype
    case VARINT | SVARINT => v.Int? && FitsSigned(v.i, f.dataSize)
    case UVARINT => v.Int? && FitsUnsigned(v.i, f.dataSize)
    case FIXED32 => v.Int? && FitsUnsigned(v.i, 4)
    case FIXED64 => v.Int? && FitsUnsigned(v.i, 8)
    case BYTES => v.Raw? && |v.bytes| + PB_BYTES_OFFSET <= f.dataSize
    case STRING => v.Raw? && |v.bytes| < f.dataSize && 0 !in v.bytes
    case FIXED_LENGTH_BYTES => v.Raw? && |v.bytes| == f.dataSize
    case SUBMESSAGE =>
      && v.Msg? && f.ptr.Fields? && |v.slots| == |f.ptr.desc.fields|
      && FitsSlots(f.ptr.desc.fields, v.slots) && OneOfExclusive(f.ptr.desc.fields, v.slots)
  }

  predicate FitsSlot(f: Field, s: Slot)
    decreases s, 2
  {
    match f.htype
    case REQUIRED => s.Single? && FitsValue(f, s.v)
    case OPTIONAL => if f.Sized() then s.Has? && FitsValue(f, s.v) else s.Single? && FitsValue(f, s.v)
    case REPEATED =>
      && s.Items? && |s.items| <= f.arraySize && (!f.Sized() ==> |s.items| == f.arraySize)
      && forall v :: v in s.items ==> FitsValue(f, v)
    case ONEOF(_) => s.Union? && (s.o.Some? ==> FitsValue(f, s.o.value))
  }

  predicate FitsSlots(fields: seq<Field>, slots: seq<Slot>)
    requires |fields| == |slots|
    decreases slots, 0
  {
    slots == [] || (FitsSlot(fields[0], slots[0]) && FitsSlots(fields[1..], slots[1..]))
  }

  /** A union holds at most one of its members. */
  predicate OneOfExclusive(fields: seq<Field>, slots: seq<Slot>)
    requires |fields| == |slots|
  {
    forall i, j :: 0 <= i < j < |fields| && fields[i].htype.ONEOF? && fields[j].htype == fields[i].htype ==>
      !(slots[i].Union? && slots[i].o.Some? && slots[j].Union? && slots[j].o.Some?)
  }

  // ---- Older and newer versions of a schema -------------------------------------------------

  /** `older` is `newer` with fields removed, and the struct laid out anew, at any nesting depth. */
  predicate Prunes(older: seq<Field>, newer: seq<Field>)
    decreases newer, 0
  {
    if newer == [] then older == []
    else if older != [] && older[0].tag == newer[0].tag then
      PrunesField(older[0], newer[0]) && Prunes(older[1..], newer[1..])
    else Prunes(older, newer[1..])
  }

  predicate PrunesField(older: Field, newer: Field)
    decreases newer, 1
  {
    && older == newer.(ptr := older.ptr, layout := older.layout)
    && older.Sized() == newer.Sized()
    && (if newer.ltype.SUBMESSAGE? && newer.ptr.Fields?
        then older.ptr.Fields? && Prunes(older.ptr.desc.fields, newer.ptr.desc.fields)
        else older.ptr == newer.ptr)
  }

  /**
   * The struct an `older` reader should see: the kept fields, each absent optional or union member reset
   * to its default.
   */
  function Project(older: seq<Field>, newer: seq<Field>, slots: seq<Slot>): (r: seq<Slot>)
    requires |newer| == |slots|
    decreases slots, 0
  {
    if newer == [] then []
    else if older != [] && older[0].tag == newer[0].tag then
      [ProjectSlot(older[0], newer[0], slots[0])] + Project(older[1..], newer[1..], slots[1..])
    else Project(older, newer[1..], slots[1..])
  }

  function ProjectSlot(older: Field, newer: Field, s: Slot): Slot
    decreases s, 2
  {
    match s
    case Single(v) => Single(ProjectValue(older, newer, v))
    case Has(has, v) => if has then Has(true, ProjectValue(older, newer, v)) else DefaultSlot(older)
    case Items(items) => Items(ProjectItems(older, newer, items))
    case Union(o) => Union(if o.None? then None else Some(ProjectValue(older, newer, o.value)))
  }

  function ProjectItems(older: Field, newer: Field, items: seq<Value>): (r: seq<Value>)
    ensures |r| == |items|
    decreases items, 0
  {
    if items == [] then []
    else [ProjectValue(older, newer, items[0])] + ProjectItems(older, newer, items[1..])
  }

  function ProjectValue(older: Field, newer: Field, v: Value): Value
    decreases v, 1
  {
    match v
    case Msg(slots) =>
      if older.ptr.Fields? && newer.ptr.Fields? && |newer.ptr.desc.fields| == |slots|
      then Msg(Project(older.ptr.desc.fields, newer.ptr.desc.fields, slots))
      else v
    case _ => v
  }
}

/** What `pb_encode` writes and what `pb_decode` makes of any bytes, as functions of descriptor and struct. */
module PbCodec {
  import opened Common
  import opened PbWire
  import opened PbSchema

  // ---- Encoding -----------------------------------------------------------------------------

  function Tag(f: Field, wireType: nat): seq<byte> {
    EncodeVarint(f.tag * 8 + wireType)
  }

  function Append(a: Option<seq<byte>>, b: Option<seq<byte>>): Option<seq<byte>> {
    if a.None? || b.None? then None else Some(a.value + b.value)
  }

  /** The length goes through a cast to `pb_uint64_t`. */
  function LengthPrefixed(s: seq<byte>): seq<byte> {
    EncodeVarint(|s| % TWO64) + s
  }

  /** The memory word of a fixed-width field, modulo `m`. */
  function Word(v: Value, m: int): nat
    requires m > 0
  {
    if v.Int? then v.i % m else 0
  }

  /** The `pb_enc_*` functions; None is an encoding error. */
  function EncodeValue(f: Field, v: Value): Option<seq<byte>>
    decreases v, 1
  {
    match (f.ltype, v)
    case (VARINT, Int(i)) => if IntSize(f.dataSize) && IsInt64(i) then Some(EncodeVarint(AsUint64(i))) else None
    case (UVARINT, Int(i)) => if IntSize(f.dataSize) && 0 <= i < TWO64 then Some(EncodeVarint(i)) else None
    case (SVARINT, Int(i)) => if IntSize(f.dataSize) && IsInt64(i) then Some(EncodeVarint(ZigZag(i))) else None
    case (FIXED32, _) => Some(EncodeFixed(Word(v, TWO32), 4))
    case (FIXED64, _) => Some(EncodeFixed(Word(v, TWO64), 8))
    case (BYTES, Raw(b)) => if |b| + PB_BYTES_OFFSET > f.dataSize then None else Some(LengthPrefixed(b))
    case (STRING, Raw(b)) => Some(LengthPrefixed(b))
    case (FIXED_LENGTH_BYTES, Raw(b)) => Some(LengthPrefixed(b))
    case (SUBMESSAGE, Msg(slots)) =>
      if !f.ptr.Fields? || |f.ptr.desc.fields| != |slots| then None
      else
        var sub := EncodeSlots(f.ptr.desc.fields, slots);
        if sub.None? then None else Some(LengthPrefixed(sub.value))
    case _ => None
  }

  function EncodeTagged(f: Field, v: Value): Option<seq<byte>>
    decreases v, 2
  {
    Append(Some(Tag(f, WireType(f.ltype))), EncodeValue(f, v))
  }

  /** The payload of a packed array. */
  function EncodePacked(f: Field, items: seq<Value>): Option<seq<byte>>
    decreases items, 0
  {
    if items == [] then Some([]) else Append(EncodeValue(f, items[0]), EncodePacked(f, items[1..]))
  }

  function EncodeUnpacked(f: Field, items: seq<Value>): Option<seq<byte>>
    decreases items, 0
  {
    if items == [] then Some([]) else Append(EncodeTagged(f, items[0]), EncodeUnpacked(f, items[1..]))
  }

  /** `encode_array`: packed whenever the type allows it. */
  function EncodeItems(f: Field, items: seq<Value>): Option<seq<byte>>
    decreases items, 1
  {
    if items == [] then Some([])
    else if |items| > f.arraySize then None
    else if Packable(f.ltype) then
      var data := EncodePacked(f, items);
      if data.None? then None else Some(Tag(f, 2) + LengthPrefixed(data.value))
    else EncodeUnpacked(f, items)
  }

  /** `encode_basic_field`. */
  function EncodeSlot(f: Field, s: Slot): Option<seq<byte>>
    decreases s, 2
  {
    match (f.htype, s)
    case (REQUIRED, Single(v)) => EncodeTagged(f, v)
    case (OPTIONAL, Has(has, v)) => if !f.Sized() then None else if has then EncodeTagged(f, v) else Some([])
    case (OPTIONAL, Single(v)) => if f.Sized() then None else if IsZero(f, v) then Some([]) else EncodeTagged(f, v)
    case (REPEATED, Items(items)) => if !f.Sized() && |items| != f.arraySize then None else EncodeItems(f, items)
    case (ONEOF(_), Union(o)) => if o.Some? then EncodeTagged(f, o.value) else Some([])
    case _ => None
  }

  /** The field loop of `pb_encode`. */
  function EncodeSlots(fields: seq<Field>, slots: seq<Slot>): Option<seq<byte>>
    requires |fields| == |slots|
    decreases slots, 0
  {
    if slots == [] then Some([]) else Append(EncodeSlot(fields[0], slots[0]), EncodeSlots(fields[1..], slots[1..]))
  }

  // ---- Decoding -----------------------------------------------------------------------------

  /** `pb_skip_varint`: no limit on the number of bytes. */
  function SkipVarint(s: seq<byte>): (r: Option<seq<byte>>)
    ensures r.Some? ==> |r.value| <= |s|
  {
    if s == [] then None else if s[0] >= 128 then SkipVarint(s[1..]) else Some(s[1..])
  }

  function Take(s: seq<byte>, n: nat): (r: Option<(seq<byte>, seq<byte>)>)
    ensures r.Some? ==> |r.value.1| <= |s| && r.value.0 + r.value.1 == s
  {
    if |s| < n then None else Some((s[..n], s[n..]))
  }

  /** A 32-bit length and that many bytes, as `pb_make_string_substream` and the string readers do. */
  function TakeString(s: seq<byte>): (r: Option<(seq<byte>, seq<byte>)>)
    ensures r.Some? ==> |r.value.1| <= |s|
  {
    var n := DecodeVarint32(s);
    if n.None? then None else Take(n.value.1, n.value.0)
  }

  /** `pb_skip_field`. */
  function SkipField(wireType: nat, s: seq<byte>): (r: Option<seq<byte>>)
    ensures r.Some? ==> |r.value| <= |s|
  {
    if wireType == 0 then SkipVarint(s)
    else if wireType == 1 then (if |s| < 8 then None else Some(s[8..]))
    else if wireType == 2 then (var t := TakeString(s); if t.None? then None else Some(t.value.1))
    else if wireType == 5 then (if |s| < 4 then None else Some(s[4..]))
    else None
  }

  /** `pb_field_iter_find` on a descriptor without extensions, by position. */
  function FindField(fields: seq<Field>, tag: nat): (r: Option<nat>)
    ensures r.Some? ==> r.value < |fields| && fields[r.value].tag == tag
    ensures r.None? ==> !HasTag(fields, tag)
  {
    if fields == [] then None
    else if fields[0].tag == tag then Some(0)
    else
      var r := FindField(fields[1..], tag);
      if r.None? then None else Some(r.value + 1)
  }

  /** A C string stored in a buffer ends at its first NUL. */
  function CString(s: seq<byte>): seq<byte> {
    if s == [] || s[0] == 0 then [] else [s[0]] + CString(s[1..])
  }

  /** The progress of the field loop: the struct, the required fields seen, the current fixed-count array. */
  datatype State = State(slots: seq<Slot>, seen: set<nat>, fixed: Option<(nat, nat)>)

  function Start(slots: seq<Slot>): State {
    State(slots, {}, None)
  }

  /** The `pb_dec_*` functions. `prior` is the content of the destination, which a submessage is merged into. */
  function DecodeValue(f: Field, s: seq<byte>, prior: Value): (r: Option<(Value, seq<byte>)>)
    ensures r.Some? ==> |r.value.1| <= |s|
    decreases f, |s|, 0
  {
    match f.ltype
    case VARINT =>
      var u := DecodeVarint(s);
      if u.None? || !IntSize(f.dataSize) then None
      else
        var wide := if f.dataSize == 8 then AsInt64(u.value.0) else WrapSigned(u.value.0, 4);
        if WrapSigned(wide, f.dataSize) != wide then None else Some((Int(wide), u.value.1))
    case UVARINT =>
      var u := DecodeVarint(s);
      if u.None? || !IntSize(f.dataSize) || u.value.0 % IntBound(f.dataSize) != u.value.0 then None
      else Some((Int(u.value.0), u.value.1))
    case SVARINT =>
      var u := DecodeVarint(s);
      if u.None? || !IntSize(f.dataSize) then None
      else
        var wide := UnZigZag(u.value.0);
        if WrapSigned(wide, f.dataSize) != wide then None else Some((Int(wide), u.value.1))
    case FIXED32 => var t := Take(s, 4); if t.None? then None else Some((Int(DecodeFixed(t.value.0)), t.value.1))
    case FIXED64 => var t := Take(s, 8); if t.None? then None else Some((Int(DecodeFixed(t.value.0)), t.value.1))
    case BYTES =>
      var n := DecodeVarint32(s);
      if n.None? || n.value.0 + PB_BYTES_OFFSET > f.dataSize then None
      else var t := Take(n.value.1, n.value.0); if t.None? then None else Some((Raw(t.value.0), t.value.1))
    case STRING =>
      var n := DecodeVarint32(s);
      if n.None? || (n.value.0 + 1) % TWO32 < n.value.0 || (n.value.0 + 1) % TWO32 > f.dataSize then None
      else var t := Take(n.value.1, n.value.0); if t.None? then None else Some((Raw(CString(t.value.0)), t.value.1))
    case FIXED_LENGTH_BYTES =>
      var n := DecodeVarint32(s);
      if n.None? then None
      else if n.value.0 == 0 then Some((Raw(Zeros(f.dataSize)), n.value.1))
      else if n.value.0 != f.dataSize then None
      else var t := Take(n.value.1, n.value.0); if t.None? then None else Some((Raw(t.value.0), t.value.1))
    case SUBMESSAGE =>
      var t := TakeString(s);
      if t.None? || !f.ptr.Fields? then None
      else
        var fields := f.ptr.desc.fields;
        var into := if f.htype.REPEATED? then Msg(DefaultSlots(fields)) else prior;
        if !into.Msg? || |into.slots| != |fields| then None
        else
          var m := DecodeFields(fields, t.value.0, Start(into.slots));
          if m.None? then None else Some((Msg(m.value), t.value.1))
  }

  /** Storing an array element at index `k`. */
  function StoreItem(items: seq<Value>, k: nat, v: Value): seq<Value> {
    if k < |items| then items[k := v] else items + [v]
  }

  /** The elements of a packed array, from index `k`. The whole substream must be used up. */
  function DecodePacked(f: Field, s: seq<byte>, items: seq<Value>, k: nat): (r: Option<(seq<Value>, nat)>)
    decreases f, |s|, 1
  {
    if s == [] then Some((items, k))
    else if k >= f.arraySize then None
    else
      var v := DecodeValue(f, s, Int(0));
      if v.None? || |v.value.1| >= |s| then None
      else DecodePacked(f, v.value.1, StoreItem(items, k, v.value.0), k + 1)
  }

  /** Which array element comes next: the stored count, or the running count of a fixed-count array. */
  function NextIndex(st: State, i: nat): nat
    requires i < |st.slots| && st.slots[i].Items?
  {
    if st.fixed.Some? && st.fixed.value.0 == i then st.fixed.value.1 else |st.slots[i].items|
  }

  function StoreItems(st: State, i: nat, items: seq<Value>, k: nat): (r: State)
    requires i < |st.slots|
    ensures |r.slots| == |st.slots|
  {
    State(st.slots[i := Items(items)], st.seen,
          if st.fixed.Some? && st.fixed.value.0 == i then Some((i, k)) else st.fixed)
  }

  /** Selecting union member `i` discards whatever the union held. */
  function SelectMember(fields: seq<Field>, slots: seq<Slot>, i: nat, v: Value): (r: seq<Slot>)
    requires |fields| == |slots| && i < |slots|
    ensures |r| == |slots|
  {
    seq(|slots|, j requires 0 <= j < |slots| =>
      if j == i then Union(Some(v)) else if fields[j].htype == fields[i].htype then Union(None) else slots[j])
  }

  /** `decode_static_field`. */
  function DecodeField(fields: seq<Field>, i: nat, wireType: nat, s: seq<byte>, st: State)
    : (r: Option<(State, seq<byte>)>)
    requires i < |fields| == |st.slots|
    ensures r.Some? ==> |r.value.1| <= |s| && |r.value.0.slots| == |st.slots|
    decreases fields, |s|, 2
  {
    var f := fields[i];
    match (f.htype, st.slots[i])
    case (REQUIRED, Single(prior)) =>
      var v := DecodeValue(f, s, prior);
      if v.None? then None else Some((st.(slots := st.slots[i := Single(v.value.0)]), v.value.1))
    case (OPTIONAL, Single(prior)) =>
      var v := DecodeValue(f, s, prior);
      if v.None? then None else Some((st.(slots := st.slots[i := Single(v.value.0)]), v.value.1))
    case (OPTIONAL, Has(_, prior)) =>
      var v := DecodeValue(f, s, prior);
      if v.None? then None else Some((st.(slots := st.slots[i := Has(true, v.value.0)]), v.value.1))
    case (REPEATED, Items(items)) =>
      var k := NextIndex(st, i);
      if wireType == 2 && Packable(f.ltype) then
        var t := TakeString(s);
        if t.None? then None
        else
          var p := DecodePacked(f, t.value.0, items, k);
          if p.None? then None else Some((StoreItems(st, i, p.value.0, p.value.1), t.value.1))
      else if k >= f.arraySize then None
      else
        var v := DecodeValue(f, s, Int(0));
        if v.None? then None
        else Some((StoreItems(st, i, StoreItem(items, k, v.value.0), k + 1), v.value.1))
    case (ONEOF(_), _) =>
      var v := DecodeValue(f, s, DefaultValue(f));
      if v.None? then None
      else Some((st.(slots := SelectMember(fields, st.slots, i, v.value.0)), v.value.1))
    case _ => None
  }

  /** Decoding a field neither reads nor changes the record of required fields. */
  lemma {:induction false} SeenUnused(fields: seq<Field>, i: nat, wireType: nat, s: seq<byte>, st: State, seen: set<nat>)
    requires i < |fields| == |st.slots| && st.seen == {}
    ensures var r, r' := DecodeField(fields, i, wireType, s, st), DecodeField(fields, i, wireType, s, st.(seen := seen));
            if r.None? then r' == None
            else r.value.0.seen == {} && r' == Some((r.value.0.(seen := seen), r.value.1))
  {
    hide DecodeValue, TakeString, DecodePacked;
  }

  /** An interrupted fixed-count array must have been complete. */
  predicate FixedComplete(fields: seq<Field>, fixed: Option<(nat, nat)>) {
    fixed.None? || (fixed.value.0 < |fields| && fixed.value.1 == fields[fixed.value.0].arraySize)
  }

  /** The bookkeeping `pb_decode_noinit` does before it decodes field `i`; None is an error. */
  function Enter(fields: seq<Field>, i: nat, st: State): (r: Option<State>)
    requires i < |fields|
    ensures r.Some? ==> r.value.slots == st.slots
  {
    var f := fields[i];
    if f.htype.REPEATED? && !f.Sized() then
      if st.fixed.Some? && st.fixed.value.0 == i then Some(st)
      else if FixedComplete(fields, st.fixed) then Some(st.(fixed := Some((i, 0))))
      else None
    else if f.htype.REQUIRED? && RequiredCount(fields[..i]) < PB_MAX_REQUIRED_FIELDS then
      Some(st.(seen := st.seen + {RequiredCount(fields[..i])}))
    else Some(st)
  }

  /** The checks after the last field. Only the first 64 required fields are tracked. */
  function Finish(fields: seq<Field>, st: State): Option<seq<Slot>> {
    if !FixedComplete(fields, st.fixed) then None
    else if forall k: nat :: k < RequiredCount(fields) && k < PB_MAX_REQUIRED_FIELDS ==> k in st.seen
    then Some(st.slots) else None
  }

  /** One turn of the loop of `pb_decode_noinit`: unknown fields are skipped. */
  function DecodeEntry(fields: seq<Field>, key: nat, s: seq<byte>, st: State): (r: Option<(State, seq<byte>)>)
    requires |fields| == |st.slots|
    ensures r.Some? ==> |r.value.1| <= |s| && |r.value.0.slots| == |fields|
    decreases fields, |s|, 3
  {
    var tag, wireType := key / 8, key % 8;
    var i := FindField(fields, tag);
    if i.None? then
      // A message without fields stops at its terminator, whose tag is zero and whose type is invalid.
      if fields == [] && tag == 0 then None
      else
        var skipped := SkipField(wireType, s);
        if skipped.None? then None else Some((st, skipped.value))
    else
      var entered := Enter(fields, i.value, st);
      if entered.None? then None else DecodeField(fields, i.value, wireType, s, entered.value)
  }

  /** `pb_decode_noinit`: a key of zero ends the message. */
  function DecodeFields(fields: seq<Field>, s: seq<byte>, st: State): (r: Option<seq<Slot>>)
    requires |fields| == |st.slots|
    ensures r.Some? ==> |r.value| == |fields|
    decreases fields, |s|, 4
  {
    if s == [] then Finish(fields, st)
    else
      var key := DecodeVarint32(s);
      if key.None? then None
      else if key.value.0 == 0 then Finish(fields, st)
      else
        var d := DecodeEntry(fields, key.value.0, key.value.1, st);
        if d.None? then None else DecodeFields(fields, d.value.1, d.value.0)
  }

  /** `pb_decode`. */
  function Decode(d: Desc, s: seq<byte>): Option<seq<Slot>> {
    DecodeFields(d.fields, s, Start(DefaultSlots(d.fields)))
  }

  /** `pb_encode`. */
  function Encode(d: Desc, slots: seq<Slot>): Option<seq<byte>>
    requires |d.fields| == |slots|
  {
    EncodeSlots(d.fields, slots)
  }
}

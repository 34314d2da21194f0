/** What one entry of a message does to the struct, in any state of the decoder: replace, select, append, or overflow. */
module PbEntries {
  import opened Common
  import opened PbWire
  import opened PbSchema
  import opened PbCodec
  import opened PbRoundTrip

  /** A number or payload is read back whatever was in its place. */
  lemma {:induction false} ScalarRoundTrip(f: Field, v: Value, rest: seq<byte>, prior: Value)
    requires WfField(f) && !f.ltype.SUBMESSAGE? && FitsValue(f, v)
    requires EncodeValue(f, v).Some? && |EncodeValue(f, v).value| < TWO32
    ensures DecodeValue(f, EncodeValue(f, v).value + rest, prior) == Some((v, rest))
  {
    match f.ltype
    case FIXED32 | FIXED64 => FixedWordRoundTrip(f, v.i, rest, prior);
    case BYTES | STRING | FIXED_LENGTH_BYTES => PayloadRoundTrip(f, v.bytes, rest, prior);
    case VARINT | UVARINT | SVARINT => IntegerRoundTrip(f, v.i, rest, prior);
    case SUBMESSAGE =>
  }

  /** The descriptor and the state fit each other, and the entry is that of a scalar of the descriptor. */
  predicate Takes(fields: seq<Field>, st: State, j: nat, v: Value) {
    && WfFields(fields) && j < |fields| == |st.slots| && WfField(fields[j])
    && !fields[j].ltype.SUBMESSAGE? && FitsValue(fields[j], v)
    && EncodeTagged(fields[j], v).Some? && |EncodeTagged(fields[j], v).value| < TWO32
  }

  /** The state after an entry of a field that is not a fixed-count array: a required field is now seen. */
  function Entered(fields: seq<Field>, st: State, j: nat, slots: seq<Slot>): State
    requires j < |fields|
  {
    State(slots,
          if fields[j].htype.REQUIRED? && RequiredCount(fields[..j]) < PB_MAX_REQUIRED_FIELDS
          then st.seen + {RequiredCount(fields[..j])} else st.seen,
          st.fixed)
  }

  lemma {:induction false} EntrySplit(f: Field, v: Value, rest: seq<byte>)
    requires EncodeTagged(f, v).Some?
    ensures EncodeTagged(f, v).value + rest == Tag(f, WireType(f.ltype)) + EncodeValue(f, v).value + rest
    ensures EncodeValue(f, v).Some? && |EncodeValue(f, v).value| <= |EncodeTagged(f, v).value|
  {
  }

  /** A later entry of a singular field replaces what was there: the last one wins. */
  lemma {:induction false} LastOneWins(fields: seq<Field>, st: State, j: nat, v: Value, rest: seq<byte>)
    requires Takes(fields, st, j, v)
    requires (fields[j].htype.REQUIRED? && st.slots[j].Single?) || (fields[j].htype.OPTIONAL? && (st.slots[j].Single? || st.slots[j].Has?))
    ensures var slot := if st.slots[j].Single? then Single(v) else Has(true, v);
            DecodeFields(fields, EncodeTagged(fields[j], v).value + rest, st)
            == DecodeFields(fields, rest, Entered(fields, st, j, st.slots[j := slot]))
  {
    hide EncodeTagged, EncodeValue, DecodeValue, DecodeFields, WfFields, FitsValue, RequiredCount;
    var f := fields[j];
    var prior := st.slots[j].v;
    EntrySplit(f, v, rest);
    ScalarRoundTrip(f, v, rest, prior);
    var slot := if st.slots[j].Single? then Single(v) else Has(true, v);
    KnownEntry(fields, j, WireType(f.ltype), EncodeValue(f, v).value, rest, st, Entered(fields, st, j, st.slots[j := slot]));
  }

  /** An entry of a union member selects it and drops whatever the union held. */
  lemma {:induction false} MemberIsSelected(fields: seq<Field>, st: State, j: nat, v: Value, rest: seq<byte>)
    requires Takes(fields, st, j, v) && fields[j].htype.ONEOF?
    ensures var slots := seq(|st.slots|, i requires 0 <= i < |st.slots| =>
                           if i == j then Union(Some(v)) else if fields[i].htype == fields[j].htype then Union(None) else st.slots[i]);
            DecodeFields(fields, EncodeTagged(fields[j], v).value + rest, st)
            == DecodeFields(fields, rest, st.(slots := slots))
  {
    hide EncodeTagged, EncodeValue, DecodeValue, DecodeFields, WfFields, FitsValue, RequiredCount, DefaultValue;
    var f := fields[j];
    EntrySplit(f, v, rest);
    ScalarRoundTrip(f, v, rest, DefaultValue(f));
    var slots := seq(|st.slots|, i requires 0 <= i < |st.slots| =>
                   if i == j then Union(Some(v)) else if fields[i].htype == fields[j].htype then Union(None) else st.slots[i]);
    assert SelectMember(fields, st.slots, j, v) == slots;
    KnownEntry(fields, j, WireType(f.ltype), EncodeValue(f, v).value, rest, st, st.(slots := slots));
  }

  /** An element by itself, packable or not, is appended to a counted array; one too many is an error. */
  lemma {:induction false} ElementIsAppended(fields: seq<Field>, st: State, j: nat, v: Value, rest: seq<byte>)
    requires Takes(fields, st, j, v) && fields[j].htype.REPEATED? && fields[j].Sized() && st.slots[j].Items?
    requires st.fixed.Some? ==> st.fixed.value.0 != j
    ensures var items := st.slots[j].items;
            DecodeFields(fields, EncodeTagged(fields[j], v).value + rest, st)
            == if |items| >= fields[j].arraySize then None
               else DecodeFields(fields, rest, st.(slots := st.slots[j := Items(items + [v])]))
  {
    hide EncodeTagged, EncodeValue, DecodeValue, DecodeFields, WfFields, FitsValue, RequiredCount;
    var f, items := fields[j], st.slots[j].items;
    EntrySplit(f, v, rest);
    ScalarRoundTrip(f, v, rest, Int(0));
    if |items| < f.arraySize {
      KnownEntry(fields, j, WireType(f.ltype), EncodeValue(f, v).value, rest, st, st.(slots := st.slots[j := Items(items + [v])]));
    } else {
      KnownEntryFails(fields, j, WireType(f.ltype), EncodeValue(f, v).value + rest, st);
      assert Tag(f, WireType(f.ltype)) + EncodeValue(f, v).value + rest == Tag(f, WireType(f.ltype)) + (EncodeValue(f, v).value + rest);
    }
  }

  lemma {:induction false} KnownEntryFails(fields: seq<Field>, j: nat, w: nat, body: seq<byte>, st: State)
    requires WfFields(fields) && j < |fields| == |st.slots| && w < 8
    requires Enter(fields, j, st).Some? && DecodeField(fields, j, w, body, Enter(fields, j, st).value) == None
    ensures DecodeFields(fields, Tag(fields[j], w) + body, st) == None
  {
    hide Tag, DecodeField, Enter, WfField;
    assert fields[j] in fields;
    TagRoundTrip(fields[j], w, body);
    FindDistinct(fields, j);
  }

  // ---- Entries the reader does not know ------------------------------------------------------

  /** The bytes of a value of each wire type: a varint of any length, eight or four bytes, or a length and that many bytes. */
  predicate Spells(w: nat, v: seq<byte>) {
    match w
    case 0 => v != [] && v[|v| - 1] < 128 && forall i :: 0 <= i < |v| - 1 ==> v[i] >= 128
    case 1 => |v| == 8
    case 5 => |v| == 4
    case 2 => exists n: nat :: n < TWO32 && IsPrefixed(v, n)
    case _ => false
  }

  predicate IsPrefixed(v: seq<byte>, n: nat) {
    var length := EncodeVarint(n);
    |v| == |length| + n && v[..|length|] == length
  }

  lemma {:induction false} SkipsVarint(v: seq<byte>, rest: seq<byte>)
    requires Spells(0, v)
    ensures SkipVarint(v + rest) == Some(rest)
    decreases |v|
  {
    if |v| > 1 {
      assert (v + rest)[1..] == v[1..] + rest;
      SkipsVarint(v[1..], rest);
    } else {
      assert (v + rest)[1..] == rest;
    }
  }

  lemma {:induction false} SkipsSpelled(w: nat, v: seq<byte>, rest: seq<byte>)
    requires Spells(w, v)
    ensures SkipField(w, v + rest) == Some(rest)
  {
    hide SkipVarint, DecodeVarint32;
    match w
    case 0 => SkipsVarint(v, rest);
    case 1 => assert (v + rest)[8..] == rest;
    case 5 => assert (v + rest)[4..] == rest;
    case 2 =>
      var n: nat :| n < TWO32 && IsPrefixed(v, n);
      var length := EncodeVarint(n);
      Varint32OfEncoded(n, v[|length|..] + rest);
      assert v + rest == length + (v[|length|..] + rest);
      assert (v[|length|..] + rest)[..n] == v[|length|..] && (v[|length|..] + rest)[n..] == rest;
    case _ =>
  }

  /**
   * An entry whose tag the reader does not know is passed over, whatever its value; one of a wire type that does not
   * exist is an error.
   */
  lemma {:induction false} UnknownIsPassedOver(fields: seq<Field>, st: State, tag: nat, w: nat, v: seq<byte>, rest: seq<byte>)
    requires |fields| == |st.slots| && 0 < tag < 0x2000_0000 && w < 8 && !HasTag(fields, tag)
    ensures Spells(w, v) ==> DecodeFields(fields, EncodeVarint(8 * tag + w) + v + rest, st) == DecodeFields(fields, rest, st)
    ensures w != 0 && w != 1 && w != 2 && w != 5 ==> DecodeFields(fields, EncodeVarint(8 * tag + w) + v + rest, st) == None
  {
    hide SkipField, Spells;
    var f := Field(tag, VARINT, OPTIONAL, Layout(0, 0), 4, 0, Null);
    assert EncodeVarint(8 * tag + w) == Tag(f, w);
    if Spells(w, v) {
      SkipsSpelled(w, v, rest);
      UnknownEntry(fields, f, w, v, rest, st);
    }
    if w != 0 && w != 1 && w != 2 && w != 5 { BadWireType(fields, f, w, v + rest, st); assert Tag(f, w) + v + rest == Tag(f, w) + (v + rest); }
  }

  lemma {:induction false} BadWireType(fields: seq<Field>, f: Field, w: nat, body: seq<byte>, st: State)
    requires |fields| == |st.slots| && WfField(f) && w < 8 && w != 0 && w != 1 && w != 2 && w != 5 && !HasTag(fields, f.tag)
    ensures DecodeFields(fields, Tag(f, w) + body, st) == None
  {
    hide Tag;
    TagRoundTrip(f, w, body);
  }

  /** A key of zero ends the message: what follows is not looked at. */
  lemma {:induction false} ZeroEnds(fields: seq<Field>, st: State, rest: seq<byte>)
    requires |fields| == |st.slots|
    ensures DecodeFields(fields, [0] + rest, st) == DecodeFields(fields, [], st)
  {
  }

  /**
   * A key with tag zero and a wire type stands for no field: with fields in the descriptor it is passed over like any other
   * unknown entry, and without it is an error.
   */
  lemma {:induction false} ZeroTag(fields: seq<Field>, st: State, w: nat, v: seq<byte>, rest: seq<byte>)
    requires |fields| == |st.slots| && 0 < w < 8 && Spells(w, v) && !HasTag(fields, 0)
    ensures DecodeFields(fields, [w] + v + rest, st) == if fields == [] then None else DecodeFields(fields, rest, st)
  {
    hide SkipField, Spells;
    SkipsSpelled(w, v, rest);
    var s := [w] + v + rest;
    assert s[1..] == v + rest;
    assert DecodeVarint32(s) == Some((w, v + rest));
    assert w / 8 == 0 && w % 8 == w;
  }

  // ---- What a number becomes -----------------------------------------------------------------

  /** The largest magnitude of a signed integer of `n` bytes, plus one. */
  function Half(n: nat): int { if n == 1 then 0x80 else if n == 2 then 0x8000 else if n == 4 then 0x8000_0000 else 0x8000_0000_0000_0000 }

  /**
   * An `int32` or `int64` field takes any varint by its low 32 or 64 bits, in two's complement; a narrower one takes it
   * when the number of 32 bits is in its range.
   */
  lemma {:induction false} SignedBecomes(f: Field, s: seq<byte>, prior: Value, i: int)
    requires f.ltype.VARINT? && IntSize(f.dataSize) && DecodeVarint(s).Some?
    requires if f.dataSize == 8 then -TWO63 <= i < TWO63 && i % TWO64 == DecodeVarint(s).value.0
             else -TWO31 <= i < TWO31 && i % TWO32 == DecodeVarint(s).value.0 % TWO32
    ensures DecodeValue(f, s, prior) == if -Half(f.dataSize) <= i < Half(f.dataSize) then Some((Int(i), DecodeVarint(s).value.1)) else None
  {
    hide DecodeVarint;
    hide WrapSigned, AsInt64;
    var u := DecodeVarint(s).value.0;
    if f.dataSize == 8 { Signed64(u, i); } else { WrapIs(u, 4, i); }
    WrapFits(i, f.dataSize);
  }

  lemma {:induction false} WrapIs(u: nat, n: nat, i: int)
    requires IntSize(n) && -Half(n) <= i < Half(n) && i % IntBound(n) == u % IntBound(n)
    ensures WrapSigned(u, n) == i
  {
  }

  lemma {:induction false} WrapFits(i: int, n: nat)
    requires IntSize(n)
    ensures WrapSigned(i, n) == i <==> -Half(n) <= i < Half(n)
  {
  }

  lemma {:induction false} Signed64(u: nat, i: int)
    requires u < TWO64 && -TWO63 <= i < TWO63 && i % TWO64 == u
    ensures AsInt64(u) == i
  {
  }

  lemma {:induction false} UnZigZagIs(u: nat, i: int)
    requires u < TWO64 && -TWO63 <= i < TWO63 && u == (if i >= 0 then 2 * i else -2 * i - 1)
    ensures UnZigZag(u) == i
  {
    ZigZagRoundTrip(i);
  }

  lemma {:induction false} UnsignedFits(u: nat, n: nat)
    requires IntSize(n)
    ensures u % IntBound(n) == u <==> u < 2 * Half(n)
  {
  }

  /** An unsigned field takes exactly the numbers of its width, and a zigzag field those whose zigzag it reads. */
  lemma {:induction false} OthersBecome(f: Field, s: seq<byte>, prior: Value, i: int)
    requires IntSize(f.dataSize) && DecodeVarint(s).Some? && -TWO63 <= i < TWO63
    ensures var u := DecodeVarint(s).value;
            && (f.ltype.UVARINT? ==> DecodeValue(f, s, prior) == if u.0 < 2 * Half(f.dataSize) then Some((Int(u.0), u.1)) else None)
            && (f.ltype.SVARINT? && u.0 == (if i >= 0 then 2 * i else -2 * i - 1) ==>
                  DecodeValue(f, s, prior) == if -Half(f.dataSize) <= i < Half(f.dataSize) then Some((Int(i), u.1)) else None)
  {
    hide DecodeVarint, WrapSigned, UnZigZag;
    var u := DecodeVarint(s).value.0;
    WrapFits(i, f.dataSize);
    UnsignedFits(u, f.dataSize);
    if f.ltype.SVARINT? && u == (if i >= 0 then 2 * i else -2 * i - 1) { UnZigZagIs(u, i); }
  }

  /** A payload of fixed size that is sent empty stands for zeros. */
  lemma {:induction false} EmptyFixedBytes(f: Field, rest: seq<byte>, prior: Value)
    requires f.ltype.FIXED_LENGTH_BYTES?
    ensures DecodeValue(f, [0] + rest, prior) == Some((Raw(seq(f.dataSize, _ => 0)), rest))
  {
    assert ([0] + rest)[1..] == rest;
  }

  // ---- Arrays without a count ----------------------------------------------------------------

  /**
   * An element of an array without a count goes to the place after the last one read. Entries of the array after those of
   * another such array begin again at its first place, and are an error while the other one is not full.
   */
  lemma {:induction false} FixedElementIsStored(fields: seq<Field>, st: State, j: nat, v: Value, rest: seq<byte>)
    requires Takes(fields, st, j, v) && fields[j].htype.REPEATED? && !fields[j].Sized() && st.slots[j].Items?
    ensures var items, again := st.slots[j].items, st.fixed.Some? && st.fixed.value.0 == j;
            var k := if again then st.fixed.value.1 else 0;
            DecodeFields(fields, EncodeTagged(fields[j], v).value + rest, st)
            == if (!again && !FixedComplete(fields, st.fixed)) || k >= fields[j].arraySize then None
               else DecodeFields(fields, rest, State(st.slots[j := Items(if k < |items| then items[k := v] else items + [v])], st.seen, Some((j, k + 1))))
  {
    hide EncodeTagged, EncodeValue, DecodeValue, DecodeFields, WfFields, FitsValue, RequiredCount, FixedComplete;
    var f, items, again := fields[j], st.slots[j].items, st.fixed.Some? && st.fixed.value.0 == j;
    var k := if again then st.fixed.value.1 else 0;
    EntrySplit(f, v, rest);
    ScalarRoundTrip(f, v, rest, Int(0));
    var w, body := WireType(f.ltype), EncodeValue(f, v).value;
    assert Tag(f, w) + body + rest == Tag(f, w) + (body + rest);
    if !again && !FixedComplete(fields, st.fixed) {
      EntryRefused(fields, j, w, body + rest, st);
    } else if k >= f.arraySize {
      KnownEntryFails(fields, j, w, body + rest, st);
    } else {
      KnownEntry(fields, j, w, body, rest, st,
                 State(st.slots[j := Items(if k < |items| then items[k := v] else items + [v])], st.seen, Some((j, k + 1))));
    }
  }

  lemma {:induction false} EntryRefused(fields: seq<Field>, j: nat, w: nat, body: seq<byte>, st: State)
    requires WfFields(fields) && j < |fields| == |st.slots| && w < 8 && Enter(fields, j, st).None?
    ensures DecodeFields(fields, Tag(fields[j], w) + body, st) == None
  {
    hide Tag, DecodeField, Enter, WfField;
    assert fields[j] in fields;
    TagRoundTrip(fields[j], w, body);
    FindDistinct(fields, j);
  }
}

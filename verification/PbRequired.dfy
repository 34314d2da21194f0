/** Exactly when the decoder finds a message complete: the required fields among the entries of any input. */
module PbRequired {
  import opened Common
  import opened PbWire
  import opened PbSchema
  import opened PbCodec

  // ---- The entries of an input ---------------------------------------------------------------

  /** The wire type by which the value of a known field is passed over: that of its type, or 2 for a packed array. */
  function PassedAs(f: Field, wireType: nat): nat {
    if f.htype.REPEATED? && wireType == 2 && Packable(f.ltype) then 2 else WireType(f.ltype)
  }

  /**
   * The tags of the top-level entries, found by walking from key to key and skipping each value, up to the end, a key of
   * zero or something that cannot be skipped.
   */
  function EntryTags(fields: seq<Field>, s: seq<byte>): set<nat>
    decreases |s|
  {
    if s == [] then {}
    else
      var key := DecodeVarint32(s);
      if key.None? || key.value.0 == 0 then {}
      else
        var tag, wireType, i := key.value.0 / 8, key.value.0 % 8, FindField(fields, key.value.0 / 8);
        var rest := SkipField(if i.None? then wireType else PassedAs(fields[i.value], wireType), key.value.1);
        {tag} + if rest.None? then {} else EntryTags(fields, rest.value)
  }

  // ---- Decoding a value passes over it -------------------------------------------------------

  lemma {:induction false} VarintPasses(s: seq<byte>, bitpos: nat, acc: nat)
    requires acc < TWO64 && DecodeVarintFrom(s, bitpos, acc).Some?
    ensures SkipVarint(s) == Some(DecodeVarintFrom(s, bitpos, acc).value.1)
    decreases |s|
  {
    if s[0] >= 128 {
      WordOr(acc, Shl(s[0] % 128, bitpos) % TWO64);
      VarintPasses(s[1..], bitpos + 7, BitOr(acc, Shl(s[0] % 128, bitpos) % TWO64));
    }
  }

  lemma {:induction false} WholeVarintPasses(s: seq<byte>)
    ensures DecodeVarint(s).Some? ==> SkipVarint(s) == Some(DecodeVarint(s).value.1)
  {
    if DecodeVarint(s).Some? { VarintPasses(s, 0, 0); }
  }

  lemma {:induction false} ValuePasses(f: Field, s: seq<byte>, prior: Value)
    requires DecodeValue(f, s, prior).Some?
    ensures SkipField(WireType(f.ltype), s) == Some(DecodeValue(f, s, prior).value.1)
  {
    hide DecodeFields, DecodeVarint, DecodeVarint32, DecodeFixed, SkipVarint, WrapSigned, IntBound, AsInt64, UnZigZag, CString;
    WholeVarintPasses(s);
  }

  lemma {:induction false} FieldPasses(fields: seq<Field>, i: nat, wireType: nat, s: seq<byte>, st: State)
    requires i < |fields| == |st.slots| && DecodeField(fields, i, wireType, s, st).Some?
    ensures SkipField(PassedAs(fields[i], wireType), s) == Some(DecodeField(fields, i, wireType, s, st).value.1)
  {
    hide DecodeValue, DecodePacked, TakeString, SkipVarint, SelectMember;
    var f := fields[i];
    match (f.htype, st.slots[i])
    case (REQUIRED, Single(prior)) => ValuePasses(f, s, prior);
    case (OPTIONAL, Single(prior)) => ValuePasses(f, s, prior);
    case (OPTIONAL, Has(_, prior)) => ValuePasses(f, s, prior);
    case (REPEATED, Items(_)) => if PassedAs(f, wireType) != 2 || wireType != 2 || !Packable(f.ltype) { ValuePasses(f, s, Int(0)); }
    case (ONEOF(_), _) => ValuePasses(f, s, DefaultValue(f));
    case _ =>
  }

  // ---- Required fields -----------------------------------------------------------------------

  /** The field is required, and one of the first 64 that are. */
  predicate Tracked(fields: seq<Field>, j: nat)
    requires j < |fields|
  {
    fields[j].htype.REQUIRED? && RequiredCount(fields[..j]) < PB_MAX_REQUIRED_FIELDS
  }

  /** Each of the first 64 required fields has its tag among these. */
  predicate AllThere(fields: seq<Field>, tags: set<nat>) {
    forall j :: 0 <= j < |fields| && Tracked(fields, j) ==> fields[j].tag in tags
  }

  /** The same field, but optional and without a has-flag: what the decoder does when it need not be there. */
  function RelaxField(f: Field): Field {
    if f.htype.REQUIRED? then f.(htype := OPTIONAL, layout := f.layout.(sizeOffset := 0)) else f
  }

  function Relax(fields: seq<Field>): (r: seq<Field>)
    ensures |r| == |fields|
    ensures forall i :: 0 <= i < |fields| ==> r[i] == RelaxField(fields[i])
  {
    seq(|fields|, i requires 0 <= i < |fields| => RelaxField(fields[i]))
  }

  lemma {:induction false} FindRelaxed(fields: seq<Field>, tag: nat)
    ensures FindField(Relax(fields), tag) == FindField(fields, tag)
    decreases |fields|
  {
    if fields != [] {
      FindRelaxed(fields[1..], tag);
      assert Relax(fields)[1..] == Relax(fields[1..]);
    }
  }

  lemma {:induction false} ValueRelaxed(f: Field, s: seq<byte>, prior: Value)
    ensures DecodeValue(RelaxField(f), s, prior) == DecodeValue(f, s, prior)
  {
    hide DecodeFields, DecodeVarint, DecodeVarint32, DecodeFixed, CString, Take, TakeString, WrapSigned;
  }

  lemma {:induction false} FieldRelaxed(fields: seq<Field>, i: nat, wireType: nat, s: seq<byte>, st: State)
    requires i < |fields| == |st.slots| && (fields[i].htype.REQUIRED? ==> st.slots[i].Single?)
    ensures DecodeField(Relax(fields), i, wireType, s, st) == DecodeField(fields, i, wireType, s, st)
  {
    hide DecodeValue, DecodePacked, TakeString;
    var f := fields[i];
    ValueRelaxed(f, s, Int(0));
    if f.htype.REQUIRED? { ValueRelaxed(f, s, st.slots[i].v); }
    if f.htype.ONEOF? {
      forall v: Value ensures SelectMember(Relax(fields), st.slots, i, v) == SelectMember(fields, st.slots, i, v) {
      }
    }
  }

  // ---- The record of required fields ---------------------------------------------------------

  lemma {:induction false} CountBelow(fields: seq<Field>, i: nat, j: nat)
    requires i < j <= |fields| && fields[i].htype.REQUIRED?
    ensures RequiredCount(fields[..i]) < RequiredCount(fields[..j])
    decreases j
  {
    RequiredCountSnoc(fields, j - 1);
    if i < j - 1 { CountBelow(fields, i, j - 1); }
  }

  /** The required field of a number. */
  lemma {:induction false} RequiredAt(fields: seq<Field>, k: nat, n: nat) returns (j: nat)
    requires n <= |fields| && k < RequiredCount(fields[..n])
    ensures j < n && fields[j].htype.REQUIRED? && RequiredCount(fields[..j]) == k
    decreases n
  {
    RequiredCountSnoc(fields, n - 1);
    if k < RequiredCount(fields[..n - 1]) { j := RequiredAt(fields, k, n - 1); } else { j := n - 1; }
  }

  /** Each tracked field has been seen, or is among the tags still to come. */
  predicate Satisfied(fields: seq<Field>, seen: set<nat>, tags: set<nat>) {
    forall j :: 0 <= j < |fields| && Tracked(fields, j) ==> RequiredCount(fields[..j]) in seen || fields[j].tag in tags
  }

  lemma {:induction false} FinishChecks(fields: seq<Field>, st: State)
    ensures Finish(fields, st) == if Satisfied(fields, st.seen, {}) then Finish(Relax(fields), st.(seen := {})) else None
  {
    NoneRequired(Relax(fields));
    assert fields[..|fields|] == fields;
    if Satisfied(fields, st.seen, {}) {
      forall k: nat | k < RequiredCount(fields) && k < PB_MAX_REQUIRED_FIELDS ensures k in st.seen {
        var j := RequiredAt(fields, k, |fields|);
        assert Tracked(fields, j);
      }
    } else {
      var j :| 0 <= j < |fields| && Tracked(fields, j) && RequiredCount(fields[..j]) !in st.seen;
      CountBelow(fields, j, |fields|);
    }
  }

  lemma {:induction false} NoneRequired(fields: seq<Field>)
    requires forall i :: 0 <= i < |fields| ==> !fields[i].htype.REQUIRED?
    ensures RequiredCount(fields) == 0
    decreases |fields|
  {
    if fields != [] { NoneRequired(fields[1..]); }
  }

  /** Seeing field `i` is the same as having its tag among those to come. */
  lemma {:induction false} SeenIsThere(fields: seq<Field>, i: nat, seen: set<nat>, tags: set<nat>)
    requires DistinctTags(fields) && i < |fields|
    ensures Satisfied(fields, if Tracked(fields, i) then seen + {RequiredCount(fields[..i])} else seen, tags)
       <==> Satisfied(fields, seen, {fields[i].tag} + tags)
  {
    hide RequiredCount;
    forall j | 0 <= j < |fields| && Tracked(fields, j)
      ensures j != i ==> fields[j].tag != fields[i].tag && (Tracked(fields, i) ==> RequiredCount(fields[..j]) != RequiredCount(fields[..i]))
    {
      if j < i { CountBelow(fields, j, i); }
      if i < j && Tracked(fields, i) { CountBelow(fields, i, j); }
    }
  }

  /** The slots of required fields hold one object. */
  predicate RequiredSingle(fields: seq<Field>, slots: seq<Slot>) {
    |fields| == |slots| && forall i :: 0 <= i < |fields| && fields[i].htype.REQUIRED? ==> slots[i].Single?
  }

  lemma {:induction false} FieldKeepsSingle(fields: seq<Field>, i: nat, wireType: nat, s: seq<byte>, st: State)
    requires i < |fields| && RequiredSingle(fields, st.slots) && DecodeField(fields, i, wireType, s, st).Some?
    ensures RequiredSingle(fields, DecodeField(fields, i, wireType, s, st).value.0.slots)
  {
    hide DecodeValue, DecodePacked, TakeString;
  }

  /** One entry of a known field, against the relaxed descriptor. */
  lemma {:induction false} EntryRelaxed(fields: seq<Field>, i: nat, wireType: nat, s: seq<byte>, st: State)
    requires i < |fields| && RequiredSingle(fields, st.slots)
    ensures var entered, entered' := Enter(fields, i, st), Enter(Relax(fields), i, st.(seen := {}));
            if entered.None? then entered' == None
            else
              && entered' == Some(entered.value.(seen := {}))
              && entered.value.seen == (if Tracked(fields, i) then st.seen + {RequiredCount(fields[..i])} else st.seen)
              && var r, r' := DecodeField(fields, i, wireType, s, entered.value), DecodeField(Relax(fields), i, wireType, s, entered'.value);
                 if r.None? then r' == None
                 else r.value.0.seen == entered.value.seen && r' == Some((r.value.0.(seen := {}), r.value.1))
  {
    hide DecodeField, RequiredCount;
    var entered := Enter(fields, i, st);
    if entered.Some? {
      var plain := entered.value.(seen := {});
      FieldRelaxed(fields, i, wireType, s, plain);
      SeenUnused(fields, i, wireType, s, plain, entered.value.seen);
      assert plain.(seen := entered.value.seen) == entered.value;
    }
  }

  /**
   * The decoder on any input: it accepts just what it would accept if no field were required and in which each tracked
   * field has been seen or is still among the entries, and it yields the same struct.
   */
  lemma {:induction false} RunChecksRequired(fields: seq<Field>, s: seq<byte>, st: State)
    requires DistinctTags(fields) && RequiredSingle(fields, st.slots)
    ensures DecodeFields(fields, s, st)
         == if Satisfied(fields, st.seen, EntryTags(fields, s)) then DecodeFields(Relax(fields), s, st.(seen := {})) else None
    decreases |s|
  {
    hide Finish, Enter, DecodeField, SkipField, DecodeVarint32, Satisfied, FindField, RequiredSingle;
    FinishChecks(fields, st);
    if s != [] {
      var key := DecodeVarint32(s);
      if key.Some? && key.value.0 != 0 {
        var tag, wireType, rest := key.value.0 / 8, key.value.0 % 8, key.value.1;
        var i := FindField(fields, tag);
        FindRelaxed(fields, tag);
        if i.None? {
          var skipped := SkipField(wireType, rest);
          var tags := if skipped.None? then {} else EntryTags(fields, skipped.value);
          UnknownUnneeded(fields, st.seen, tag, tags);
          if skipped.Some? { RunChecksRequired(fields, skipped.value, st); }
        } else {
          EntryRelaxed(fields, i.value, wireType, rest, st);
          var entered := Enter(fields, i.value, st);
          if entered.Some? { SingleEntered(fields, i.value, st); }
          if entered.Some? && DecodeField(fields, i.value, wireType, rest, entered.value).Some? {
            var d := DecodeField(fields, i.value, wireType, rest, entered.value).value;
            FieldPasses(fields, i.value, wireType, rest, entered.value);
            FieldKeepsSingle(fields, i.value, wireType, rest, entered.value);
            SeenIsThere(fields, i.value, st.seen, EntryTags(fields, d.1));
            RunChecksRequired(fields, d.1, d.0);
          }
        }
      }
    }
  }

  lemma {:induction false} SingleEntered(fields: seq<Field>, i: nat, st: State)
    requires i < |fields| && RequiredSingle(fields, st.slots) && Enter(fields, i, st).Some?
    ensures RequiredSingle(fields, Enter(fields, i, st).value.slots) && |Enter(fields, i, st).value.slots| == |fields|
  {
  }

  lemma {:induction false} UnknownUnneeded(fields: seq<Field>, seen: set<nat>, tag: nat, tags: set<nat>)
    requires FindField(fields, tag).None?
    ensures Satisfied(fields, seen, {tag} + tags) <==> Satisfied(fields, seen, tags)
  {
    assert !HasTag(fields, tag);
  }

  /**
   * `pb_decode` on any bytes: a message is accepted if and only if it would be with its required fields optional and each
   * of the first 64 required fields is among its entries. The struct is the same.
   */
  lemma {:induction false} RequiredExactly(d: Desc, s: seq<byte>)
    requires DistinctTags(d.fields)
    ensures Decode(d, s) == if AllThere(d.fields, EntryTags(d.fields, s)) then Decode(Desc(Relax(d.fields)), s) else None
  {
    hide DecodeFields;
    var start := Start(DefaultSlots(d.fields));
    RunChecksRequired(d.fields, s, start);
    assert DefaultSlots(Relax(d.fields)) == DefaultSlots(d.fields) by { DefaultsRelaxed(d.fields); }
  }

  lemma {:induction false} DefaultsRelaxed(fields: seq<Field>)
    ensures DefaultSlots(Relax(fields)) == DefaultSlots(fields)
  {
    hide DefaultValue;
    forall i | 0 <= i < |fields| ensures DefaultSlot(RelaxField(fields[i])) == DefaultSlot(fields[i]) {
      DefaultRelaxed(fields[i]);
    }
  }

  lemma {:induction false} DefaultRelaxed(f: Field)
    ensures DefaultValue(RelaxField(f)) == DefaultValue(f)
  {
  }

  /** A message without one of them is refused, and the empty message is complete only if none is required. */
  lemma {:induction false} MissingIsRefused(d: Desc, s: seq<byte>, j: nat)
    requires DistinctTags(d.fields) && j < |d.fields| && Tracked(d.fields, j) && d.fields[j].tag !in EntryTags(d.fields, s)
    ensures Decode(d, s) == None
  {
    hide Decode;
    RequiredExactly(d, s);
  }
}

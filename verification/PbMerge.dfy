/** What the decoder leaves alone: a field without an entry keeps what it had, in the message and in a submessage read again. */
module PbMerge {
  import opened Common
  import opened PbWire
  import opened PbSchema
  import opened PbCodec
  import opened PbRequired

  /** An entry of field `i` changes field `j`: it is the field itself or another member of its union. */
  predicate Reaches(fields: seq<Field>, i: nat, j: nat)
    requires i < |fields| && j < |fields|
  {
    i == j || (fields[i].htype.ONEOF? && fields[j].htype == fields[i].htype)
  }

  /** None of the entries changes field `j`. */
  predicate Untouched(fields: seq<Field>, j: nat, tags: set<nat>)
    requires j < |fields|
  {
    forall i :: 0 <= i < |fields| && Reaches(fields, i, j) ==> fields[i].tag !in tags
  }

  lemma {:induction false} FieldKeepsOthers(fields: seq<Field>, i: nat, wireType: nat, s: seq<byte>, st: State, j: nat)
    requires i < |fields| == |st.slots| && j < |fields| && !Reaches(fields, i, j)
    requires DecodeField(fields, i, wireType, s, st).Some?
    ensures DecodeField(fields, i, wireType, s, st).value.0.slots[j] == st.slots[j]
  {
    hide DecodeValue, DecodePacked, TakeString, DefaultValue;
  }

  /** Whatever the bytes, a field keeps its content when none of the top-level entries changes it. */
  lemma {:induction false} UntouchedKept(fields: seq<Field>, s: seq<byte>, st: State, j: nat)
    requires j < |fields| == |st.slots| && DecodeFields(fields, s, st).Some? && Untouched(fields, j, EntryTags(fields, s))
    ensures DecodeFields(fields, s, st).value[j] == st.slots[j]
    decreases |s|
  {
    hide Enter, DecodeField, SkipField, DecodeVarint32, FindField, PassedAs;
    if s != [] {
      var key := DecodeVarint32(s).value;
      if key.0 != 0 {
        var tag, wireType := key.0 / 8, key.0 % 8;
        var i := FindField(fields, tag);
        if i.None? {
          UntouchedKept(fields, SkipField(wireType, key.1).value, st, j);
        } else {
          var entered := Enter(fields, i.value, st).value;
          var d := DecodeField(fields, i.value, wireType, key.1, entered).value;
          FieldPasses(fields, i.value, wireType, key.1, entered);
          FieldKeepsOthers(fields, i.value, wireType, key.1, entered, j);
          UntouchedKept(fields, d.1, d.0, j);
        }
      }
    }
  }

  /** The content of a field before anything is read into it: its declared default, or zero, or nothing. */
  lemma {:induction false} DeclaredDefault(f: Field)
    ensures !f.ltype.SUBMESSAGE? && f.ptr.Default? ==> DefaultValue(f) == f.ptr.value
    ensures !f.ltype.SUBMESSAGE? && !f.ptr.Default? ==>
              DefaultValue(f) == match f.ltype
                                 case BYTES | STRING => Raw([])
                                 case FIXED_LENGTH_BYTES => Raw(seq(f.dataSize, _ => 0))
                                 case _ => Int(0)
    ensures f.ltype.SUBMESSAGE? && f.ptr.Fields? ==>
              DefaultValue(f).Msg? && |DefaultValue(f).slots| == |f.ptr.desc.fields|
              && forall k :: 0 <= k < |f.ptr.desc.fields| ==> DefaultValue(f).slots[k] == DefaultSlot(f.ptr.desc.fields[k])
  {
  }

  /**
   * `pb_decode` on any bytes: a field with no entry has its default, an absent has-flag, no elements, or is not the member
   * of its union.
   */
  lemma {:induction false} AbsentHasDefault(d: Desc, s: seq<byte>, j: nat)
    requires j < |d.fields| && Decode(d, s).Some? && Untouched(d.fields, j, EntryTags(d.fields, s))
    ensures var f, slot := d.fields[j], Decode(d, s).value[j];
            match f.htype
            case REQUIRED => slot == Single(DefaultValue(f))
            case OPTIONAL => slot == if f.layout.sizeOffset != 0 then Has(false, DefaultValue(f)) else Single(DefaultValue(f))
            case REPEATED => slot == Items([])
            case ONEOF(_) => slot == Union(None)
  {
    hide DefaultValue, DecodeFields, EntryTags;
    UntouchedKept(d.fields, s, Start(DefaultSlots(d.fields)), j);
  }

  // ---- Submessages ---------------------------------------------------------------------------

  /** The submessage at the head of the input, and what of it comes from what was there. */
  lemma {:induction false} SubmessageKeeps(f: Field, s: seq<byte>, prior: Value, k: nat)
    requires f.ltype.SUBMESSAGE? && DecodeValue(f, s, prior).Some? && f.ptr.Fields? && k < |f.ptr.desc.fields|
    requires TakeString(s).Some? && Untouched(f.ptr.desc.fields, k, EntryTags(f.ptr.desc.fields, TakeString(s).value.0))
    ensures var v := DecodeValue(f, s, prior).value.0;
            && v.Msg? && |v.slots| == |f.ptr.desc.fields|
            && v.slots[k] == if f.htype.REPEATED? then DefaultSlot(f.ptr.desc.fields[k])
                             else if prior.Msg? && k < |prior.slots| then prior.slots[k] else v.slots[k]
  {
    hide DecodeFields, TakeString, EntryTags, DefaultValue;
    var fields := f.ptr.desc.fields;
    var into := if f.htype.REPEATED? then DefaultSlots(fields) else prior.slots;
    UntouchedKept(fields, TakeString(s).value.0, Start(into), k);
  }

  /**
   * A submessage that comes again is merged into the one that is there: the fields of it without an entry are kept. A new
   * element of an array and a newly selected member of a union start from the defaults instead.
   */
  lemma {:induction false} SubmessageMerges(fields: seq<Field>, i: nat, wireType: nat, s: seq<byte>, st: State, k: nat)
    requires i < |fields| == |st.slots| && DecodeField(fields, i, wireType, s, st).Some?
    requires fields[i].ltype.SUBMESSAGE? && fields[i].ptr.Fields? && k < |fields[i].ptr.desc.fields|
    requires TakeString(s).Some? && Untouched(fields[i].ptr.desc.fields, k, EntryTags(fields[i].ptr.desc.fields, TakeString(s).value.0))
    ensures var was, now, fresh' := st.slots[i], DecodeField(fields, i, wireType, s, st).value.0.slots[i], DefaultSlot(fields[i].ptr.desc.fields[k]);
            match fields[i].htype
            case REQUIRED | OPTIONAL =>
              && (was.Single? || was.Has?) && was.v.Msg? && k < |was.v.slots|
              && (now.Single? || now.Has?) && now.v.Msg? && k < |now.v.slots| && now.v.slots[k] == was.v.slots[k]
            case REPEATED =>
              var n := NextIndex(st, i);
              var at := if n < |was.items| then n else |was.items|;
              now.Items? && at < |now.items| && now.items[at].Msg? && k < |now.items[at].slots| && now.items[at].slots[k] == fresh'
            case ONEOF(_) =>
              now.Union? && now.o.Some? && now.o.value.Msg? && k < |now.o.value.slots| && now.o.value.slots[k] == fresh'
  {
    hide DecodeValue, TakeString, EntryTags, DecodePacked, Untouched, DefaultValue;
    var f := fields[i];
    match (f.htype, st.slots[i])
    case (REQUIRED, Single(prior)) => PriorIsMessage(f, s, prior); SubmessageKeeps(f, s, prior, k);
    case (OPTIONAL, Single(prior)) => PriorIsMessage(f, s, prior); SubmessageKeeps(f, s, prior, k);
    case (OPTIONAL, Has(_, prior)) => PriorIsMessage(f, s, prior); SubmessageKeeps(f, s, prior, k);
    case (REPEATED, Items(_)) => SubmessageKeeps(f, s, Int(0), k);
    case (ONEOF(_), _) => SubmessageKeeps(f, s, DefaultValue(f), k); DeclaredDefault(f);
    case _ =>
  }

  lemma {:induction false} PriorIsMessage(f: Field, s: seq<byte>, prior: Value)
    requires f.ltype.SUBMESSAGE? && !f.htype.REPEATED? && DecodeValue(f, s, prior).Some?
    ensures f.ptr.Fields? && prior.Msg? && |prior.slots| == |f.ptr.desc.fields|
  {
    hide DecodeFields, TakeString;
  }
}

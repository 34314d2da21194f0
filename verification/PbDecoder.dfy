/** `pb_decode.c`: input streams over a caller's buffer and the decoder that reads from them. */
module PbDecoder {
  import opened Common
  import opened Bits
  import opened PbWire
  import opened PbSchema
  import opened PbCodec
  import opened PbIter

  /** `pb_istream_t` over a buffer. */
  class IStream {
    const buf: array<byte>
    var state: nat
    var bytesLeft: nat

    ghost predicate Valid()
      reads this
    {
      state + bytesLeft <= buf.Length
    }

    /** The bytes still to be read. */
    ghost function Rest(): (r: seq<byte>)
      requires Valid()
      reads this, buf
      ensures |r| == bytesLeft
    {
      buf[state..state + bytesLeft]
    }

    /** Where the stream ends. */
    ghost function End(): nat
      reads this
    {
      state + bytesLeft
    }

    /** `pb_istream_from_buffer`, also used for substreams. */
    constructor (buf: array<byte>, state: nat, bytesLeft: nat)
      requires state + bytesLeft <= buf.Length
      ensures Valid() && this.buf == buf && this.state == state && this.bytesLeft == bytesLeft
    {
      this.buf, this.state, this.bytesLeft := buf, state, bytesLeft;
    }

    /** `pb_readbyte`. */
    method ReadByte() returns (ok: bool, b: byte)
      requires Valid()
      modifies this
      ensures End() == old(End())
      ensures Valid() && (ok <==> old(bytesLeft) > 0)
      ensures ok ==> old(Rest()) == [b] + Rest() && bytesLeft == old(bytesLeft) - 1
      ensures !ok ==> Rest() == old(Rest())
    {
      if bytesLeft == 0 { return false, 0; }
      ok, b := true, buf[state];
      state, bytesLeft := state + 1, bytesLeft - 1;
    }

    /** `pb_read`. */
    method Read(n: nat) returns (ok: bool, data: seq<byte>)
      requires Valid()
      modifies this
      ensures End() == old(End())
      ensures Valid() && (ok <==> Take(old(Rest()), n).Some?)
      ensures ok ==> Take(old(Rest()), n) == Some((data, Rest()))
    {
      if bytesLeft < n { return false, []; }
      ok, data := true, buf[state..state + n];
      state, bytesLeft := state + n, bytesLeft - n;
      assert old(Rest())[..n] == data && old(Rest())[n..] == Rest();
    }

    /** `pb_decode_varint`. */
    method GetVarint() returns (ok: bool, value: nat)
      requires Valid()
      modifies this
      ensures End() == old(End())
      ensures Valid() && (ok <==> DecodeVarint(old(Rest())).Some?)
      ensures ok ==> value < TWO64 && DecodeVarint(old(Rest())) == Some((value, Rest()))
    {
      var bitpos: nat, result: nat, more := 0, 0, true;
      while more
        invariant Valid() && result < TWO64
        invariant more ==> DecodeVarint(old(Rest())) == DecodeVarintFrom(Rest(), bitpos, result)
        invariant !more ==> DecodeVarint(old(Rest())) == Some((result, Rest()))
        invariant End() == old(End())
        decreases more, bytesLeft
      {
        if bitpos >= 64 { return false, 0; }
        ghost var before := Rest();
        var b;
        ok, b := ReadByte();
        if !ok { return false, 0; }
        assert before[0] == b && before[1..] == Rest();
        WordOr(result, Shl(b % 128, bitpos) % TWO64);
        result := BitOr(result, Shl(b % 128, bitpos) % TWO64);
        bitpos := bitpos + 7;
        more := b >= 128;
      }
      ok, value := true, result;
    }

    /** `pb_decode_varint32_eof`: `eof` reports that there was nothing to read. */
    method GetVarint32() returns (ok: bool, value: nat, eof: bool)
      requires Valid()
      modifies this
      ensures End() == old(End())
      ensures Valid() && (ok <==> DecodeVarint32(old(Rest())).Some?)
      ensures ok ==> DecodeVarint32(old(Rest())) == Some((value, Rest()))
      ensures eof <==> old(bytesLeft) == 0
    {
      eof := bytesLeft == 0;
      var first;
      ok, first := ReadByte();
      if !ok { return false, 0, eof; }
      assert old(Rest())[0] == first && old(Rest())[1..] == Rest();
      if first < 128 { return true, first, eof; }
      var bitpos: nat, result: nat, more := 7, first % 128, true;
      while more
        invariant Valid() && eof == (old(bytesLeft) == 0)
        invariant more ==> DecodeVarint32(old(Rest())) == DecodeVarint32From(Rest(), bitpos, result)
        invariant !more ==> DecodeVarint32(old(Rest())) == Some((result, Rest()))
        invariant End() == old(End())
        decreases more, bytesLeft
      {
        ghost var before := Rest();
        var b;
        ok, b := ReadByte();
        if !ok { return false, 0, eof; }
        assert before[0] == b && before[1..] == Rest();
        var step := Accumulate32(b, bitpos, result);
        if step.None? { return false, 0, eof; }
        result := step.value;
        bitpos := (bitpos + 7) % 256;
        more := b >= 128;
        if !more && bitpos == 35 && b / 16 % 8 != 0 { return false, 0, eof; }
      }
      ok, value := true, result;
    }

    /** `pb_skip_varint`. */
    method PassVarint() returns (ok: bool)
      requires Valid()
      modifies this
      ensures End() == old(End())
      ensures Valid() && (ok <==> SkipVarint(old(Rest())).Some?)
      ensures ok ==> SkipVarint(old(Rest())) == Some(Rest())
    {
      var more := true;
      while more
        invariant Valid()
        invariant more ==> SkipVarint(old(Rest())) == SkipVarint(Rest())
        invariant !more ==> SkipVarint(old(Rest())) == Some(Rest())
        invariant End() == old(End())
        decreases more, bytesLeft
      {
        ghost var before := Rest();
        var b;
        ok, b := ReadByte();
        if !ok { return; }
        assert before[0] == b && before[1..] == Rest();
        more := b >= 128;
      }
      ok := true;
    }

    /** `pb_skip_field`. */
    method PassField(wireType: nat) returns (ok: bool)
      requires Valid()
      modifies this
      ensures End() == old(End())
      ensures Valid() && (ok <==> SkipField(wireType, old(Rest())).Some?)
      ensures ok ==> SkipField(wireType, old(Rest())) == Some(Rest())
    {
      var data, n, eof;
      if wireType == 0 {
        ok := PassVarint();
      } else if wireType == 1 {
        ok, data := Read(8);
      } else if wireType == 2 {
        ok, n, eof := GetVarint32();
        if ok { ok, data := Read(n); }
      } else if wireType == 5 {
        ok, data := Read(4);
      } else {
        ok := false;
      }
    }

    /**
     * `pb_make_string_substream`: the substream takes its bytes off this stream's count; this stream stays
     * put until the substream is closed.
     */
    method MakeSubstream() returns (ok: bool, sub: IStream?)
      requires Valid()
      modifies this
      ensures Valid() && (ok <==> TakeString(old(Rest())).Some?) && End() <= old(End())
      ensures ok ==> sub != null && fresh(sub) && sub.Valid() && sub.buf == buf && sub.bytesLeft < old(bytesLeft)
      ensures ok ==> sub.End() + bytesLeft == old(End())
      ensures ok ==> TakeString(old(Rest())) == Some((sub.Rest(), buf[sub.End()..old(End())]))
    {
      hide DecodeVarint32;
      sub := null;
      var size, eof;
      ok, size, eof := GetVarint32();
      if !ok { return; }
      if bytesLeft < size { return false, null; }
      ghost var rest := Rest();
      sub := new IStream(buf, state, size);
      bytesLeft := bytesLeft - size;
      assert Take(rest, size) == Some((sub.Rest(), buf[sub.End()..old(End())])) by {
        assert rest[..size] == sub.Rest();
        assert rest[size..] == buf[sub.End()..old(End())];
      }
    }

    /** `pb_close_string_substream`: skip what the substream left unread and continue behind it. */
    method CloseSubstream(sub: IStream)
      requires sub.Valid() && sub != this && sub.End() + bytesLeft <= buf.Length
      modifies this, sub
      ensures Valid() && bytesLeft == old(bytesLeft) && state == old(sub.End())
    {
      if sub.bytesLeft > 0 {
        sub.state := sub.state + sub.bytesLeft;
        sub.bytesLeft := 0;
      }
      state := sub.state;
    }
  }

  // ---- Required fields ----------------------------------------------------------------------

  /** The two 32-bit words of `fields_seen` hold exactly the required-field numbers in `seen`. */
  ghost predicate Holds(words: seq<nat>, seen: set<nat>) {
    && |words| == 2 && words[0] < TWO32 && words[1] < TWO32
    && forall k: nat :: k < 64 ==> (Bit(words[k / 32], k % 32) <==> k in seen)
  }

  lemma {:induction false} HoldsMore(words: seq<nat>, seen: set<nat>, i: nat)
    requires Holds(words, seen) && i < 64
    ensures Holds(words[i / 32 := BitOr(words[i / 32], Pow2(i % 32))], seen + {i})
  {
    var w := BitOr(words[i / 32], Pow2(i % 32));
    var words' := words[i / 32 := w];
    Pow2Mono(i % 32 + 1, 32);
    Pow2Values();
    assert w < TWO32 by { BitOrBelow(words[i / 32], Pow2(i % 32), 32); }
    forall k: nat | k < 64 ensures Bit(words'[k / 32], k % 32) <==> k in seen + {i} {
      BitOrBit(words[i / 32], Pow2(i % 32), k % 32);
      BitPow2(i % 32, k % 32);
      assert k / 32 == i / 32 && k % 32 == i % 32 <==> k == i;
    }
  }

  ghost predicate LowOnes(w: nat, n: nat) {
    forall k: nat :: k < 32 ==> (Bit(w, k) <==> k < n)
  }

  /** A word is all ones below bit `n`, and zero from there on, exactly when its bits say so. */
  lemma {:induction false} WordOfOnes(w: nat, n: nat)
    requires w < TWO32 && n <= 32
    ensures w == Ones(n) <==> LowOnes(w, n)
  {
    hide Bit;
    Pow2Values();
    Pow2Mono(n, 32);
    forall k: nat | k < 32 ensures Bit(Ones(n), k) <==> k < n { BitOnes(n, k); }
    if LowOnes(w, n) { SameBits(w, Ones(n), 32); }
  }

  /** The final test of `pb_decode_noinit`: whole words first, then the remaining bits. */
  method AllSeen(words: seq<nat>, n: nat, ghost seen: set<nat>) returns (ok: bool)
    requires Holds(words, seen) && n <= 64 && forall k :: k in seen ==> k < n
    ensures ok <==> forall k: nat :: k < n ==> k in seen
  {
    hide Bit;
    Pow2Values();
    var i := 0;
    while i < n / 32
      invariant 0 <= i <= n / 32
      invariant forall k: nat :: k < 32 * i ==> k in seen
    {
      WordOfOnes(words[i], 32);
      if words[i] != 0xFFFF_FFFF {
        var j: nat :| j < 32 && !Bit(words[i], j);
        assert (32 * i + j) / 32 == i && (32 * i + j) % 32 == j;
        assert 32 * i + j !in seen;
        return false;
      }
      forall k: nat | k < 32 * (i + 1) ensures k in seen {
        if k >= 32 * i { assert k / 32 == i && Bit(words[i], k % 32); }
      }
      i := i + 1;
    }
    if n % 32 != 0 {
      LastWord(words, n, seen);
      return words[n / 32] == Pow2(n % 32) - 1;
    }
    ok := true;
  }

  lemma {:induction false} LastWord(words: seq<nat>, n: nat, seen: set<nat>)
    requires Holds(words, seen) && n < 64 && n % 32 != 0 && forall k :: k in seen ==> k < n
    requires forall k: nat :: k < n / 32 * 32 ==> k in seen
    ensures words[n / 32] == Ones(n % 32) <==> forall k: nat :: k < n ==> k in seen
  {
    hide Bit;
    var w, base := words[n / 32], n / 32 * 32;
    WordOfOnes(w, n % 32);
    forall k: nat | k < 32 ensures Bit(w, k) <==> base + k in seen {
      assert (base + k) / 32 == n / 32 && (base + k) % 32 == k;
    }
    if forall k: nat :: k < n ==> k in seen {
      forall k: nat | k < 32 ensures Bit(w, k) <==> k < n % 32 {
        assert base + k in seen <==> base + k < n;
      }
      assert LowOnes(w, n % 32);
    }
    if w == Ones(n % 32) {
      forall k: nat | k < n ensures k in seen {
        if k >= base { assert Bit(w, k - base); }
      }
    }
  }

  /** The number of required fields, found by walking on to the end of the descriptor. */
  method CountRequired(iter: FieldIter) returns (n: nat)
    requires iter.Valid()
    modifies iter
    ensures n == RequiredCount(iter.start)
  {
    n := iter.requiredFieldIndex;
    if iter.start == [] { return 0; }
    var lastRequired := iter.start[iter.pos].htype.REQUIRED?;
    var more := iter.Next();
    ghost var at: nat := if more then iter.pos - 1 else |iter.start| - 1;
    while more
      invariant iter.Valid() && at < |iter.start|
      invariant n == RequiredCount(iter.start[..at]) && lastRequired == iter.start[at].htype.REQUIRED?
      invariant if more then iter.pos == at + 1 else at == |iter.start| - 1
      decreases more, |iter.start| - at
    {
      n := iter.requiredFieldIndex;
      lastRequired := iter.start[iter.pos].htype.REQUIRED?;
      at := iter.pos;
      more := iter.Next();
    }
    RequiredCountSnoc(iter.start, at);
    assert iter.start[..at + 1] == iter.start;
    if lastRequired { n := n + 1; }
  }

  // ---- Field decoders -----------------------------------------------------------------------

  /** The `pb_dec_*` functions. */
  method GetValue(stream: IStream, f: Field, prior: Value) returns (ok: bool, v: Value)
    requires stream.Valid() && WfField(f)
    modifies stream
    ensures stream.Valid() && stream.End() <= old(stream.End()) && (ok ==> stream.End() == old(stream.End()))
    ensures ok <==> DecodeValue(f, old(stream.Rest()), prior).Some?
    ensures ok ==> DecodeValue(f, old(stream.Rest()), prior) == Some((v, stream.Rest()))
    decreases f, stream.bytesLeft, 0
  {
    v := Int(0);
    match f.ltype
    case VARINT | UVARINT | SVARINT => ok, v := GetInteger(stream, f, prior);
    case FIXED32 | FIXED64 =>
      var data;
      ok, data := stream.Read(if f.ltype.FIXED32? then 4 else 8);
      if ok { v := Int(DecodeFixed(data)); }
    case BYTES | STRING | FIXED_LENGTH_BYTES => ok, v := GetPayload(stream, f, prior);
    case SUBMESSAGE => ok, v := GetSubmessage(stream, f, prior);
  }

  /** `pb_dec_varint`, `pb_dec_uvarint` and `pb_dec_svarint`: convert, and refuse what does not fit. */
  method GetInteger(stream: IStream, f: Field, ghost prior: Value) returns (ok: bool, v: Value)
    requires stream.Valid() && (f.ltype.VARINT? || f.ltype.UVARINT? || f.ltype.SVARINT?)
    modifies stream
    ensures stream.Valid() && stream.End() <= old(stream.End()) && (ok ==> stream.End() == old(stream.End()))
    ensures ok <==> DecodeValue(f, old(stream.Rest()), prior).Some?
    ensures ok ==> DecodeValue(f, old(stream.Rest()), prior) == Some((v, stream.Rest()))
  {
    hide DecodeVarint;
    v := Int(0);
    var value;
    ok, value := stream.GetVarint();
    if !ok { return; }
    if !IntSize(f.dataSize) { return false, v; }
    if f.ltype.UVARINT? {
      return value % IntBound(f.dataSize) == value, Int(value);
    }
    var wide :=
      if f.ltype.SVARINT? then UnZigZag(value)
      else if f.dataSize == 8 then AsInt64(value)
      else WrapSigned(value, 4);
    return WrapSigned(wide, f.dataSize) == wide, Int(wide);
  }

  /** `pb_dec_bytes`, `pb_dec_string` and `pb_dec_fixed_length_bytes`. */
  method GetPayload(stream: IStream, f: Field, ghost prior: Value) returns (ok: bool, v: Value)
    requires stream.Valid() && (f.ltype.BYTES? || f.ltype.STRING? || f.ltype.FIXED_LENGTH_BYTES?)
    modifies stream
    ensures stream.Valid() && stream.End() <= old(stream.End()) && (ok ==> stream.End() == old(stream.End()))
    ensures ok <==> DecodeValue(f, old(stream.Rest()), prior).Some?
    ensures ok ==> DecodeValue(f, old(stream.Rest()), prior) == Some((v, stream.Rest()))
  {
    hide DecodeVarint32;
    v := Int(0);
    var size, eof, data;
    ok, size, eof := stream.GetVarint32();
    if !ok { return; }
    if f.ltype.BYTES? {
      if size + PB_BYTES_OFFSET > f.dataSize { return false, v; }
    } else if f.ltype.STRING? {
      var allocSize := (size + 1) % TWO32;
      if allocSize < size || allocSize > f.dataSize { return false, v; }
    } else {
      if size == 0 { return true, Raw(Zeros(f.dataSize)); }
      if size != f.dataSize { return false, v; }
    }
    ok, data := stream.Read(size);
    if ok { v := Raw(if f.ltype.STRING? then CString(data) else data); }
  }

  /** `pb_dec_submessage`. Elements of repeated fields start from defaults, others are merged into. */
  method GetSubmessage(stream: IStream, f: Field, prior: Value) returns (ok: bool, v: Value)
    requires stream.Valid() && f.ltype.SUBMESSAGE? && f.ptr.Fields? && WfFields(f.ptr.desc.fields)
    modifies stream
    ensures stream.Valid() && stream.End() <= old(stream.End()) && (ok ==> stream.End() == old(stream.End()))
    ensures ok <==> DecodeValue(f, old(stream.Rest()), prior).Some?
    ensures ok ==> DecodeValue(f, old(stream.Rest()), prior) == Some((v, stream.Rest()))
    decreases f, stream.bytesLeft, 0, 0
  {
    hide TakeString, DecodeFields, WfFields, DefaultSlots, DefaultSlot;
    v := Int(0);
    var sub;
    ok, sub := stream.MakeSubstream();
    if !ok { return; }
    ghost var data, rest := sub.Rest(), TakeString(old(stream.Rest())).value.1;
    var fields := f.ptr.desc.fields;
    var into := if f.htype.REPEATED? then Msg(DefaultSlots(fields)) else prior;
    if !into.Msg? || |into.slots| != |fields| { return false, v; }
    var slots;
    ok, slots := DecodeNoInit(sub, fields, into.slots);
    stream.CloseSubstream(sub);
    if ok {
      v := Msg(slots);
      assert stream.Rest() == rest;
    }
  }

  /** The packed branch of `decode_static_field`: fill the array from a substream, which must be used up. */
  method GetPacked(stream: IStream, f: Field, items: seq<Value>, k: nat) returns (ok: bool, out: seq<Value>, n: nat)
    requires stream.Valid() && Packable(f.ltype) && WfField(f)
    modifies stream
    ensures stream.Valid() && stream.End() <= old(stream.End()) && (ok ==> stream.End() == old(stream.End()))
    ensures var t := TakeString(old(stream.Rest()));
            && (ok <==> t.Some? && DecodePacked(f, t.value.0, items, k).Some?)
            && (ok ==> DecodePacked(f, t.value.0, items, k) == Some((out, n)) && stream.Rest() == t.value.1)
    decreases f, stream.bytesLeft, 1
  {
    hide TakeString, WfField, DecodeValue;
    out, n := items, k;
    var sub;
    ok, sub := stream.MakeSubstream();
    if !ok { return; }
    ghost var data, rest, end := sub.Rest(), TakeString(old(stream.Rest())).value.1, sub.End();
    ghost var left := stream.bytesLeft;
    while sub.bytesLeft > 0 && n < f.arraySize
      invariant sub.Valid() && sub.End() == end && stream.bytesLeft == left && stream.Valid()
      invariant end + left == old(stream.End()) && stream.End() <= old(stream.End())
      invariant DecodePacked(f, data, items, k) == DecodePacked(f, sub.Rest(), out, n)
      decreases sub.bytesLeft
    {
      ghost var before := sub.Rest();
      var v;
      PackableConsumes(f, before, Int(0));
      ok, v := GetValue(sub, f, Int(0));
      if !ok { return; }
      out := StoreItem(out, n, v);
      n := n + 1;
    }
    if sub.bytesLeft != 0 { return false, out, n; }
    stream.CloseSubstream(sub);
    assert stream.Rest() == rest;
    ok := true;
  }

  lemma {:induction false} PackableConsumes(f: Field, s: seq<byte>, prior: Value)
    requires Packable(f.ltype)
    ensures DecodeValue(f, s, prior).Some? ==> |DecodeValue(f, s, prior).value.1| < |s|
  {
  }

  /** `decode_static_field`. */
  method GetField(stream: IStream, fields: seq<Field>, i: nat, wireType: nat, st: State) returns (ok: bool, out: State)
    requires stream.Valid() && WfFields(fields) && i < |fields| == |st.slots|
    modifies stream
    ensures stream.Valid() && stream.End() <= old(stream.End()) && (ok ==> stream.End() == old(stream.End()))
    ensures ok <==> DecodeField(fields, i, wireType, old(stream.Rest()), st).Some?
    ensures ok ==> DecodeField(fields, i, wireType, old(stream.Rest()), st) == Some((out, stream.Rest()))
    decreases fields, stream.bytesLeft, 2, 0
  {
    hide WfField, DecodeValue, TakeString, DecodePacked;
    var f := fields[i];
    assert WfField(f) by { assert f in fields; }
    out := st;
    var v;
    match (f.htype, st.slots[i])
    case (REQUIRED, Single(prior)) =>
      ok, v := GetValue(stream, f, prior);
      out := st.(slots := st.slots[i := Single(v)]);
    case (OPTIONAL, Single(prior)) =>
      ok, v := GetValue(stream, f, prior);
      out := st.(slots := st.slots[i := Single(v)]);
    case (OPTIONAL, Has(_, prior)) =>
      ok, v := GetValue(stream, f, prior);
      out := st.(slots := st.slots[i := Has(true, v)]);
    case (REPEATED, Items(items)) =>
      var k := NextIndex(st, i);
      if wireType == 2 && Packable(f.ltype) {
        var stored, n;
        ok, stored, n := GetPacked(stream, f, items, k);
        out := StoreItems(st, i, stored, n);
      } else {
        if k >= f.arraySize { return false, st; }
        ok, v := GetValue(stream, f, Int(0));
        out := StoreItems(st, i, StoreItem(items, k, v), k + 1);
      }
    case (ONEOF(_), _) =>
      ok, v := GetValue(stream, f, DefaultValue(f));
      out := st.(slots := SelectMember(fields, st.slots, i, v));
    case _ => ok := false;
  }

  /**
   * One turn of the loop of `pb_decode_noinit`: skip an unknown field; for a known one, the bookkeeping of
   * fixed-count arrays and required fields, then the field itself.
   */
  method GetEntry(stream: IStream, iter: FieldIter, key: nat, st: State, words: seq<nat>, ghost seen: set<nat>)
    returns (ok: bool, out: State, words': seq<nat>, ghost seen': set<nat>)
    requires stream.Valid() && iter.Valid() && WfFields(iter.start)
    requires |st.slots| == |iter.start| && st.seen == {} && Holds(words, seen) && Numbered(iter.start, seen)
    modifies stream, iter
    ensures stream.Valid() && stream.End() <= old(stream.End()) && (ok ==> stream.End() == old(stream.End()))
    ensures iter.Valid()
    ensures var r := DecodeEntry(iter.start, key, old(stream.Rest()), st.(seen := seen));
            && (ok <==> r.Some?)
            && (ok ==> r == Some((out.(seen := seen'), stream.Rest())))
    ensures ok ==> |out.slots| == |iter.start| && out.seen == {} && Holds(words', seen') && Numbered(iter.start, seen')
    decreases iter.start, stream.bytesLeft, 3
  {
    ok, out, words', seen' := false, st, words, seen;
    var found := iter.Find(key / 8);
    if !found {
      ok := stream.PassField(key % 8);
    } else if iter.start != [] {
      ok, out, words', seen' := GetKnown(stream, iter, key % 8, st, words, seen);
    }
  }

  method GetKnown(stream: IStream, iter: FieldIter, wireType: nat, st: State, words: seq<nat>, ghost seen: set<nat>)
    returns (ok: bool, out: State, words': seq<nat>, ghost seen': set<nat>)
    requires stream.Valid() && iter.Valid() && iter.start != [] && WfFields(iter.start)
    requires |st.slots| == |iter.start| && st.seen == {} && Holds(words, seen) && Numbered(iter.start, seen)
    modifies stream
    ensures stream.Valid() && stream.End() <= old(stream.End()) && (ok ==> stream.End() == old(stream.End()))
    ensures var entered := Enter(iter.start, iter.pos, st.(seen := seen));
            var r := if entered.None? then None
                     else DecodeField(iter.start, iter.pos, wireType, old(stream.Rest()), entered.value);
            && (ok <==> r.Some?)
            && (ok ==> r == Some((out.(seen := seen'), stream.Rest())))
    ensures ok ==> |out.slots| == |iter.start| && out.seen == {} && Holds(words', seen') && Numbered(iter.start, seen')
    decreases iter.start, stream.bytesLeft, 2, 1
  {
    hide WfFields, WfField, DecodeField;
    ok, out, words', seen' := false, st, words, seen;
    ghost var entered := Enter(iter.start, iter.pos, st.(seen := seen));
    var f := iter.start[iter.pos];
    if f.htype.REPEATED? && iter.pSize == iter.pData && !(st.fixed.Some? && st.fixed.value.0 == iter.pos) {
      if !FixedComplete(iter.start, st.fixed) { return; }
      out := st.(fixed := Some((iter.pos, 0)));
    }
    if f.htype.REQUIRED? && iter.requiredFieldIndex < PB_MAX_REQUIRED_FIELDS {
      var n := iter.requiredFieldIndex;
      HoldsMore(words, seen, n);
      NumberedMore(iter.start, seen, iter.pos);
      words' := words[n / 32 := BitOr(words[n / 32], Pow2(n % 32))];
      seen' := seen + {n};
    }
    assert entered == Some(out.(seen := seen'));
    SeenUnused(iter.start, iter.pos, wireType, stream.Rest(), out, seen');
    ok, out := GetField(stream, iter.start, iter.pos, wireType, out);
  }

  /** `pb_decode_noinit`. */
  method DecodeNoInit(stream: IStream, fields: seq<Field>, slots: seq<Slot>) returns (ok: bool, out: seq<Slot>)
    requires stream.Valid() && |fields| == |slots| && WfFields(fields)
    modifies stream
    ensures stream.Valid() && stream.End() <= old(stream.End()) && (ok ==> stream.End() == old(stream.End()))
    ensures ok <==> DecodeFields(fields, old(stream.Rest()), Start(slots)).Some?
    ensures ok ==> DecodeFields(fields, old(stream.Rest()), Start(slots)) == Some(out)
    decreases fields, stream.bytesLeft, 4
  {
    hide WfFields, DecodeEntry, DecodeVarint32;
    ok, out := false, slots;
    var st := Start(slots);
    var words: seq<nat> := [0, 0];
    ghost var seen: set<nat> := {};
    NothingSeen();
    var iter := new FieldIter(fields);
    while stream.bytesLeft > 0
      invariant stream.Valid() && stream.End() == old(stream.End()) && iter.Valid() && iter.start == fields
      invariant |st.slots| == |fields| && st.seen == {} && Holds(words, seen) && Numbered(fields, seen)
      invariant DecodeFields(fields, old(stream.Rest()), Start(slots)) == DecodeFields(fields, stream.Rest(), st.(seen := seen))
      decreases stream.bytesLeft
    {
      var key, eof;
      ok, key, eof := stream.GetVarint32();
      if !ok { return; }
      if key == 0 { break; }
      ok, st, words, seen := GetEntry(stream, iter, key, st, words, seen);
      if !ok { return; }
    }
    out := st.slots;
    if !FixedComplete(fields, st.fixed) { return false, out; }
    var required := CountRequired(iter);
    if required > PB_MAX_REQUIRED_FIELDS { required := PB_MAX_REQUIRED_FIELDS; }
    ok := AllSeen(words, required, seen);
  }

  /** Only numbers of required fields, below the tracking limit, are marked. */
  predicate Numbered(fields: seq<Field>, seen: set<nat>) {
    forall k :: k in seen ==> k < RequiredCount(fields) && k < PB_MAX_REQUIRED_FIELDS
  }

  lemma {:induction false} NothingSeen()
    ensures Holds([0, 0], {})
  {
    forall k: nat | k < 64 ensures !Bit([0, 0][k / 32], k % 32) { BitZero(k % 32); }
  }

  lemma {:induction false} NumberedMore(fields: seq<Field>, seen: set<nat>, i: nat)
    requires Numbered(fields, seen) && i < |fields| && fields[i].htype.REQUIRED?
    requires RequiredCount(fields[..i]) < PB_MAX_REQUIRED_FIELDS
    ensures Numbered(fields, seen + {RequiredCount(fields[..i])})
  {
    RequiredCountSnoc(fields, i);
    RequiredCountConcat(fields[..i + 1], fields[i + 1..]);
    assert fields == fields[..i + 1] + fields[i + 1..];
  }

  /** `pb_decode`: everything the decoder accepts, and what it then yields, on every input. */
  method DecodeFromBuffer(buf: array<byte>, d: Desc) returns (ok: bool, slots: seq<Slot>)
    requires WfFields(d.fields)
    ensures ok <==> Decode(d, buf[..]).Some?
    ensures ok ==> Decode(d, buf[..]) == Some(slots)
  {
    var stream := new IStream(buf, 0, buf.Length);
    assert stream.Rest() == buf[..];
    ok, slots := DecodeNoInit(stream, d.fields, DefaultSlots(d.fields));
  }
}

/** `pb_encode.c`: output streams over a caller's buffer and the encoder that writes to them. */
module PbEncoder {
  import opened Common
  import opened PbWire
  import opened PbSchema
  import opened PbCodec

  /** `b` with `s` written at `at`. */
  function Splice(b: seq<byte>, at: nat, s: seq<byte>): (r: seq<byte>)
    requires at + |s| <= |b|
    ensures |r| == |b|
  {
    b[..at] + s + b[at + |s|..]
  }

  lemma {:induction false} SpliceSplice(b: seq<byte>, at: nat, s: seq<byte>, t: seq<byte>)
    requires at + |s| + |t| <= |b|
    ensures at + |s + t| <= |b|
    ensures Splice(Splice(b, at, s), at + |s|, t) == Splice(b, at, s + t)
  {
    var c := Splice(b, at, s);
    assert c[..at + |s|] == b[..at] + s;
    assert c[at + |s| + |t|..] == b[at + |s| + |t|..];
  }

  lemma {:induction false} SpliceOne(b: seq<byte>, at: nat, s: seq<byte>, x: byte)
    requires at + |s| < |b|
    ensures Splice(b, at, s)[at + |s| := x] == Splice(b, at, s + [x])
  {
  }

  /** The groups of `v` with the high bit set on all of them, as the loop of `pb_encode_varint` leaves them. */
  function Groups(v: nat): (g: seq<byte>)
    ensures forall i :: 0 <= i < |g| ==> g[i] >= 128
  {
    if v == 0 then [] else [v % 128 + 128] + Groups(v / 128)
  }

  lemma {:induction false} NextGroup(all: seq<byte>, i: nat, rest: nat)
    requires i <= |all| && all[i..] == Groups(rest) && rest != 0
    ensures i < |all| && all[i] == rest % 128 + 128 && all[i + 1..] == Groups(rest / 128)
  {
    assert all[i..][0] == rest % 128 + 128 && all[i..][1..] == Groups(rest / 128);
  }

  lemma {:induction false} NoGroups()
    ensures Groups(0) == []
  {
  }

  lemma {:induction false} GroupsEncode(v: nat)
    requires v > 0
    ensures var n := |Groups(v)|; n > 0 && Groups(v)[..n - 1] + [Groups(v)[n - 1] - 128] == EncodeVarint(v)
    decreases v
  {
    if v >= 128 {
      GroupsEncode(v / 128);
      var g, n := Groups(v / 128), |Groups(v / 128)|;
      assert Groups(v)[..n] == [v % 128 + 128] + g[..n - 1];
    } else {
      assert Groups(v) == [v + 128];
    }
  }

  /** `pb_ostream_t`. A sizing stream (`callback == NULL`) only counts. */
  class OStream {
    const writing: bool
    const buf: array<byte>
    const maxSize: nat
    var state: nat
    var bytesWritten: nat

    ghost predicate Valid()
      reads this
    {
      writing ==> bytesWritten <= maxSize && state + (maxSize - bytesWritten) <= buf.Length
    }

    /** `s` has been output, at offset `at` of a buffer that held `before` when `count` bytes were out. */
    ghost predicate Output(s: seq<byte>, before: seq<byte>, at: nat, count: nat)
      reads this, buf
    {
      && bytesWritten == count + |s|
      && (writing ==> state == at + |s| <= buf.Length == |before| && buf[..] == Splice(before, at, s))
    }

    /** Outside the room the stream had, from `at` with `count` bytes out, the buffer still holds `before`. */
    ghost predicate Contained(before: seq<byte>, at: nat, count: nat)
      reads this, buf
    {
      writing ==>
        && count <= maxSize && at + (maxSize - count) <= buf.Length == |before|
        && buf[..at] == before[..at] && buf[at + (maxSize - count)..] == before[at + (maxSize - count)..]
    }

    /** The outcome of an encoder of `e`: it succeeds exactly when `e` exists and there is room for it. */
    ghost predicate Emitted(ok: bool, e: Option<seq<byte>>, before: seq<byte>, at: nat, count: nat)
      reads this, buf
    {
      && Contained(before, at, count)
      && (ok <==> e.Some? && (writing ==> count + |e.value| <= maxSize))
      && (ok ==> Output(e.value, before, at, count))
    }

    /** Nothing has been output yet. */
    lemma {:induction false} NothingYet()
      requires Valid()
      ensures Output([], buf[..], state, bytesWritten) && Contained(buf[..], state, bytesWritten)
    {
      if writing { assert buf[..] == Splice(buf[..], state, []); }
    }

    /** After `a`, an encoder of `b` ran on the buffer `mid`. */
    lemma {:induction false} Then(ok: bool, a: seq<byte>, b: Option<seq<byte>>, before: seq<byte>, mid: seq<byte>, at: nat, count: nat)
      requires Emitted(ok, b, mid, at + |a|, count + |a|)
      requires writing ==> count <= maxSize && at + (maxSize - count) <= buf.Length == |before|
      requires writing ==> count + |a| <= maxSize && mid == Splice(before, at, a)
      ensures Emitted(ok, Append(Some(a), b), before, at, count)
    {
      if writing {
        var end := at + (maxSize - count);
        assert mid[..at] == before[..at] && mid[end..] == before[end..];
        assert buf[..at] == buf[..at + |a|][..at] && mid[..at] == mid[..at + |a|][..at];
        if ok { SpliceSplice(before, at, a, b.value); }
      }
    }

    /** `pb_ostream_from_buffer`, also used for the substream of a submessage. */
    constructor FromBuffer(buf: array<byte>, state: nat, maxSize: nat)
      requires state + maxSize <= buf.Length
      ensures Valid() && writing && this.buf == buf && this.maxSize == maxSize
      ensures this.state == state && bytesWritten == 0
    {
      this.writing, this.buf, this.maxSize, this.state, this.bytesWritten := true, buf, maxSize, state, 0;
    }

    /** `PB_OSTREAM_SIZING`. */
    constructor Sizing()
      ensures Valid() && !writing && fresh(buf) && bytesWritten == 0
    {
      writing, buf, maxSize, state, bytesWritten := false, new byte[0], 0, 0, 0;
    }

    /** What could not be output cannot be output with more behind it. */
    lemma {:induction false} FailsToo(e: Option<seq<byte>>, more: Option<seq<byte>>, before: seq<byte>, at: nat, count: nat)
      requires Emitted(false, e, before, at, count)
      ensures Emitted(false, Append(e, more), before, at, count)
    {
    }

    /** `buf_write`: copy into the buffer and advance. */
    method BufWrite(data: seq<byte>)
      requires state + |data| <= buf.Length
      modifies this`state, buf
      ensures state == old(state) + |data| && buf[..] == Splice(old(buf[..]), old(state), data)
    {
      ghost var before := buf[..];
      var dest := state;
      state := dest + |data|;
      var i := 0;
      while i < |data|
        invariant 0 <= i <= |data| && state == dest + |data|
        invariant buf[..] == Splice(before, dest, data[..i])
      {
        SpliceOne(before, dest, data[..i], data[i]);
        buf[dest + i] := data[i];
        assert buf[..] == Splice(before, dest, data[..i])[dest + i := data[i]];
        assert data[..i + 1] == data[..i] + [data[i]];
        i := i + 1;
      }
      assert data[..i] == data;
    }

    /** `pb_write`: all of `data` or, when the stream is full, none of it. */
    method Write(data: seq<byte>) returns (ok: bool)
      requires Valid()
      modifies this`state, this`bytesWritten, buf
      ensures Valid()
      ensures Emitted(ok, Some(data), old(buf[..]), old(state), old(bytesWritten))
    {
      if writing {
        if bytesWritten + |data| > maxSize {
          return false;
        }
        BufWrite(data);
      }
      bytesWritten := bytesWritten + |data|;
      ok := true;
    }

    /** `pb_write` without data, which sizing streams accept. */
    method Count(n: nat)
      requires Valid() && !writing
      modifies this`bytesWritten
      ensures Valid() && bytesWritten == old(bytesWritten) + n
    {
      bytesWritten := bytesWritten + n;
    }

    /** `pb_encode_varint`. */
    method PutVarint(value: nat) returns (ok: bool)
      requires Valid() && value < TWO64
      modifies this`state, this`bytesWritten, buf
      ensures Valid()
      ensures Emitted(ok, Some(EncodeVarint(value)), old(buf[..]), old(state), old(bytesWritten))
    {
      if value <= 0x7F {
        ok := Write([value]);
      } else {
        var bytes := VarintBytes(value);
        ok := Write(bytes);
      }
    }

    /** `pb_encode_tag`. */
    method PutTag(f: Field, wireType: nat) returns (ok: bool)
      requires Valid() && wireType < 8
      modifies this`state, this`bytesWritten, buf
      ensures Valid()
      ensures Emitted(ok, Some(Tag(f, wireType)), old(buf[..]), old(state), old(bytesWritten))
    {
      ok := PutVarint(f.tag * 8 + wireType);
    }

    /** `pb_encode_string`. */
    method PutString(data: seq<byte>) returns (ok: bool)
      requires Valid()
      modifies this`state, this`bytesWritten, buf
      ensures Valid()
      ensures Emitted(ok, Some(LengthPrefixed(data)), old(buf[..]), old(state), old(bytesWritten))
    {
      var n := |data| % TWO64;
      ok := PutVarint(n);
      if ok {
        ghost var mid := buf[..];
        ok := Write(data);
        Then(ok, EncodeVarint(n), Some(data), old(buf[..]), mid, old(state), old(bytesWritten));
      }
    }
  }

  /** The multi-byte branch of `pb_encode_varint`, through a buffer of ten bytes. */
  method VarintBytes(value: nat) returns (bytes: seq<byte>)
    requires 0x7F < value < TWO64
    ensures bytes == EncodeVarint(value)
  {
    hide EncodeVarint, Groups;
    var buffer := new byte[10];
    var i, rest := 0, value;
    GroupsEncode(value);
    VarintAtMostTenBytes(value);
    ghost var all := Groups(value);
    assert all[0..] == all;
    while rest != 0
      invariant 0 <= i <= |all| <= 10 && buffer[..i] == all[..i] && all[i..] == Groups(rest)
      decreases rest
    {
      NextGroup(all, i, rest);
      buffer[i] := rest % 128 + 128;
      rest := rest / 128;
      i := i + 1;
    }
    assert all[i..] == [] by { NoGroups(); }
    buffer[i - 1] := buffer[i - 1] - 128;
    bytes := buffer[..i];
    assert bytes == all[..i - 1] + [all[i - 1] - 128];
  }

  // ---- Field encoders -----------------------------------------------------------------------

  /** The `pb_enc_*` functions. */
  method PutValue(stream: OStream, f: Field, v: Value) returns (ok: bool)
    requires stream.Valid()
    modifies stream`state, stream`bytesWritten, stream.buf
    ensures stream.Valid()
    ensures stream.Emitted(ok, EncodeValue(f, v), old(stream.buf[..]), old(stream.state), old(stream.bytesWritten))
    decreases v, 1
  {
    stream.NothingYet();
    match (f.ltype, v)
    case (VARINT, Int(i)) =>
      if !IntSize(f.dataSize) || !IsInt64(i) { return false; }
      ok := stream.PutVarint(AsUint64(i));
    case (UVARINT, Int(i)) =>
      if !IntSize(f.dataSize) || !(0 <= i < TWO64) { return false; }
      ok := stream.PutVarint(i);
    case (SVARINT, Int(i)) =>
      if !IntSize(f.dataSize) || !IsInt64(i) { return false; }
      ok := stream.PutVarint(ZigZag(i));
    case (FIXED32, _) => ok := stream.Write(EncodeFixed(Word(v, TWO32), 4));
    case (FIXED64, _) => ok := stream.Write(EncodeFixed(Word(v, TWO64), 8));
    case (BYTES, Raw(b)) =>
      if |b| + PB_BYTES_OFFSET > f.dataSize { return false; }
      ok := stream.PutString(b);
    case (STRING, Raw(b)) => ok := stream.PutString(b);
    case (FIXED_LENGTH_BYTES, Raw(b)) => ok := stream.PutString(b);
    case (SUBMESSAGE, Msg(slots)) =>
      if !f.ptr.Fields? || |f.ptr.desc.fields| != |slots| { return false; }
      ok := PutSubmessage(stream, f.ptr.desc.fields, slots);
    case _ => ok := false;
  }

  /**
   * `pb_encode_submessage`: size the message, write the size, then write the message through a substream
   * limited to that size. The second pass cannot fail and produces exactly the announced size.
   */
  method PutSubmessage(stream: OStream, fields: seq<Field>, slots: seq<Slot>) returns (ok: bool)
    requires stream.Valid() && |fields| == |slots|
    modifies stream`state, stream`bytesWritten, stream.buf
    ensures stream.Valid()
    ensures var sub := EncodeSlots(fields, slots);
            stream.Emitted(ok, if sub.None? then None else Some(LengthPrefixed(sub.value)),
                           old(stream.buf[..]), old(stream.state), old(stream.bytesWritten))
    decreases slots, 1
  {
    stream.NothingYet();
    var sizing := new OStream.Sizing();
    var sized := PutMessage(sizing, fields, slots);
    if !sized { return false; }
    var size := sizing.bytesWritten;
    ghost var sub := EncodeSlots(fields, slots).value;
    ghost var prefix := EncodeVarint(size % TWO64);
    ok := stream.PutVarint(size % TWO64);
    if !ok { return; }
    ghost var mid := stream.buf[..];
    if !stream.writing {
      stream.Count(size);
    } else if stream.bytesWritten + size > stream.maxSize {
      ok := false;
    } else {
      var substream := new OStream.FromBuffer(stream.buf, stream.state, size);
      var status := PutMessage(substream, fields, slots);
      stream.bytesWritten := stream.bytesWritten + substream.bytesWritten;
      stream.state := substream.state;
      assert status && substream.bytesWritten == size;
      ok := substream.bytesWritten == size && status;
    }
    stream.Then(ok, prefix, Some(sub), old(stream.buf[..]), mid, old(stream.state), old(stream.bytesWritten));
  }

  method PutTagged(stream: OStream, f: Field, v: Value) returns (ok: bool)
    requires stream.Valid()
    modifies stream`state, stream`bytesWritten, stream.buf
    ensures stream.Valid()
    ensures stream.Emitted(ok, EncodeTagged(f, v), old(stream.buf[..]), old(stream.state), old(stream.bytesWritten))
    decreases v, 2
  {
    ok := stream.PutTag(f, WireType(f.ltype));
    if ok {
      ghost var mid := stream.buf[..];
      ok := PutValue(stream, f, v);
      stream.Then(ok, Tag(f, WireType(f.ltype)), EncodeValue(f, v), old(stream.buf[..]), mid, old(stream.state), old(stream.bytesWritten));
    }
  }

  lemma {:induction false} AppendAssoc(a: seq<byte>, b: Option<seq<byte>>, c: Option<seq<byte>>)
    ensures Append(Some(a), Append(b, c)) == Append(Append(Some(a), b), c)
    ensures Append(Some([]), c) == c && Append(Some(a), Some([])) == Some(a)
  {
    if b.Some? && c.Some? { assert a + (b.value + c.value) == a + b.value + c.value; }
    if c.Some? { assert [] + c.value == c.value; }
    assert a + [] == a;
  }

  /** One pass of `func` over the elements of an array, as both loops of the packed branch make it. */
  method PutPacked(stream: OStream, f: Field, items: seq<Value>) returns (ok: bool)
    requires stream.Valid()
    modifies stream`state, stream`bytesWritten, stream.buf
    ensures stream.Valid()
    ensures stream.Emitted(ok, EncodePacked(f, items), old(stream.buf[..]), old(stream.state), old(stream.bytesWritten))
    decreases items, 0, 0
  {
    stream.NothingYet();
    ghost var done: seq<byte> := [];
    var i := 0;
    AppendAssoc([], Some([]), EncodePacked(f, items));
    while i < |items|
      invariant 0 <= i <= |items| && stream.Valid()
      invariant stream.Emitted(true, Some(done), old(stream.buf[..]), old(stream.state), old(stream.bytesWritten))
      invariant EncodePacked(f, items) == Append(Some(done), EncodePacked(f, items[i..]))
    {
      ghost var mid, e := stream.buf[..], EncodeValue(f, items[i]);
      AppendAssoc(done, e, EncodePacked(f, items[i..][1..]));
      assert items[i..][1..] == items[i + 1..];
      ok := PutValue(stream, f, items[i]);
      stream.Then(ok, done, e, old(stream.buf[..]), mid, old(stream.state), old(stream.bytesWritten));
      if !ok {
        stream.FailsToo(Append(Some(done), e), EncodePacked(f, items[i + 1..]), old(stream.buf[..]), old(stream.state), old(stream.bytesWritten));
        return;
      }
      done := done + e.value;
      i := i + 1;
    }
    AppendAssoc(done, Some([]), Some([]));
    ok := true;
  }

  /** The unpacked branch of `encode_array`. */
  method PutUnpacked(stream: OStream, f: Field, items: seq<Value>) returns (ok: bool)
    requires stream.Valid()
    modifies stream`state, stream`bytesWritten, stream.buf
    ensures stream.Valid()
    ensures stream.Emitted(ok, EncodeUnpacked(f, items), old(stream.buf[..]), old(stream.state), old(stream.bytesWritten))
    decreases items, 0
  {
    stream.NothingYet();
    ghost var done: seq<byte> := [];
    var i := 0;
    AppendAssoc([], Some([]), EncodeUnpacked(f, items));
    while i < |items|
      invariant 0 <= i <= |items| && stream.Valid()
      invariant stream.Emitted(true, Some(done), old(stream.buf[..]), old(stream.state), old(stream.bytesWritten))
      invariant EncodeUnpacked(f, items) == Append(Some(done), EncodeUnpacked(f, items[i..]))
    {
      ghost var mid, e := stream.buf[..], EncodeTagged(f, items[i]);
      AppendAssoc(done, e, EncodeUnpacked(f, items[i..][1..]));
      assert items[i..][1..] == items[i + 1..];
      ok := PutTagged(stream, f, items[i]);
      stream.Then(ok, done, e, old(stream.buf[..]), mid, old(stream.state), old(stream.bytesWritten));
      if !ok {
        stream.FailsToo(Append(Some(done), e), EncodeUnpacked(f, items[i + 1..]), old(stream.buf[..]), old(stream.state), old(stream.bytesWritten));
        return;
      }
      done := done + e.value;
      i := i + 1;
    }
    AppendAssoc(done, Some([]), Some([]));
    ok := true;
  }

  lemma {:induction false} FixedPackedSize(f: Field, items: seq<Value>)
    requires f.ltype.FIXED32? || f.ltype.FIXED64?
    ensures EncodePacked(f, items).Some?
    ensures |EncodePacked(f, items).value| == (if f.ltype.FIXED32? then 4 else 8) * |items|
  {
    if items != [] { FixedPackedSize(f, items[1..]); }
  }

  /** The size of a packed array, computed for fixed-width elements and counted by a dry run for others. */
  method PackedSize(f: Field, items: seq<Value>) returns (ok: bool, size: nat)
    requires Packable(f.ltype)
    ensures ok <==> EncodePacked(f, items).Some?
    ensures ok ==> size == |EncodePacked(f, items).value|
    decreases items, 0, 1
  {
    if f.ltype.FIXED32? || f.ltype.FIXED64? { FixedPackedSize(f, items); }
    if f.ltype.FIXED32? {
      return true, 4 * |items|;
    } else if f.ltype.FIXED64? {
      return true, 8 * |items|;
    }
    var sizing := new OStream.Sizing();
    ok := PutPacked(sizing, f, items);
    size := sizing.bytesWritten;
  }

  /** `encode_array`. */
  method PutArray(stream: OStream, f: Field, items: seq<Value>) returns (ok: bool)
    requires stream.Valid()
    modifies stream`state, stream`bytesWritten, stream.buf
    ensures stream.Valid()
    ensures stream.Emitted(ok, EncodeItems(f, items), old(stream.buf[..]), old(stream.state), old(stream.bytesWritten))
    decreases items, 2
  {
    stream.NothingYet();
    if items == [] { return true; }
    if |items| > f.arraySize { return false; }
    if !Packable(f.ltype) {
      ok := PutUnpacked(stream, f, items);
      return;
    }
    ghost var data := EncodePacked(f, items);
    ghost var payload := if data.None? then None else Some(LengthPrefixed(data.value));
    ok := stream.PutTag(f, 2);
    if !ok {
      stream.FailsToo(Some(Tag(f, 2)), payload, old(stream.buf[..]), old(stream.state), old(stream.bytesWritten));
      return;
    }
    ghost var mid := stream.buf[..];
    ok := PutPackedPayload(stream, f, items);
    stream.Then(ok, Tag(f, 2), payload, old(stream.buf[..]), mid, old(stream.state), old(stream.bytesWritten));
  }

  /** The part of the packed branch after the tag: size, then data. */
  method PutPackedPayload(stream: OStream, f: Field, items: seq<Value>) returns (ok: bool)
    requires stream.Valid() && Packable(f.ltype)
    modifies stream`state, stream`bytesWritten, stream.buf
    ensures stream.Valid()
    ensures var data := EncodePacked(f, items);
            stream.Emitted(ok, if data.None? then None else Some(LengthPrefixed(data.value)),
                           old(stream.buf[..]), old(stream.state), old(stream.bytesWritten))
    decreases items, 1
  {
    stream.NothingYet();
    var size;
    ok, size := PackedSize(f, items);
    if !ok { return; }
    ghost var prefix, data := EncodeVarint(size % TWO64), EncodePacked(f, items);
    ok := stream.PutVarint(size % TWO64);
    if !ok {
      stream.FailsToo(Some(prefix), data, old(stream.buf[..]), old(stream.state), old(stream.bytesWritten));
      return;
    }
    ghost var mid := stream.buf[..];
    if !stream.writing {
      stream.Count(size);
    } else {
      ok := PutPacked(stream, f, items);
    }
    stream.Then(ok, prefix, data, old(stream.buf[..]), mid, old(stream.state), old(stream.bytesWritten));
  }

  /** `encode_basic_field`. */
  method PutSlot(stream: OStream, f: Field, s: Slot) returns (ok: bool)
    requires stream.Valid()
    modifies stream`state, stream`bytesWritten, stream.buf
    ensures stream.Valid()
    ensures stream.Emitted(ok, EncodeSlot(f, s), old(stream.buf[..]), old(stream.state), old(stream.bytesWritten))
    decreases s, 2
  {
    stream.NothingYet();
    match (f.htype, s)
    case (REQUIRED, Single(v)) => ok := PutTagged(stream, f, v);
    case (OPTIONAL, Has(has, v)) =>
      if !f.Sized() { return false; }
      ok := true;
      if has { ok := PutTagged(stream, f, v); }
    case (OPTIONAL, Single(v)) =>
      if f.Sized() { return false; }
      ok := true;
      if !IsZero(f, v) { ok := PutTagged(stream, f, v); }
    case (REPEATED, Items(items)) =>
      if !f.Sized() && |items| != f.arraySize { return false; }
      ok := PutArray(stream, f, items);
    case (ONEOF(_), Union(o)) =>
      ok := true;
      if o.Some? { ok := PutTagged(stream, f, o.value); }
    case _ => ok := false;
  }

  /** `pb_encode`. */
  method PutMessage(stream: OStream, fields: seq<Field>, slots: seq<Slot>) returns (ok: bool)
    requires stream.Valid() && |fields| == |slots|
    modifies stream`state, stream`bytesWritten, stream.buf
    ensures stream.Valid()
    ensures stream.Emitted(ok, EncodeSlots(fields, slots), old(stream.buf[..]), old(stream.state), old(stream.bytesWritten))
    decreases slots, 0
  {
    stream.NothingYet();
    ghost var done: seq<byte> := [];
    var i := 0;
    AppendAssoc([], Some([]), EncodeSlots(fields, slots));
    while i < |slots|
      invariant 0 <= i <= |slots| && stream.Valid()
      invariant stream.Emitted(true, Some(done), old(stream.buf[..]), old(stream.state), old(stream.bytesWritten))
      invariant EncodeSlots(fields, slots) == Append(Some(done), EncodeSlots(fields[i..], slots[i..]))
    {
      ghost var mid, e := stream.buf[..], EncodeSlot(fields[i], slots[i]);
      AppendAssoc(done, e, EncodeSlots(fields[i..][1..], slots[i..][1..]));
      assert fields[i..][1..] == fields[i + 1..] && slots[i..][1..] == slots[i + 1..];
      ok := PutSlot(stream, fields[i], slots[i]);
      stream.Then(ok, done, e, old(stream.buf[..]), mid, old(stream.state), old(stream.bytesWritten));
      if !ok {
        stream.FailsToo(Append(Some(done), e), EncodeSlots(fields[i + 1..], slots[i + 1..]), old(stream.buf[..]), old(stream.state), old(stream.bytesWritten));
        return;
      }
      done := done + e.value;
      i := i + 1;
    }
    AppendAssoc(done, Some([]), Some([]));
    ok := true;
  }

  /** `pb_get_encoded_size`: the sizing pass counts exactly what the writing pass puts out. */
  method EncodedSize(d: Desc, slots: seq<Slot>) returns (ok: bool, size: nat)
    requires |d.fields| == |slots|
    ensures ok <==> Encode(d, slots).Some?
    ensures ok ==> size == |Encode(d, slots).value|
  {
    var stream := new OStream.Sizing();
    ok := PutMessage(stream, d.fields, slots);
    size := stream.bytesWritten;
  }

  /** `pb_encode` into a buffer: success exactly when the whole message fits, and nothing outside is touched. */
  method EncodeToBuffer(buf: array<byte>, d: Desc, slots: seq<Slot>) returns (ok: bool, size: nat)
    requires |d.fields| == |slots|
    modifies buf
    ensures ok <==> Encode(d, slots).Some? && |Encode(d, slots).value| <= buf.Length
    ensures ok ==> size == |Encode(d, slots).value| && buf[..size] == Encode(d, slots).value
    ensures ok ==> buf[size..] == old(buf[size..])
  {
    var stream := new OStream.FromBuffer(buf, 0, buf.Length);
    ok := PutMessage(stream, d.fields, slots);
    size := stream.bytesWritten;
  }
}

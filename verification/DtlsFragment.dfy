/** Reassembly of one DTLS handshake message from its fragments (`hm_fragment` in `d1_both.cc`). */
module DtlsFragment {
  import opened Common
  import opened Bits
  import opened BigEndian

  const DTLS1_HM_HEADER_LENGTH: nat := 12
  const SSL_MAX_HANDSHAKE_FLIGHT: nat := 7

  // ---- Wire format --------------------------------------------------------------------------

  /** `hm_header_st`, with the widths its wire form has. */
  datatype Header = Header(typ: byte, msgLen: nat, seqNum: nat, fragOff: nat, fragLen: nat) {
    predicate Fits() {
      msgLen < 0x100_0000 && seqNum < TWO16 && fragOff < 0x100_0000 && fragLen < 0x100_0000
    }

    function Bytes(): (s: seq<byte>)
      ensures |s| == DTLS1_HM_HEADER_LENGTH
    {
      [typ] + PutBe(msgLen, 3) + PutBe(seqNum, 2) + PutBe(fragOff, 3) + PutBe(fragLen, 3)
    }
  }

  datatype Fragment = Fragment(hdr: Header, body: seq<byte>) {
    predicate Fits() { hdr.Fits() && |body| == hdr.fragLen }

    function Bytes(): seq<byte> { hdr.Bytes() + body }
  }

  /** A handshake message as the handshake layer sees it. */
  datatype Message = Message(typ: byte, body: seq<byte>) {
    /** The part of the message from `off`, sent as the message numbered `n` modulo 2^16. */
    function Slice(n: nat, off: nat, len: nat): Fragment
      requires off + len <= |body|
    {
      Fragment(Header(typ, |body|, n % TWO16, off, len), body[off..off + len])
    }

    /** The message with its unfragmented header: what both ends hash. */
    function Raw(n: nat): seq<byte> { Slice(n, 0, |body|).Bytes() }
  }

  /** `dtls1_parse_fragment`: a header and as many body bytes as it announces; None when they are missing. */
  function ParseFragment(s: seq<byte>): (r: Option<(Fragment, seq<byte>)>)
    ensures r.Some? ==> |r.value.1| < |s| && |r.value.0.body| == r.value.0.hdr.fragLen
  {
    if |s| < DTLS1_HM_HEADER_LENGTH then None
    else
      var hdr := Header(s[0], GetBe(s[1..4]), GetBe(s[4..6]), GetBe(s[6..9]), GetBe(s[9..12]));
      if |s| < DTLS1_HM_HEADER_LENGTH + hdr.fragLen then None
      else Some((Fragment(hdr, s[12..12 + hdr.fragLen]), s[12 + hdr.fragLen..]))
  }

  lemma {:induction false} ParseRoundTrip(f: Fragment, rest: seq<byte>)
    requires f.Fits()
    ensures ParseFragment(f.Bytes() + rest) == Some((f, rest))
  {
    hide PutBe, GetBe;
    var h, s := f.hdr, f.Bytes() + rest;
    Pow2Values();
    BeRoundTrip(h.msgLen, 3);
    BeRoundTrip(h.seqNum, 2);
    BeRoundTrip(h.fragOff, 3);
    BeRoundTrip(h.fragLen, 3);
    assert s[1..4] == PutBe(h.msgLen, 3) && s[4..6] == PutBe(h.seqNum, 2);
    assert s[6..9] == PutBe(h.fragOff, 3) && s[9..12] == PutBe(h.fragLen, 3);
    assert s[12..12 + h.fragLen] == f.body && s[12 + h.fragLen..] == rest;
  }

  /** The layout of a fragment (section 4.2.2 of RFC 6347): type, length, number, offset and length of the fragment, body. */
  lemma {:induction false} FragmentLayout(f: Fragment)
    requires f.Fits()
    ensures var s, h := f.Bytes(), f.hdr;
            && |s| == 12 + h.fragLen && s[0] == h.typ && U24(s[1], s[2], s[3]) == h.msgLen && U16(s[4], s[5]) == h.seqNum
            && U24(s[6], s[7], s[8]) == h.fragOff && U24(s[9], s[10], s[11]) == h.fragLen && s[12..] == f.body
  {
    hide PutBe;
    var s, h := f.Bytes(), f.hdr;
    TwoBytes(h.seqNum);
    ThreeBytes(h.msgLen);
    ThreeBytes(h.fragOff);
    ThreeBytes(h.fragLen);
    var len, n, off, part := PutBe(h.msgLen, 3), PutBe(h.seqNum, 2), PutBe(h.fragOff, 3), PutBe(h.fragLen, 3);
    assert s == [h.typ] + len + n + off + part + f.body;
    assert s[1] == len[0] && s[2] == len[1] && s[3] == len[2] && s[4] == n[0] && s[5] == n[1];
    assert s[6] == off[0] && s[7] == off[1] && s[8] == off[2] && s[9] == part[0] && s[10] == part[1] && s[11] == part[2];
  }

  /** Whatever the bytes, what is parsed is what they spell, and only bytes that spell no fragment are refused. */
  lemma {:induction false} ParseExactly(s: seq<byte>, f: Fragment, rest: seq<byte>)
    ensures ParseFragment(s) == Some((f, rest)) <==> f.Fits() && s == f.Bytes() + rest
  {
    if f.Fits() && s == f.Bytes() + rest { ParseRoundTrip(f, rest); }
    if ParseFragment(s) == Some((f, rest)) { ParsedSpells(s); }
  }

  lemma {:induction false} ParsedSpells(s: seq<byte>)
    requires ParseFragment(s).Some?
    ensures var p := ParseFragment(s).value; p.0.Fits() && s == p.0.Bytes() + p.1
  {
    hide PutBe, GetBe;
    var f, rest := ParseFragment(s).value.0, ParseFragment(s).value.1;
    Pow2Values();
    GetBeBelow(s[1..4]);
    GetBeBelow(s[4..6]);
    GetBeBelow(s[6..9]);
    GetBeBelow(s[9..12]);
    BeBytes(s[1..4]);
    BeBytes(s[4..6]);
    BeBytes(s[6..9]);
    BeBytes(s[9..12]);
    assert s == [s[0]] + s[1..4] + s[4..6] + s[6..9] + s[9..12] + f.body + rest;
    assert f.hdr.Bytes() == [s[0]] + s[1..4] + s[4..6] + s[6..9] + s[9..12];
  }

  // ---- A message under reassembly, as a value -----------------------------------------------

  /** The message so far: its raw form with the unfragmented header, and which body bytes have arrived. */
  datatype Hm = Hm(typ: byte, seqNum: nat, raw: seq<byte>, got: seq<bool>) {
    predicate Complete() { forall i :: 0 <= i < |got| ==> got[i] }

    predicate Valid() {
      && |got| < 0x100_0000 && seqNum < TWO16
      && |raw| == DTLS1_HM_HEADER_LENGTH + |got|
      && raw[..DTLS1_HM_HEADER_LENGTH] == Header(typ, |got|, seqNum, 0, |got|).Bytes()
    }
  }

  /** `dtls1_hm_fragment_new`. The body starts out as whatever the allocator left there. */
  function NewHm(h: Header, junk: nat -> byte): Hm {
    Hm(h.typ, h.seqNum, Header(h.typ, h.msgLen, h.seqNum, 0, h.msgLen).Bytes() + Supplied(h.msgLen, junk),
       seq(h.msgLen, _ => false))
  }

  /** Marking `[start, end)` as received. */
  function Marked(got: seq<bool>, start: nat, end: nat): (r: seq<bool>)
    ensures |r| == |got|
  {
    seq(|got|, i requires 0 <= i < |got| => got[i] || start <= i < end)
  }

  /** Copying a fragment into an incomplete message. */
  function Received(m: Hm, off: nat, body: seq<byte>): Hm
    requires m.Valid() && off + |body| <= |m.got|
  {
    var at := DTLS1_HM_HEADER_LENGTH + off;
    m.(raw := m.raw[..at] + body + m.raw[at + |body|..], got := Marked(m.got, off, off + |body|))
  }

  // ---- The bitmask --------------------------------------------------------------------------

  /** `bit_range`: the bits from `start`, inclusive, to `end`, exclusive, by 32-bit complement and masks. */
  function BitRange(start: nat, end: nat): (b: byte)
    requires start <= 8 && end <= 8
  {
    BitAnd(0xFFFF_FFFF - (Pow2Small(start) - 1), Pow2Small(end) - 1) % 256
  }

  function Pow2Small(n: nat): (p: nat)
    requires n <= 8
    ensures p == Pow2(n) && 1 <= p <= 256
  {
    Pow2Values();
    Pow2Mono(n, 8);
    Pow2(n)
  }

  lemma {:induction false} BitRangeBits(start: nat, end: nat, k: nat)
    requires start <= 8 && end <= 8
    ensures Bit(BitRange(start, end), k) <==> start <= k < end
  {
    hide BitAnd, Bit;
    Pow2Values();
    Pow2Mono(start, 32);
    var a, b := Ones(32) - Ones(start), Ones(end);
    assert a == 0xFFFF_FFFF - (Pow2Small(start) - 1) && b == Pow2Small(end) - 1;
    BitMod(BitAnd(a, b), 8, k);
    BitAndBit(a, b, k);
    BitComplement(Ones(start), 32, k);
    BitOnes(start, k);
    BitOnes(end, k);
  }

  /** The bitmask `mask` records exactly the bytes in `got`, and has no bit at or past its length. */
  ghost predicate MaskHolds(mask: seq<byte>, got: seq<bool>) {
    && |mask| == (|got| + 7) / 8
    && forall k: nat :: k < 8 * |mask| ==> (Bit(mask[k / 8], k % 8) <==> k < |got| && got[k])
  }

  lemma {:induction false} MaskLength(mask: seq<byte>, got: seq<bool>)
    requires MaskHolds(mask, got)
    ensures |mask| == (|got| + 7) / 8
  {
  }

  /** Byte `i` of the mask has gained exactly the bits of `[start, end)`. */
  ghost predicate ByteMarked(before: byte, after: byte, i: nat, start: nat, end: nat) {
    forall k: nat :: k < 8 ==> (Bit(after, k) <==> Bit(before, k) || start <= 8 * i + k < end)
  }

  /** The part of a bit offset that falls into a byte. */
  function Clamp(x: int): (c: nat)
    ensures c <= 8
  {
    if x < 0 then 0 else if x > 8 then 8 else x
  }

  /** The bytes a range of bits begins and ends in, and its part of each. */
  lemma {:induction false} Octets(start: nat, end: nat, n: nat)
    requires start < end <= n
    ensures var first, last := start / 8, end / 8;
            && 0 <= first <= last <= (n + 7) / 8 && 8 * first <= start < 8 * first + 8 && 8 * last <= end < 8 * last + 8
            && first < (n + 7) / 8 && (end % 8 != 0 ==> last < (n + 7) / 8) && (end % 8 == 0 ==> end == 8 * last)
            && start % 8 == Clamp(start - 8 * first) && end % 8 == Clamp(end - 8 * last)
            && (first < last ==> Clamp(end - 8 * first) == 8 && Clamp(start - 8 * last) == 0)
  {
  }

  lemma {:induction false} OrRange(before: byte, i: nat, lo: nat, hi: nat, start: nat, end: nat)
    requires lo == Clamp(start - 8 * i) && hi == Clamp(end - 8 * i)
    ensures BitOr(before, BitRange(lo, hi)) < 256
    ensures ByteMarked(before, BitOr(before, BitRange(lo, hi)), i, start, end)
  {
    hide BitOr, BitRange, Bit;
    assert Pow2(8) == 256 by { Pow2Values(); }
    BitOrBelow(before, BitRange(lo, hi), 8);
    forall k: nat | k < 8
      ensures Bit(BitOr(before, BitRange(lo, hi)), k) <==> Bit(before, k) || start <= 8 * i + k < end
    {
      BitOrBit(before, BitRange(lo, hi), k);
      BitRangeBits(lo, hi, k);
    }
  }

  ghost predicate EightBits(b: nat) {
    forall k: nat :: k < 8 ==> Bit(b, k)
  }

  lemma {:induction false} AllOnesByte(b: byte)
    ensures b == 0xFF <==> EightBits(b)
  {
    hide Bit;
    assert Pow2(8) == 256 by { Pow2Values(); }
    var ones := Ones(8);
    forall k: nat | k < 8 ensures Bit(ones, k) { BitOnes(8, k); }
    if EightBits(b) { SameBits(b, ones, 8); }
  }

  lemma {:induction false} WholeByteMarked(before: byte, i: nat, start: nat, end: nat)
    requires start <= 8 * i && 8 * i + 8 <= end
    ensures ByteMarked(before, 0xFF, i, start, end)
  {
    hide Bit;
    AllOnesByte(0xFF);
  }

  lemma {:induction false} OtherByteMarked(b: byte, i: nat, start: nat, end: nat)
    requires 8 * i + 8 <= start || end <= 8 * i
    ensures ByteMarked(b, b, i, start, end)
  {
  }

  lemma {:induction false} MarkHolds(before: seq<byte>, after: seq<byte>, got: seq<bool>, start: nat, end: nat)
    requires MaskHolds(before, got) && |after| == |before| && end <= |got|
    requires forall i :: 0 <= i < |before| ==> ByteMarked(before[i], after[i], i, start, end)
    ensures MaskHolds(after, Marked(got, start, end))
  {
    forall k: nat | k < 8 * |after|
      ensures Bit(after[k / 8], k % 8) <==> k < |got| && Marked(got, start, end)[k]
    {
      assert ByteMarked(before[k / 8], after[k / 8], k / 8, start, end);
      assert 8 * (k / 8) + k % 8 == k;
    }
  }

  /** The last byte of a complete mask. */
  lemma {:induction false} LastByteComplete(mask: seq<byte>, got: seq<bool>)
    requires MaskHolds(mask, got) && |got| % 8 != 0
    ensures mask[|got| / 8] == BitRange(0, |got| % 8) <==> forall k :: |got| / 8 * 8 <= k < |got| ==> got[k]
  {
    hide Bit, BitRange;
    var b, r, base := mask[|got| / 8], |got| % 8, |got| / 8 * 8;
    assert Pow2(8) == 256 by { Pow2Values(); }
    forall k: nat | k < 8 ensures Bit(b, k) <==> k < r && got[base + k] {
      assert (base + k) / 8 == |got| / 8 && (base + k) % 8 == k;
    }
    forall k: nat | k < 8 ensures Bit(BitRange(0, r), k) <==> k < r { BitRangeBits(0, r, k); }
    if b == BitRange(0, r) {
      forall k | base <= k < |got| ensures got[k] { assert Bit(b, k - base); }
    }
    if forall k :: base <= k < |got| ==> got[k] { SameBits(b, BitRange(0, r), 8); }
  }

  lemma {:induction false} WholeByteComplete(mask: seq<byte>, got: seq<bool>, i: nat)
    requires MaskHolds(mask, got) && i < |got| / 8
    ensures mask[i] == 0xFF <==> forall k :: 8 * i <= k < 8 * i + 8 ==> got[k]
  {
    hide Bit;
    AllOnesByte(mask[i]);
    forall k: nat | k < 8 ensures Bit(mask[i], k) <==> got[8 * i + k] {
      assert (8 * i + k) / 8 == i && (8 * i + k) % 8 == k;
    }
    if forall k :: 8 * i <= k < 8 * i + 8 ==> got[k] { assert EightBits(mask[i]); }
    if mask[i] == 0xFF {
      forall k | 8 * i <= k < 8 * i + 8 ensures got[k] { assert Bit(mask[i], k - 8 * i); }
    }
  }

  // ---- The message in place -----------------------------------------------------------------

  class HmFragment {
    const typ: byte
    const seqNum: nat
    const msgLen: nat
    const data: array<byte>
    var reassembly: array?<byte>
    ghost var got: seq<bool>

    ghost predicate Valid()
      reads this, data, reassembly
    {
      && data.Length == DTLS1_HM_HEADER_LENGTH + msgLen && |got| == msgLen
      && View().Valid()
      && (reassembly == null <==> View().Complete())
      && (reassembly != null ==> reassembly != data && MaskHolds(reassembly[..], got))
    }

    ghost function View(): Hm
      reads this, data
    {
      Hm(typ, seqNum, data[..], got)
    }

    ghost function Repr(): set<object>
      reads this
    {
      {this, data} + if reassembly == null then {} else {reassembly}
    }

    /** `dtls1_hm_fragment_new`. An empty message has no mask. */
    constructor New(h: Header, junk: nat -> byte)
      requires h.Fits()
      ensures Valid() && fresh(Repr()) && View() == NewHm(h, junk)
    {
      var header := Header(h.typ, h.msgLen, h.seqNum, 0, h.msgLen).Bytes();
      typ, seqNum, msgLen := h.typ, h.seqNum, h.msgLen;
      data := new byte[DTLS1_HM_HEADER_LENGTH + h.msgLen](i requires 0 <= i =>
        if i < |header| then header[i] else junk(i - |header|));
      got := seq(h.msgLen, _ => false);
      reassembly := null;
      new;
      assert data[..] == header + Supplied(h.msgLen, junk);
      assert data[..DTLS1_HM_HEADER_LENGTH] == header;
      if h.msgLen > 0 {
        reassembly := new byte[(h.msgLen + 7) / 8](_ => 0);
        forall k: nat | k < 8 * reassembly.Length ensures !Bit(reassembly[k / 8], k % 8) { BitZero(k % 8); }
        assert !got[0];
      }
    }

    /** The stores of `dtls1_hm_fragment_mark`. */
    method MarkBits(start: nat, end: nat)
      requires Valid() && reassembly != null && start < end <= msgLen
      modifies reassembly
      ensures forall i :: 0 <= i < reassembly.Length ==> ByteMarked(old(reassembly[i]), reassembly[i], i, start, end)
    {
      hide BitOr, BitRange, ByteMarked, Clamp, MaskHolds;
      ghost var before := reassembly[..];
      MaskLength(before, got);
      Octets(start, end, msgLen);
      var first, last := start / 8, end / 8;
      forall j | 0 <= j < |before| && (j < first || j > last || (j == last && end % 8 == 0))
        ensures ByteMarked(before[j], before[j], j, start, end)
      {
        OtherByteMarked(before[j], j, start, end);
      }
      if first == last {
        OrRange(reassembly[first], first, start % 8, end % 8, start, end);
        reassembly[first] := BitOr(reassembly[first], BitRange(start % 8, end % 8));
      } else {
        OrRange(reassembly[first], first, start % 8, 8, start, end);
        reassembly[first] := BitOr(reassembly[first], BitRange(start % 8, 8));
        var i := first + 1;
        while i < last
          invariant first < i <= last
          invariant forall j :: first <= j < i ==> ByteMarked(before[j], reassembly[j], j, start, end)
          invariant forall j :: 0 <= j < reassembly.Length && !(first <= j < i) ==> reassembly[j] == before[j]
        {
          WholeByteMarked(before[i], i, start, end);
          reassembly[i] := 0xFF;
          i := i + 1;
        }
        if end % 8 != 0 {
          OrRange(reassembly[last], last, 0, end % 8, start, end);
          reassembly[last] := BitOr(reassembly[last], BitRange(0, end % 8));
        }
      }
    }

    /** Whether every bit of the message is set. */
    method AllMarked() returns (complete: bool)
      requires reassembly != null && MaskHolds(reassembly[..], got) && |got| == msgLen
      ensures complete <==> View().Complete()
    {
      var i := 0;
      while i < msgLen / 8
        invariant 0 <= i <= msgLen / 8
        invariant forall k :: 0 <= k < 8 * i ==> got[k]
      {
        WholeByteComplete(reassembly[..], got, i);
        if reassembly[i] != 0xFF { return false; }
        i := i + 1;
      }
      if msgLen % 8 != 0 {
        LastByteComplete(reassembly[..], got);
        return reassembly[msgLen / 8] == BitRange(0, msgLen % 8);
      }
      complete := true;
    }

    /** `dtls1_hm_fragment_mark`: when the message is complete, the mask is dropped. */
    method Mark(start: nat, end: nat)
      requires Valid() && reassembly != null && start <= end <= msgLen
      modifies this`got, this`reassembly, reassembly
      ensures Valid() && View() == old(View()).(got := Marked(old(got), start, end))
      ensures reassembly == null || reassembly == old(reassembly)
    {
      if start == end {
        assert Marked(got, start, end) == got;
        return;
      }
      ghost var before := reassembly[..];
      MarkBits(start, end);
      MarkHolds(before, reassembly[..], got, start, end);
      got := Marked(got, start, end);
      var complete := AllMarked();
      if complete { reassembly := null; }
    }

    /** Copying a fragment body into the message and marking it. */
    method Receive(off: nat, body: seq<byte>)
      requires Valid() && reassembly != null && off + |body| <= msgLen
      modifies this`got, this`reassembly, reassembly, data
      ensures Valid() && View() == Received(old(View()), off, body)
      ensures reassembly == null || reassembly == old(reassembly)
    {
      var at := DTLS1_HM_HEADER_LENGTH + off;
      ghost var raw := data[..];
      forall i | 0 <= i < |body| {
        data[at + i] := body[i];
      }
      assert data[..] == raw[..at] + body + raw[at + |body|..];
      assert data[..DTLS1_HM_HEADER_LENGTH] == raw[..DTLS1_HM_HEADER_LENGTH];
      Mark(off, off + |body|);
    }
  }
}

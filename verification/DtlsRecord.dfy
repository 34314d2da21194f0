/** The DTLS record layer (`dtls_record.cc`, with the epoch switches of `dtls_method.cc`). */
module DtlsRecord {
  import opened Common
  import opened Bits
  import opened BigEndian
  import opened SslAead

  const DTLS1_RT_HEADER_LENGTH: nat := 13
  const SSL3_RT_MAX_PLAIN_LENGTH: nat := 16384
  const SSL3_RT_MAX_ENCRYPTED_LENGTH: nat := 16704
  const DTLS1_VERSION: nat := 0xFEFF
  const TWO48: int := 0x1_0000_0000_0000

  // ---- The replay window ---------------------------------------------------------------------

  /** `DTLS1_BITMAP`: bit `i` of the 64-bit map stands for the number `maxSeq - i`. */
  datatype Window = Window(maxSeq: nat, bits: nat) {
    /** `dtls1_bitmap_should_discard`. */
    predicate ShouldDiscard(n: nat) {
      n <= maxSeq && (maxSeq - n >= 64 || BitAnd(bits, Shl(1, maxSeq - n)) != 0)
    }

    /** `dtls1_bitmap_record`. */
    function Record(n: nat): Window {
      var slid := if n <= maxSeq then this
                  else Window(n, if n - maxSeq >= 64 then 0 else Shl(bits, n - maxSeq) % TWO64);
      var idx := slid.maxSeq - n;
      if idx < 64 then slid.(bits := BitOr(slid.bits, Shl(1, idx))) else slid
    }

    /** The window stands for the set of the numbers seen. */
    ghost predicate Tracks(seen: set<nat>) {
      && bits < TWO64
      && (forall n :: n in seen ==> n <= maxSeq)
      && forall i: nat :: i < 64 ==> (Bit(bits, i) <==> i <= maxSeq && maxSeq - i in seen)
    }
  }

  lemma {:induction false} TestBit(w: nat, i: nat)
    ensures BitAnd(w, Shl(1, i)) != 0 <==> Bit(w, i)
  {
    hide Bit, BitAnd, Shl;
    ShlOne(i);
    BitPow2(i, i);
    BitAndBit(w, Pow2(i), i);
    if !Bit(w, i) && BitAnd(w, Pow2(i)) != 0 {
      var k := LowestBit(BitAnd(w, Pow2(i)));
      BitAndBit(w, Pow2(i), k);
      BitPow2(i, k);
    }
    if BitAnd(w, Pow2(i)) == 0 { BitZero(i); }
  }

  function LowestBit(w: nat): (k: nat)
    requires w != 0
    ensures Bit(w, k)
    decreases w
  {
    if w % 2 == 1 then 0 else LowestBit(w / 2) + 1
  }

  /** What is discarded: the numbers seen and the ones that have fallen out of the window, no others. */
  lemma {:induction false} DiscardExactly(w: Window, seen: set<nat>, n: nat)
    requires w.Tracks(seen)
    ensures w.ShouldDiscard(n) <==> n in seen || n + 64 <= w.maxSeq
  {
    if n <= w.maxSeq {
      TestBit(w.bits, w.maxSeq - n);
      assert n == w.maxSeq - (w.maxSeq - n);
    }
  }

  lemma {:induction false} SlideTracks(w: Window, seen: set<nat>, n: nat)
    requires w.Tracks(seen) && n > w.maxSeq
    ensures Window(n, if n - w.maxSeq >= 64 then 0 else Shl(w.bits, n - w.maxSeq) % TWO64).Tracks(seen)
  {
    hide Bit, Shl;
    var s := n - w.maxSeq;
    var bits := if s >= 64 then 0 else Shl(w.bits, s) % TWO64;
    forall i: nat | i < 64 ensures Bit(bits, i) <==> i <= n && n - i in seen {
      BitZero(i);
      assert Pow2(64) == TWO64 by { Pow2Values(); }
      if s < 64 {
        BitMod(Shl(w.bits, s), 64, i);
        BitShl(w.bits, s, i);
        assert i >= s ==> n - i == w.maxSeq - (i - s);
      }
    }
  }

  lemma {:induction false} SetBit(bits: nat, idx: nat, i: nat)
    requires bits < TWO64 && idx < 64
    ensures BitOr(bits, Shl(1, idx)) < TWO64
    ensures Bit(BitOr(bits, Shl(1, idx)), i) <==> Bit(bits, i) || i == idx
  {
    hide Bit, Shl, BitOr, Pow2;
    ShlOne(idx);
    assert Pow2(idx) < TWO64 by { Pow2Mono(idx, 63); Pow2Values(); }
    WordOr(bits, Shl(1, idx));
    BitOrBit(bits, Shl(1, idx), i);
    BitPow2(idx, i);
  }

  lemma {:induction false} SetBitTracks(w: Window, seen: set<nat>, n: nat)
    requires w.Tracks(seen) && n <= w.maxSeq && w.maxSeq - n < 64
    ensures w.(bits := BitOr(w.bits, Shl(1, w.maxSeq - n))).Tracks(seen + {n})
  {
    hide Bit, Shl, BitOr;
    var idx := w.maxSeq - n;
    SetBit(w.bits, idx, 0);
    forall i: nat | i < 64 ensures Bit(BitOr(w.bits, Shl(1, idx)), i) <==> i <= w.maxSeq && w.maxSeq - i in seen + {n} {
      SetBit(w.bits, idx, i);
    }
  }

  lemma {:induction false} RecordTracks(w: Window, seen: set<nat>, n: nat)
    requires w.Tracks(seen)
    ensures w.Record(n).Tracks(seen + {n})
  {
    hide Bit, Shl, BitOr;
    if n > w.maxSeq {
      SlideTracks(w, seen, n);
      SetBitTracks(Window(n, if n - w.maxSeq >= 64 then 0 else Shl(w.bits, n - w.maxSeq) % TWO64), seen, n);
    } else if w.maxSeq - n < 64 {
      SetBitTracks(w, seen, n);
    } else {
      StaleTracks(w, seen, n);
    }
  }

  /** Recording a stale number changes nothing. */
  lemma {:induction false} StaleTracks(w: Window, seen: set<nat>, n: nat)
    requires w.Tracks(seen) && n + 64 <= w.maxSeq
    ensures w.Tracks(seen + {n})
  {
    hide Bit;
  }

  /** A number arriving at the reader, and whether its record opens. */
  datatype Arrival = Arrival(number: nat, opens: bool)

  /** The numbers accepted, in order, over a run of arrivals in one epoch. */
  function AcceptedRun(w: Window, arrivals: seq<Arrival>): seq<nat>
    decreases |arrivals|
  {
    if arrivals == [] then []
    else if w.ShouldDiscard(arrivals[0].number) || !arrivals[0].opens then AcceptedRun(w, arrivals[1..])
    else [arrivals[0].number] + AcceptedRun(w.Record(arrivals[0].number), arrivals[1..])
  }

  /** The same run against the plain set of numbers seen. */
  function AcceptedBySet(maxSeq: nat, seen: set<nat>, arrivals: seq<Arrival>): seq<nat>
    decreases |arrivals|
  {
    if arrivals == [] then []
    else
      var n := arrivals[0].number;
      if n in seen || n + 64 <= maxSeq || !arrivals[0].opens then AcceptedBySet(maxSeq, seen, arrivals[1..])
      else [n] + AcceptedBySet(if n > maxSeq then n else maxSeq, seen + {n}, arrivals[1..])
  }

  /** The 64-bit window is an exact implementation of the set. */
  lemma {:induction false} WindowRefinesSet(w: Window, seen: set<nat>, arrivals: seq<Arrival>)
    requires w.Tracks(seen)
    ensures AcceptedRun(w, arrivals) == AcceptedBySet(w.maxSeq, seen, arrivals)
    decreases |arrivals|
  {
    if arrivals != [] {
      var n := arrivals[0].number;
      DiscardExactly(w, seen, n);
      RecordTracks(w, seen, n);
      if w.ShouldDiscard(n) || !arrivals[0].opens { WindowRefinesSet(w, seen, arrivals[1..]); }
      else { WindowRefinesSet(w.Record(n), seen + {n}, arrivals[1..]); }
    }
  }

  predicate NoDuplicates<T(==)>(s: seq<T>) {
    forall i, j :: 0 <= i < j < |s| ==> s[i] != s[j]
  }

  lemma {:induction false} AcceptedFresh(maxSeq: nat, seen: set<nat>, arrivals: seq<Arrival>)
    ensures NoDuplicates(AcceptedBySet(maxSeq, seen, arrivals))
    ensures forall i :: 0 <= i < |AcceptedBySet(maxSeq, seen, arrivals)| ==> AcceptedBySet(maxSeq, seen, arrivals)[i] !in seen
    decreases |arrivals|
  {
    if arrivals != [] {
      var n := arrivals[0].number;
      if n in seen || n + 64 <= maxSeq || !arrivals[0].opens { AcceptedFresh(maxSeq, seen, arrivals[1..]); }
      else { AcceptedFresh(if n > maxSeq then n else maxSeq, seen + {n}, arrivals[1..]); }
    }
  }

  lemma {:induction false} EmptyTracks()
    ensures Window(0, 0).Tracks({})
  {
    forall i: nat | i < 64 ensures !Bit(0, i) { BitZero(i); }
  }

  /** Whatever the network replays, no number is accepted twice in an epoch. */
  lemma {:induction false} AcceptedAtMostOnce(arrivals: seq<Arrival>)
    ensures NoDuplicates(AcceptedRun(Window(0, 0), arrivals))
  {
    EmptyTracks();
    WindowRefinesSet(Window(0, 0), {}, arrivals);
    AcceptedFresh(0, {}, arrivals);
  }

  /** The window in place. */
  class ReplayWindow {
    var maxSeq: nat
    var bits: nat
    ghost var seen: set<nat>

    ghost predicate Valid()
      reads this
    {
      Window(maxSeq, bits).Tracks(seen)
    }

    constructor ()
      ensures Valid() && seen == {} && maxSeq == 0
    {
      maxSeq, bits, seen := 0, 0, {};
      EmptyTracks();
    }

    method ShouldDiscard(n: nat) returns (discard: bool)
      requires Valid()
      ensures discard <==> n in seen || n + 64 <= maxSeq
    {
      DiscardExactly(Window(maxSeq, bits), seen, n);
      if n > maxSeq { return false; }
      var idx := maxSeq - n;
      discard := idx >= 64 || BitAnd(bits, Shl(1, idx)) != 0;
    }

    method Record(n: nat)
      requires Valid()
      modifies this
      ensures Valid() && seen == old(seen) + {n} && maxSeq == if n > old(maxSeq) then n else old(maxSeq)
    {
      RecordTracks(Window(maxSeq, bits), seen, n);
      if n > maxSeq {
        var shift := n - maxSeq;
        bits := if shift >= 64 then 0 else Shl(bits, shift) % TWO64;
        maxSeq := n;
      }
      var idx := maxSeq - n;
      if idx < 64 { bits := BitOr(bits, Shl(1, idx)); }
      seen := seen + {n};
    }
  }

  // ---- Reading records -----------------------------------------------------------------------

  /** `RecordVersion`, below TLS 1.3. */
  function RecordVersion(c: Context): nat {
    if c.version == 0 then DTLS1_VERSION else c.version
  }

  datatype ReadState = ReadState(epoch: nat, window: Window, aead: Context)

  datatype Outcome = Discarded | RecordOverflow | Opened(typ: byte, text: seq<byte>)

  /** `dtls_open_record` on a non-empty datagram: the outcome and what is left of the datagram. */
  function OpenRecord(r: ReadState, input: seq<byte>): (res: (ReadState, Outcome, seq<byte>))
    requires r.aead.Valid() && input != []
    ensures |res.2| < |input| && res.0.epoch == r.epoch && res.0.aead == r.aead
    ensures res.1.Opened? ==> |input| >= DTLS1_RT_HEADER_LENGTH
  {
    if |input| < DTLS1_RT_HEADER_LENGTH then (r, Discarded, [])
    else
      var typ, version, sequence, length := input[0], GetBe(input[1..3]), input[3..11], GetBe(input[11..13]);
      if |input| < DTLS1_RT_HEADER_LENGTH + length || length > SSL3_RT_MAX_ENCRYPTED_LENGTH then (r, Discarded, [])
      else
        var body, rest := input[13..13 + length], input[13 + length..];
        var versionOk := if r.aead.kind.Null? then version / 256 == 0xFE else version == RecordVersion(r.aead);
        if !versionOk then (r, Discarded, [])
        else if GetBe(sequence[..2]) != r.epoch || r.window.ShouldDiscard(GetBe(sequence)) then (r, Discarded, rest)
        else match r.aead.Open(typ, version, sequence, body)
          case None => (r, Discarded, rest)
          case Some(text) =>
            if |text| > SSL3_RT_MAX_PLAIN_LENGTH then (r, RecordOverflow, rest)
            else (r.(window := r.window.Record(GetBe(sequence))), Opened(typ, text), rest)
  }

  // ---- Writing records -----------------------------------------------------------------------

  /** `w_epoch`, the 48-bit counters of the two live write epochs, and their contexts. */
  datatype WriteState = WriteState(epoch: nat, seqNum: nat, lastSeqNum: nat, aead: Context, lastAead: Context) {
    ghost predicate Valid() {
      epoch < TWO16 && seqNum < TWO48 && lastSeqNum < TWO48 && aead.Valid() && lastAead.Valid()
    }

    function Context(previous: bool): Context { if previous then lastAead else aead }

    function Epoch(previous: bool): int { if previous then epoch - 1 else epoch }

    function SeqNum(previous: bool): nat { if previous then lastSeqNum else seqNum }

    /** The counter after a record: `ssl_record_sequence_update` wraps around past its six bytes. */
    function Counted(previous: bool): WriteState {
      if previous then this.(lastSeqNum := (lastSeqNum + 1) % TWO48) else this.(seqNum := (seqNum + 1) % TWO48)
    }
  }

  /** What the sealer draws from outside: whether the cipher succeeds, and random bytes. */
  datatype Luck = Luck(cipherOk: bool, rand: nat -> byte)

  /** The null cipher only copies, so it cannot fail. */
  predicate CipherSeals(c: Context, luck: Luck) { c.kind.Null? || luck.cipherOk }

  function SeqBytes(epoch: nat, seqNum: nat): (s: seq<byte>)
    ensures |s| == 8
  {
    PutBe(epoch, 2) + PutBe(seqNum, 6)
  }

  function RecordBytes(typ: byte, version: nat, sequence: seq<byte>, body: seq<byte>): seq<byte> {
    [typ] + PutBe(version, 2) + sequence + PutBe(|body|, 2) + body
  }

  /** `dtls_seal_record`. A wrapped counter fails the call after the cipher has run. */
  function SealRecord(w: WriteState, previous: bool, typ: byte, text: seq<byte>, maxOut: nat, luck: Luck): (r: (WriteState, Option<seq<byte>>))
    requires w.Valid() && (previous ==> w.epoch >= 1)
    ensures r.0.Valid() && r.0.epoch == w.epoch && r.0.aead == w.aead && r.0.lastAead == w.lastAead
    ensures r.0 == w || r.0 == w.Counted(previous)
    ensures r.1.Some? ==> r.0 == w.Counted(previous) && r.0.SeqNum(previous) != 0
    ensures r.1.Some? ==>
      |r.1.value| == DTLS1_RT_HEADER_LENGTH + w.Context(previous).ExplicitNonceLen() + |text| + w.Context(previous).SuffixLen(|text|) <= maxOut
  {
    var aead := w.Context(previous);
    if maxOut < DTLS1_RT_HEADER_LENGTH then (w, None)
    else
      var sequence, version := SeqBytes(w.Epoch(previous), w.SeqNum(previous)), RecordVersion(w.aead);
      var body := aead.Seal(typ, version, sequence, text, Supplied(aead.VariableLen(), luck.rand), maxOut - DTLS1_RT_HEADER_LENGTH);
      if body.None? || !CipherSeals(aead, luck) then (w, None)
      else
        var w' := w.Counted(previous);
        if w'.SeqNum(previous) == 0 || |body.value| >= TWO16 then (w', None)
        else (w', Some(RecordBytes(typ, version, sequence, body.value)))
  }

  /** A number is spent exactly when the record fits and the cipher works, even when the call then fails over the counter. */
  lemma {:induction false} SpendsExactly(w: WriteState, previous: bool, typ: byte, text: seq<byte>, maxOut: nat, luck: Luck)
    requires w.Valid() && (previous ==> w.epoch >= 1)
    ensures var c, w' := w.Context(previous), SealRecord(w, previous, typ, text, maxOut, luck).0;
            var fits := DTLS1_RT_HEADER_LENGTH + c.ExplicitNonceLen() + |text| + c.SuffixLen(|text|) <= maxOut;
            if fits && CipherSeals(c, luck) then w' == w.Counted(previous) != w else w' == w
  {
    hide RecordBytes, SeqBytes, Supplied, RecordVersion, Context.Nonce, Context.AdditionalData;
  }

  /** The header of a sealed record: its type, version, epoch, number and length (section 4.1 of RFC 6347). */
  lemma {:induction false} SealedHeader(w: WriteState, previous: bool, typ: byte, text: seq<byte>, maxOut: nat, luck: Luck)
    requires w.Valid() && (previous ==> w.epoch >= 1) && SealRecord(w, previous, typ, text, maxOut, luck).1.Some?
    ensures var x := SealRecord(w, previous, typ, text, maxOut, luck).1.value;
            && |x| >= 13 && x[0] == typ && U16(x[1], x[2]) == (if w.aead.version == 0 then 0xFEFF else w.aead.version)
            && U16(x[3], x[4]) == (if previous then w.epoch - 1 else w.epoch)
            && GetBe(x[5..11]) == (if previous then w.lastSeqNum else w.seqNum) && U16(x[11], x[12]) == |x| - 13
  {
    hide PutBe, GetBe, Context.Seal, Evp.Valid, U16, RecordBytes, SeqBytes, RecordVersion;
    var body := w.Context(previous).Seal(typ, RecordVersion(w.aead), SeqBytes(w.Epoch(previous), w.SeqNum(previous)), text,
                                         Supplied(w.Context(previous).VariableLen(), luck.rand), maxOut - DTLS1_RT_HEADER_LENGTH).value;
    assert RecordVersion(w.aead) == (if w.aead.version == 0 then 0xFEFF else w.aead.version) < TWO16 by { VersionOf(w.aead); }
    HeaderOf(typ, RecordVersion(w.aead), w.Epoch(previous), w.SeqNum(previous), body);
  }

  lemma {:induction false} VersionOf(c: Context)
    requires c.version < TWO16
    ensures RecordVersion(c) == (if c.version == 0 then 0xFEFF else c.version) < TWO16
  {
  }

  lemma {:induction false} HeaderOf(typ: byte, version: nat, epoch: nat, n: nat, body: seq<byte>)
    requires version < TWO16 && epoch < TWO16 && n < TWO48 && |body| < TWO16
    ensures var x := RecordBytes(typ, version, SeqBytes(epoch, n), body);
            && |x| == 13 + |body| && x[0] == typ && U16(x[1], x[2]) == version && U16(x[3], x[4]) == epoch && GetBe(x[5..11]) == n
            && U16(x[11], x[12]) == |body|
  {
    hide PutBe, GetBe, U16;
    assert Pow2(48) == TWO48 by { Pow2Values(); Pow2Sum(16, 16); Pow2Sum(32, 16); }
    BeRoundTrip(n, 6);
    TwoBytes(version);
    TwoBytes(epoch);
    TwoBytes(|body|);
    RecordParts(typ, version, SeqBytes(epoch, n), body, []);
    var x := RecordBytes(typ, version, SeqBytes(epoch, n), body);
    assert x + [] == x;
    assert x[1] == x[1..3][0] && x[2] == x[1..3][1] && x[11] == x[11..13][0] && x[12] == x[11..13][1];
    assert x[3] == x[3..11][0] && x[4] == x[3..11][1] && x[5..11] == x[3..11][2..8];
    assert SeqBytes(epoch, n)[2..8] == PutBe(n, 6);
  }

  /** The parts of a record, with what follows it. */
  lemma {:induction false} RecordParts(typ: byte, version: nat, sequence: seq<byte>, body: seq<byte>, rest: seq<byte>)
    requires |sequence| == 8
    ensures var x := RecordBytes(typ, version, sequence, body) + rest;
            && x[0] == typ && x[1..3] == PutBe(version, 2) && x[3..11] == sequence && x[11..13] == PutBe(|body|, 2)
            && x[13..13 + |body|] == body && x[13 + |body|..] == rest
  {
    hide PutBe;
  }

  /** `dtls1_set_write_state`. */
  function SwitchWrite(w: WriteState, aead: Context): WriteState {
    WriteState((w.epoch + 1) % TWO16, 0, w.seqNum, aead, w.aead)
  }

  // ---- Reading back what was written ---------------------------------------------------------

  /** The tag has its maximal length wherever the reader relies on that. */
  ghost predicate FixedOverhead(c: Context) {
    c.OmitsLength() || c.kind.Null? || forall n :: c.evp.tagLen(n) == c.evp.maxOverhead
  }

  lemma {:induction false} GetBeConcat(a: seq<byte>, b: seq<byte>)
    ensures GetBe(a + b) == GetBe(a) * Pow2(8 * |b|) + GetBe(b)
    decreases |b|
  {
    hide Pow2;
    assert Pow2(8) == 256 && Pow2(0) == 1 by { Pow2Values(); Pow2Sum(0, 4); }
    if b == [] {
      assert a + b == a;
    } else {
      var b' := b[..|b| - 1];
      var x, p := GetBe(a), Pow2(8 * |b'|);
      assert (a + b)[..|a + b| - 1] == a + b';
      GetBeConcat(a, b');
      assert 8 * |b| == 8 * |b'| + 8;
      Pow2Sum(8 * |b'|, 8);
      Associate(x, p, 256);
      assert GetBe(a + b) == 256 * (x * p + GetBe(b')) + b[|b| - 1];
    }
  }

  /** The sequence field of a record is its epoch and its number. */
  lemma {:induction false} SeqBytesValue(epoch: nat, n: nat)
    requires epoch < TWO16 && n < TWO48
    ensures GetBe(SeqBytes(epoch, n)) == epoch * TWO48 + n && GetBe(SeqBytes(epoch, n)[..2]) == epoch
  {
    assert Pow2(16) == TWO16 && Pow2(48) == TWO48 by { Pow2Values(); Pow2Sum(24, 24); }
    BeRoundTrip(epoch, 2);
    BeRoundTrip(n, 6);
    GetBeConcat(PutBe(epoch, 2), PutBe(n, 6));
    assert SeqBytes(epoch, n)[..2] == PutBe(epoch, 2);
  }

  /** Whatever a reader with the same context makes of a sealed record, it is the record's text or nothing. */
  lemma {:induction false} OpenSealed(w: WriteState, previous: bool, typ: byte, text: seq<byte>, maxOut: nat, luck: Luck,
                                      r: ReadState, rest: seq<byte>)
    requires w.Valid() && (previous ==> w.epoch >= 1) && SealRecord(w, previous, typ, text, maxOut, luck).1.Some?
    requires r.aead.Valid() && (r.epoch == w.Epoch(previous) ==> r.aead == w.Context(previous)) && FixedOverhead(r.aead)
    ensures var record := SealRecord(w, previous, typ, text, maxOut, luck).1.value;
            var n := w.Epoch(previous) * TWO48 + w.SeqNum(previous);
            var version := RecordVersion(w.aead);
            var body := |record| - DTLS1_RT_HEADER_LENGTH;
            var got := OpenRecord(r, record + rest);
            if body > SSL3_RT_MAX_ENCRYPTED_LENGTH
               || (if r.aead.kind.Null? then version / 256 != 0xFE else version != RecordVersion(r.aead))
            then got == (r, Discarded, [])
            else if r.epoch != w.Epoch(previous) || r.window.ShouldDiscard(n) then got == (r, Discarded, rest)
            else if |text| > SSL3_RT_MAX_PLAIN_LENGTH then got == (r, RecordOverflow, rest)
            else got == (r.(window := r.window.Record(n)), Opened(typ, text), rest)
  {
    hide GetBe, PutBe, Window.ShouldDiscard, Window.Record, Context.Open, Context.Seal;
    var aead, sequence, version := w.Context(previous), SeqBytes(w.Epoch(previous), w.SeqNum(previous)), RecordVersion(w.aead);
    var rand := Supplied(aead.VariableLen(), luck.rand);
    var body := aead.Seal(typ, version, sequence, text, rand, maxOut - DTLS1_RT_HEADER_LENGTH).value;
    var input := RecordBytes(typ, version, sequence, body) + rest;
    assert Pow2(16) == TWO16 by { Pow2Values(); }
    BeRoundTrip(version, 2);
    BeRoundTrip(|body|, 2);
    SeqBytesValue(w.Epoch(previous), w.SeqNum(previous));
    RecordParts(typ, version, sequence, body, rest);
    if r.epoch == w.Epoch(previous) {
      OpenSeal(aead, typ, version, sequence, text, rand, maxOut - DTLS1_RT_HEADER_LENGTH);
    }
  }

  /** A record cut short is discarded, with the rest of its datagram. */
  ghost predicate LostWhenCut(record: seq<byte>) {
    forall r: ReadState, cut: nat | r.aead.Valid() && 0 < cut < |record| :: OpenRecord(r, record[..cut]) == (r, Discarded, [])
  }

  /** A sealed record is not opened when its end is missing. */
  lemma {:induction false} SealedLostWhenCut(w: WriteState, previous: bool, typ: byte, text: seq<byte>, maxOut: nat, luck: Luck)
    requires w.Valid() && (previous ==> w.epoch >= 1) && SealRecord(w, previous, typ, text, maxOut, luck).1.Some?
    ensures LostWhenCut(SealRecord(w, previous, typ, text, maxOut, luck).1.value)
  {
    hide GetBe, PutBe, Window.ShouldDiscard, Window.Record, Context.Open, Context.Seal;
    var record := SealRecord(w, previous, typ, text, maxOut, luck).1.value;
    forall r: ReadState, cut: nat | r.aead.Valid() && 0 < cut < |record|
      ensures OpenRecord(r, record[..cut]) == (r, Discarded, [])
    {
      var aead, sequence, version := w.Context(previous), SeqBytes(w.Epoch(previous), w.SeqNum(previous)), RecordVersion(w.aead);
      var body := aead.Seal(typ, version, sequence, text, Supplied(aead.VariableLen(), luck.rand), maxOut - DTLS1_RT_HEADER_LENGTH).value;
      assert record == RecordBytes(typ, version, sequence, body);
      assert record[11..13] == PutBe(|body|, 2);
      assert Pow2(16) == TWO16 by { Pow2Values(); }
      BeRoundTrip(|body|, 2);
      if cut >= DTLS1_RT_HEADER_LENGTH { assert record[..cut][11..13] == record[11..13]; }
    }
  }

  // ---- Record numbers are never used twice ---------------------------------------------------

  datatype WriteOp =
    | SealOp(previous: bool, typ: byte, text: seq<byte>, maxOut: nat, luck: Luck)
    | SwitchOp(aead: Context)

  /** What a run of writes leaves: the state, the numbers of the records sealed, and whether a wraparound was reported. */
  datatype Writes = Writes(state: WriteState, numbers: seq<(nat, nat)>, wrapped: bool)

  ghost predicate CanWrite(w: WriteState, op: WriteOp) {
    match op
    case SealOp(previous, _, _, _, _) => previous ==> w.epoch >= 1
    case SwitchOp(aead) => aead.Valid()
  }

  function Write(h: Writes, op: WriteOp): Writes
    requires h.state.Valid() && CanWrite(h.state, op)
  {
    var w := h.state;
    match op
    case SwitchOp(aead) => h.(state := SwitchWrite(w, aead))
    case SealOp(previous, typ, text, maxOut, luck) =>
      var r := SealRecord(w, previous, typ, text, maxOut, luck);
      Writes(r.0,
             if r.1.Some? then h.numbers + [(w.Epoch(previous), w.SeqNum(previous))] else h.numbers,
             h.wrapped || (w.SeqNum(previous) != 0 && r.0.SeqNum(previous) == 0))
  }

  /** A run of writes, in order. */
  ghost predicate WritesTo(h: Writes, ops: seq<WriteOp>, h': Writes)
    decreases |ops|
  {
    if ops == [] then h' == h
    else h.state.Valid() && CanWrite(h.state, ops[0]) && WritesTo(Write(h, ops[0]), ops[1..], h')
  }

  function Switches(ops: seq<WriteOp>): nat {
    if ops == [] then 0 else (if ops[0].SwitchOp? then 1 else 0) + Switches(ops[1..])
  }

  function Seals(ops: seq<WriteOp>): nat {
    if ops == [] then 0 else (if ops[0].SealOp? then 1 else 0) + Seals(ops[1..])
  }

  predicate NumbersInRange(numbers: seq<(nat, nat)>) {
    forall i :: 0 <= i < |numbers| ==> numbers[i].0 < TWO16 && numbers[i].1 < TWO48
  }

  /** Every number used so far lies below the counters that can still be used. */
  ghost predicate Below(h: Writes) {
    && NoDuplicates(h.numbers) && NumbersInRange(h.numbers)
    && forall i :: 0 <= i < |h.numbers| ==>
         && h.numbers[i].0 <= h.state.epoch
         && (h.numbers[i].0 == h.state.epoch ==> h.numbers[i].1 < h.state.seqNum)
         && (h.numbers[i].0 + 1 == h.state.epoch ==> h.numbers[i].1 < h.state.lastSeqNum)
  }

  lemma {:induction false} WriteKeepsBelow(h: Writes, op: WriteOp)
    requires h.state.Valid() && CanWrite(h.state, op) && Below(h)
    requires !Write(h, op).wrapped && (op.SwitchOp? ==> h.state.epoch + 1 < TWO16)
    ensures Write(h, op).state.Valid() && Below(Write(h, op))
  {
    hide SealRecord, Context.Valid;
  }

  /**
   * Across epoch switches and retransmission in the previous epoch, no two records are sealed with the same
   * epoch and number, as long as no wraparound has been reported and the epochs have not come round.
   */
  lemma {:induction false} NumbersUnique(h: Writes, ops: seq<WriteOp>, h': Writes)
    requires h.state.Valid() && Below(h) && WritesTo(h, ops, h')
    requires !h'.wrapped && h.state.epoch + Switches(ops) < TWO16
    ensures NoDuplicates(h'.numbers)
    decreases |ops|
  {
    if ops != [] {
      if Write(h, ops[0]).wrapped { StaysWrapped(Write(h, ops[0]), ops[1..], h'); }
      WriteKeepsBelow(h, ops[0]);
      NumbersUnique(Write(h, ops[0]), ops[1..], h');
    }
  }

  lemma {:induction false} StaysWrapped(h: Writes, ops: seq<WriteOp>, h': Writes)
    requires WritesTo(h, ops, h') && h.wrapped
    ensures h'.wrapped
    decreases |ops|
  {
    if ops != [] { StaysWrapped(Write(h, ops[0]), ops[1..], h'); }
  }

  /** Neither epoch has had more seals than all that were made. */
  predicate Counted(w: WriteState, seals: nat) {
    w.seqNum <= seals && w.lastSeqNum <= seals
  }

  /** The first seal that can wrap a counter is the 2^48th, and it uses no number. */
  lemma {:induction false} WriteCounts(h: Writes, op: WriteOp, seals: nat)
    requires h.state.Valid() && CanWrite(h.state, op) && !h.wrapped && Counted(h.state, seals)
    ensures Write(h, op).state.Valid()
    ensures var seals' := if op.SealOp? then seals + 1 else seals;
            if Write(h, op).wrapped then op.SealOp? && seals' >= TWO48 && Write(h, op).numbers == h.numbers
            else Counted(Write(h, op).state, seals')
  {
    hide SealRecord, Context.Valid;
  }

  lemma {:induction false} SwitchesSealNothing(h: Writes, ops: seq<WriteOp>, h': Writes)
    requires WritesTo(h, ops, h') && Seals(ops) == 0
    ensures h'.numbers == h.numbers
    decreases |ops|
  {
    if ops != [] { SwitchesSealNothing(Write(h, ops[0]), ops[1..], h'); }
  }

  /** No number is used twice in a run of at most 2^48 seals within 2^16 epochs. */
  lemma {:induction false} FewSealsUnique(h: Writes, ops: seq<WriteOp>, h': Writes, seals: nat)
    requires h.state.Valid() && Below(h) && !h.wrapped && WritesTo(h, ops, h') && Counted(h.state, seals)
    requires seals + Seals(ops) <= TWO48 && h.state.epoch + Switches(ops) < TWO16
    ensures NoDuplicates(h'.numbers) && NumbersInRange(h'.numbers)
    decreases |ops|
  {
    hide Write, CanWrite;
    if ops != [] {
      var next := Write(h, ops[0]);
      WriteCounts(h, ops[0], seals);
      if next.wrapped {
        SwitchesSealNothing(next, ops[1..], h');
      } else {
        WriteKeepsBelow(h, ops[0]);
        assert next.state.epoch + Switches(ops[1..]) < TWO16 by { WriteEpoch(h, ops[0]); }
        FewSealsUnique(next, ops[1..], h', if ops[0].SealOp? then seals + 1 else seals);
      }
    }
  }

  lemma {:induction false} WriteEpoch(h: Writes, op: WriteOp)
    requires h.state.Valid() && CanWrite(h.state, op)
    ensures Write(h, op).state.epoch == if op.SwitchOp? then (h.state.epoch + 1) % TWO16 else h.state.epoch
  {
    hide SealRecord, Context.Valid;
  }

  /** Counters that have not been used, for whichever contexts. */
  ghost predicate Unused(h: Writes) {
    h.state.Valid() && h.state.epoch == h.state.seqNum == h.state.lastSeqNum == 0 && h.numbers == [] && !h.wrapped
  }

  /** No run of at most `n` seals and `k` epoch switches, from unused counters, uses a number twice. */
  ghost predicate AlwaysUnique(n: nat, k: nat) {
    forall h: Writes, ops: seq<WriteOp>, h': Writes ::
      Unused(h) && Seals(ops) <= n && Switches(ops) <= k && WritesTo(h, ops, h') ==> NoDuplicates(h'.numbers)
  }

  /** A run has at most one number for each of its seals. */
  lemma {:induction false} NumbersForSeals(h: Writes, ops: seq<WriteOp>, h': Writes)
    requires WritesTo(h, ops, h')
    ensures |h'.numbers| <= |h.numbers| + Seals(ops)
    decreases |ops|
  {
    if ops != [] { NumbersForSeals(Write(h, ops[0]), ops[1..], h'); }
  }

  /**
   * Under one context the nonces drawn from the sequence numbers of a run's records are all different, across epochs
   * and previous-epoch seals: the epoch is part of the eight bytes.
   */
  lemma {:induction false} NoncesUnique(h: Writes, ops: seq<WriteOp>, h': Writes, c: Context)
    requires Unused(h) && WritesTo(h, ops, h') && Seals(ops) <= TWO48 && Switches(ops) < TWO16 && c.Valid()
    ensures forall i, j :: 0 <= i < j < |h'.numbers| ==>
              c.Nonce(SeqBytes(h'.numbers[i].0, h'.numbers[i].1)) != c.Nonce(SeqBytes(h'.numbers[j].0, h'.numbers[j].1))
  {
    FewSealsUnique(h, ops, h', 0);
    forall i, j | 0 <= i < j < |h'.numbers|
      ensures c.Nonce(SeqBytes(h'.numbers[i].0, h'.numbers[i].1)) != c.Nonce(SeqBytes(h'.numbers[j].0, h'.numbers[j].1))
    {
      var a, b := h'.numbers[i], h'.numbers[j];
      NonceInjective(c, SeqBytes(a.0, a.1), SeqBytes(b.0, b.1));
      SeqBytesInjective(a.0, a.1, b.0, b.1);
    }
  }

  lemma {:induction false} SeqBytesInjective(e: nat, m: nat, f: nat, n: nat)
    requires e < TWO16 && f < TWO16 && m < TWO48 && n < TWO48
    ensures SeqBytes(e, m) == SeqBytes(f, n) <==> e == f && m == n
  {
    SeqBytesValue(e, m);
    SeqBytesValue(f, n);
  }

  // ---- Both conditions are needed ------------------------------------------------------------

  function Repeat(op: WriteOp, k: nat): seq<WriteOp> {
    if k == 0 then [] else [op] + Repeat(op, k - 1)
  }

  function Numbers(epoch: nat, from: nat, k: nat): (s: seq<(nat, nat)>) {
    seq(k, i requires 0 <= i < k => (epoch, from + i))
  }

  lemma {:induction false} WritesAppend(a: Writes, xs: seq<WriteOp>, b: Writes, ys: seq<WriteOp>, c: Writes)
    requires WritesTo(a, xs, b) && WritesTo(b, ys, c)
    ensures WritesTo(a, xs + ys, c)
    decreases |xs|
  {
    if xs == [] {
      assert xs + ys == ys;
    } else {
      assert (xs + ys)[1..] == xs[1..] + ys;
      WritesAppend(Write(a, xs[0]), xs[1..], b, ys, c);
    }
  }

  const Unencrypted: Evp := Evp((n, a, t) => t, (n, a, t) => Some(t), n => 0, 0)
  const NullContext: Context := Context.Context(Null, 0, [], 0, Unencrypted)
  const CcsOp: WriteOp := SealOp(false, 20, [1], 228, Luck(true, _ => 0))

  lemma {:induction false} SealsOnce(h: Writes)
    requires h.state.Valid() && h.state.aead == NullContext && h.state.seqNum + 1 < TWO48
    ensures Write(h, CcsOp) == Writes(h.state.(seqNum := h.state.seqNum + 1), h.numbers + [(h.state.epoch, h.state.seqNum)], h.wrapped)
    ensures WritesTo(h, [CcsOp], Write(h, CcsOp))
  {
    assert [CcsOp][1..] == [];
  }

  lemma {:induction false} ManySeals(h: Writes, k: nat)
    requires h.state.Valid() && h.state.aead == NullContext && h.state.seqNum + k < TWO48
    decreases k
    ensures WritesTo(h, Repeat(CcsOp, k),
              Writes(h.state.(seqNum := h.state.seqNum + k), h.numbers + Numbers(h.state.epoch, h.state.seqNum, k), h.wrapped))
  {
    hide SealRecord;
    if k > 0 {
      var next := Write(h, CcsOp);
      SealsOnce(h);
      ManySeals(next, k - 1);
      assert next.numbers + Numbers(h.state.epoch, h.state.seqNum + 1, k - 1)
          == h.numbers + Numbers(h.state.epoch, h.state.seqNum, k);
    }
  }

  lemma {:induction false} ManySwitches(h: Writes, k: nat)
    requires h.state.Valid() && h.state.aead == NullContext && h.state.lastAead == NullContext && k >= 1
    decreases k
    ensures WritesTo(h, Repeat(SwitchOp(NullContext), k),
              h.(state := WriteState((h.state.epoch + k) % TWO16, 0, if k == 1 then h.state.seqNum else 0, NullContext, NullContext)))
  {
    var next := Write(h, SwitchOp(NullContext));
    if k > 1 {
      ManySwitches(next, k - 1);
    }
  }

  const FreshWrites: Writes := Writes(WriteState(0, 0, 0, NullContext, NullContext), [], false)

  lemma {:induction false} CountsAppend(xs: seq<WriteOp>, ys: seq<WriteOp>)
    ensures Seals(xs + ys) == Seals(xs) + Seals(ys) && Switches(xs + ys) == Switches(xs) + Switches(ys)
    decreases |xs|
  {
    if xs == [] {
      assert xs + ys == ys;
    } else {
      assert (xs + ys)[1..] == xs[1..] + ys;
      CountsAppend(xs[1..], ys);
    }
  }

  lemma {:induction false} CountsRepeat(op: WriteOp, k: nat)
    ensures Seals(Repeat(op, k)) == (if op.SealOp? then k else 0)
    ensures Switches(Repeat(op, k)) == (if op.SwitchOp? then k else 0)
    decreases k
  {
    if k > 0 {
      assert Repeat(op, k)[1..] == Repeat(op, k - 1);
      CountsRepeat(op, k - 1);
    }
  }

  lemma {:induction false} ManyCounts(n: nat)
    ensures Seals(Repeat(CcsOp, n) + [CcsOp, CcsOp]) == n + 2 && Switches(Repeat(CcsOp, n) + [CcsOp, CcsOp]) == 0
  {
    CountsRepeat(CcsOp, n);
    CountsAppend(Repeat(CcsOp, n), [CcsOp, CcsOp]);
    CountsAppend([CcsOp], [CcsOp]);
    assert [CcsOp] + [CcsOp] == [CcsOp, CcsOp] && Seals([CcsOp]) == 1 && Switches([CcsOp]) == 0;
  }

  /** Past a reported wraparound a number is used again: 2^48 + 1 seals are enough. */
  lemma {:induction false} WraparoundRepeats() returns (h: Writes)
    ensures WritesTo(FreshWrites, Repeat(CcsOp, TWO48 - 1) + [CcsOp, CcsOp], h)
    ensures Seals(Repeat(CcsOp, TWO48 - 1) + [CcsOp, CcsOp]) == TWO48 + 1
    ensures Switches(Repeat(CcsOp, TWO48 - 1) + [CcsOp, CcsOp]) == 0
    ensures h.wrapped && !NoDuplicates(h.numbers)
  {
    hide Repeat, SealRecord;
    var n := TWO48 - 1;
    ManySeals(FreshWrites, n);
    var full := Writes(FreshWrites.state.(seqNum := n), Numbers(0, 0, n), false);
    assert FreshWrites.numbers + Numbers(0, 0, n) == Numbers(0, 0, n);
    var lost := WrappedSeal(full);
    SealsOnce(lost);
    h := Write(lost, CcsOp);
    assert [CcsOp, CcsOp][1..] == [CcsOp];
    assert WritesTo(full, [CcsOp, CcsOp], h);
    WritesAppend(FreshWrites, Repeat(CcsOp, n), full, [CcsOp, CcsOp], h);
    assert h.numbers[0] == (0, 0) == h.numbers[n];
    ManyCounts(n);
  }

  lemma {:induction false} WrappedSeal(h: Writes) returns (lost: Writes)
    requires h.state.Valid() && h.state.aead == NullContext && h.state.seqNum == TWO48 - 1
    ensures lost == Write(h, CcsOp) == Writes(h.state.(seqNum := 0), h.numbers, true)
  {
    lost := Write(h, CcsOp);
  }

  /** Once 2^16 epochs have passed, a number is used again although no wraparound was reported. */
  lemma {:induction false} EpochsRepeat() returns (h: Writes)
    ensures WritesTo(FreshWrites, [CcsOp] + Repeat(SwitchOp(NullContext), TWO16) + [CcsOp], h)
    ensures Seals([CcsOp] + Repeat(SwitchOp(NullContext), TWO16) + [CcsOp]) == 2
    ensures Switches([CcsOp] + Repeat(SwitchOp(NullContext), TWO16) + [CcsOp]) == TWO16
    ensures !h.wrapped && !NoDuplicates(h.numbers)
  {
    hide Repeat, SealRecord;
    SealsOnce(FreshWrites);
    var one := Write(FreshWrites, CcsOp);
    ManySwitches(one, TWO16);
    var back := one.(state := WriteState(0, 0, 0, NullContext, NullContext));
    WritesAppend(FreshWrites, [CcsOp], one, Repeat(SwitchOp(NullContext), TWO16), back);
    SealsOnce(back);
    h := Write(back, CcsOp);
    WritesAppend(FreshWrites, [CcsOp] + Repeat(SwitchOp(NullContext), TWO16), back, [CcsOp], h);
    assert h.numbers[0] == h.numbers[1];
    CountsRepeat(SwitchOp(NullContext), TWO16);
    CountsAppend([CcsOp], Repeat(SwitchOp(NullContext), TWO16));
    CountsAppend([CcsOp] + Repeat(SwitchOp(NullContext), TWO16), [CcsOp]);
  }

  /**
   * The exact bounds: runs of at most `n` seals and `k` epoch switches never use a number twice if and only if
   * there are too few seals to repeat one, or neither the counters nor the epochs can come round.
   */
  lemma {:induction false} NumbersUniqueExactly(n: nat, k: nat)
    ensures AlwaysUnique(n, k) <==> n <= 1 || (n <= TWO48 && k < TWO16)
  {
    hide WritesTo, Seals, Switches, Repeat;
    if n <= 1 || (n <= TWO48 && k < TWO16) {
      forall h: Writes, ops: seq<WriteOp>, h': Writes
        | Unused(h) && Seals(ops) <= n && Switches(ops) <= k && WritesTo(h, ops, h')
        ensures NoDuplicates(h'.numbers)
      {
        if n <= 1 { NumbersForSeals(h, ops, h'); } else { FewSealsUnique(h, ops, h', 0); }
      }
    } else if n > TWO48 {
      var h := WraparoundRepeats();
      assert Unused(FreshWrites);
    } else {
      var h := EpochsRepeat();
      assert Unused(FreshWrites);
    }
  }
}

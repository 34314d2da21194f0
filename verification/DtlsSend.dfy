/** Sending DTLS flights: fragmentation to the MTU, packing, retry and retransmission (`d1_both.cc`). */
module DtlsSend {
  import opened Common
  import opened BigEndian
  import opened SslAead
  import opened DtlsFragment
  import opened DtlsRecord

  const SSL3_RT_CHANGE_CIPHER_SPEC: byte := 20
  const SSL3_RT_HANDSHAKE: byte := 22
  const kMinMTU: nat := 228
  const kDefaultMTU: nat := 1472

  /** `DTLS_OUTGOING_MESSAGE`. */
  datatype OutMessage = OutMessage(data: seq<byte>, epoch: nat, isCcs: bool)

  /** What a record carries: the ChangeCipherSpec or a fragment of a message of the flight. */
  datatype Piece = Ccs | Part(frag: Fragment) {
    function Typ(): byte { if Ccs? then SSL3_RT_CHANGE_CIPHER_SPEC else SSL3_RT_HANDSHAKE }

    function Text(): seq<byte> { if Ccs? then [1] else frag.Bytes() }
  }

  /** A sealed record, what it carries, and for which message of the flight. */
  datatype Sealed = Sealed(index: nat, piece: Piece, record: seq<byte>)

  /** The outgoing flight, the cursor into it, and the write side of the record layer with its log. */
  datatype Sender = Sender(flight: seq<OutMessage>, written: nat, offset: nat, complete: bool, writeSeq: nat, log: Writes) {
    ghost predicate Valid() {
      && |flight| <= SSL_MAX_HANDSHAKE_FLIGHT && written <= |flight| && writeSeq < TWO16 && log.state.Valid()
      && (forall i :: 0 <= i < |flight| && flight[i].isCcs ==> flight[i].data == [])
      && offset <= if written < |flight| then |flight[written].data| else 0
    }

    /** How far the flight has not been written, for the lexicographic order on cursors. */
    function Behind(): nat
      requires written <= |flight|
    {
      if written < |flight| && offset < |flight[written].data| then |flight[written].data| - offset else 0
    }
  }

  /** `a` is strictly past `b`. */
  predicate Past(a: Sender, b: Sender) {
    a.written > b.written || (a.written == b.written && a.offset > b.offset)
  }

  /** `dtls1_update_mtu`: an MTU below the minimum is asked for again, unless the options forbid it. */
  function UpdateMtu(mtu: nat, noQuery: bool, queried: int): (r: nat)
    ensures mtu >= 228 || noQuery ==> r == mtu
    ensures mtu < 228 && !noQuery ==> r >= 228 && if 228 <= queried <= 0x4000_0000 then r == queried else r == 1472
  {
    if mtu >= kMinMTU || noQuery then mtu
    else if kMinMTU <= queried <= 0x4000_0000 then queried
    else kDefaultMTU
  }

  /** The MTU after calls that each may ask for it: whether asking is forbidden, and the answer. */
  function MtuAfter(mtu: nat, queries: seq<(bool, int)>): nat
    decreases |queries|
  {
    if queries == [] then mtu else MtuAfter(UpdateMtu(mtu, queries[0].0, queries[0].1), queries[1..])
  }

  /** The MTU is asked for in the first call that may ask, and never again: a later answer changes nothing. */
  lemma {:induction false} MtuSettles(mtu: nat, queries: seq<(bool, int)>, first: nat)
    requires first <= |queries| && (forall i :: 0 <= i < first ==> queries[i].0) && (first < |queries| ==> !queries[first].0)
    ensures MtuAfter(mtu, queries)
         == if mtu >= 228 || first == |queries| then mtu
            else if 228 <= queries[first].1 <= 0x4000_0000 then queries[first].1
            else 1472
    decreases |queries|
  {
    if queries != [] {
      if first > 0 { MtuSettles(mtu, queries[1..], first - 1); }
      else {
        var next := UpdateMtu(mtu, false, queries[0].1);
        SettledMtu(next, queries[1..]);
      }
    }
  }

  lemma {:induction false} SettledMtu(mtu: nat, queries: seq<(bool, int)>)
    requires mtu >= 228
    ensures MtuAfter(mtu, queries) == mtu
  {
    if queries != [] { SettledMtu(mtu, queries[1..]); }
  }

  // ---- Building a flight ---------------------------------------------------------------------

  /** `dtls_clear_outgoing_messages`. */
  function Clear(s: Sender): Sender {
    s.(flight := [], written := 0, offset := 0, complete := false)
  }

  /** `add_outgoing`. */
  function AddOutgoing(s: Sender, isCcs: bool, data: seq<byte>): Option<Sender> {
    var s' := if s.complete then Clear(s) else s;
    if |s'.flight| >= SSL_MAX_HANDSHAKE_FLIGHT || |data| > 0xFFFF_FFFF then None
    else Some(s'.(flight := s'.flight + [OutMessage(data, s'.log.state.epoch, isCcs)],
                  writeSeq := if isCcs then s'.writeSeq else (s'.writeSeq + 1) % TWO16))
  }

  /** `dtls1_init_message`, the caller's body, `dtls1_finish_message` and `dtls1_add_message`. */
  function AddMessage(s: Sender, m: Message): Option<Sender> {
    if |m.body| >= 0x100_0000 then None else AddOutgoing(s, false, m.Raw(s.writeSeq))
  }

  /** A message to be sent, or the ChangeCipherSpec. */
  datatype Item = Item(isCcs: bool, data: seq<byte>)

  function AddItems(s: Sender, items: seq<Item>): Option<Sender>
    decreases |items|
  {
    if items == [] then Some(s)
    else
      var r := AddOutgoing(s, items[0].isCcs, items[0].data);
      if r.None? then None else AddItems(r.value, items[1..])
  }

  function Handshakes(items: seq<Item>): nat {
    if items == [] then 0 else (if items[0].isCcs then 0 else 1) + Handshakes(items[1..])
  }

  /**
   * A flight is made of the messages added since the last one was flushed, in order and under the epoch at hand; the
   * first of them drops the flight before. Adding fails exactly for the eighth, or for one too long to be queued.
   */
  lemma {:induction false} FlightCollects(s: Sender, items: seq<Item>)
    requires items != [] && s.writeSeq < TWO16
    ensures var kept, r := if s.complete then [] else s.flight, AddItems(s, items);
            && (r.Some? <==> |kept| + |items| <= 7 && forall i :: 0 <= i < |items| ==> |items[i].data| <= 0xFFFF_FFFF)
            && (r.Some? ==>
                 && r.value.flight == kept + seq(|items|, i requires 0 <= i < |items| => OutMessage(items[i].data, s.log.state.epoch, items[i].isCcs))
                 && !r.value.complete && r.value.log == s.log
                 && r.value.written == (if s.complete then 0 else s.written) && r.value.offset == (if s.complete then 0 else s.offset)
                 && r.value.writeSeq == (s.writeSeq + Handshakes(items)) % TWO16)
    decreases |items|
  {
    var kept, x := if s.complete then [] else s.flight, items[0];
    var first := AddOutgoing(s, x.isCcs, x.data);
    if first.Some? && |items| > 1 {
      FlightCollects(first.value, items[1..]);
      SumsModulo(s.writeSeq, if x.isCcs then 0 else 1, Handshakes(items[1..]));
      var e := s.log.state.epoch;
      assert [OutMessage(x.data, e, x.isCcs)]
           + seq(|items| - 1, i requires 0 <= i < |items| - 1 => OutMessage(items[1..][i].data, e, items[1..][i].isCcs))
          == seq(|items|, i requires 0 <= i < |items| => OutMessage(items[i].data, e, items[i].isCcs));
    }
    assert |items| == 1 ==> Handshakes(items[1..]) == 0;
  }

  lemma {:induction false} SumsModulo(a: nat, b: nat, c: nat)
    ensures ((a + b) % TWO16 + c) % TWO16 == (a + (b + c)) % TWO16
  {
  }

  // ---- Sealing -------------------------------------------------------------------------------

  datatype SealResult = SealError | NoProgress | Progress(sealed: Sealed, partial: bool)

  function Seal(s: Sender, previous: bool, piece: Piece, maxOut: nat, luck: Luck): (r: (Sender, SealResult))
    requires s.Valid() && s.written < |s.flight| && (previous ==> s.log.state.epoch >= 1)
    ensures r.0.Valid() && r.0 == s.(log := r.0.log)
    ensures r.1.SealError? || (r.1.Progress? && 0 < |r.1.sealed.record| <= maxOut && !r.1.partial)
  {
    hide SealRecord, Context.Valid;
    var r := SealRecord(s.log.state, previous, piece.Typ(), piece.Text(), maxOut, luck);
    (s.(log := Write(s.log, SealOp(previous, piece.Typ(), piece.Text(), maxOut, luck))),
     if r.1.None? then SealError else Progress(Sealed(s.written, piece, r.1.value), false))
  }

  /** The next fragment of a message from `offset`, with at most `room` bytes of its body. */
  function NextFragment(m: Fragment, offset: nat, room: nat): (f: Fragment)
    requires offset <= |m.body|
    ensures f.hdr.fragOff == offset && f.hdr.fragLen == |f.body| <= room && offset + |f.body| <= |m.body|
    ensures offset + |f.body| < |m.body| ==> |f.body| == room
  {
    var left := |m.body| - offset;
    var todo := if left > room then room else left;
    Fragment(m.hdr.(fragOff := offset, fragLen := todo), m.body[offset..offset + todo])
  }

  /** What a message may add to its text: the record header and the cipher's overhead. */
  function Overhead(w: WriteState, previous: bool): nat
    requires w.Valid()
  {
    DTLS1_RT_HEADER_LENGTH + w.Context(previous).MaxOverhead()
  }

  /** Whether the epoch of a message is the previous one. */
  predicate UsesPrevious(w: WriteState, msg: OutMessage) {
    w.epoch >= 1 && msg.epoch == w.epoch - 1
  }

  /** The message as the single fragment it was serialised as; None when it is not one, or ends before the cursor. */
  function Whole(msg: OutMessage, offset: nat): (f: Option<Fragment>)
    ensures f.Some? ==> offset <= |f.value.body| && |msg.data| == DTLS1_HM_HEADER_LENGTH + |f.value.body|
  {
    var p := ParseFragment(msg.data);
    if p.None? then None
    else
      ParseLength(msg.data);
      var f := p.value.0;
      if f.hdr.fragOff != 0 || f.hdr.msgLen != |f.body| || offset > |f.body| || p.value.1 != [] then None else Some(f)
  }

  /** Sealing as much of a message as fits. */
  function SealPart(s: Sender, previous: bool, m: Fragment, maxOut: nat, luck: Luck): (r: (Sender, SealResult))
    requires s.Valid() && s.written < |s.flight| && (previous ==> s.log.state.epoch >= 1)
    requires s.offset <= |m.body| && |m.body| < |s.flight[s.written].data|
    ensures r.0.Valid() && r.0 == s.(log := r.0.log, offset := r.0.offset)
    ensures r.1.Progress? ==> 0 < |r.1.sealed.record| <= maxOut
    ensures r.1.Progress? && r.1.partial ==> s.offset < r.0.offset < |s.flight[s.written].data|
    ensures r.1.Progress? && !r.1.partial ==> r.0.offset == 0
    ensures !r.1.Progress? ==> r.0.offset == s.offset
  {
    hide Context.Valid;
    var overhead := Overhead(s.log.state, previous);
    var prefix := DTLS1_RT_HEADER_LENGTH + s.log.state.Context(previous).ExplicitNonceLen();
    if maxOut < DTLS1_HM_HEADER_LENGTH + 1 + overhead || maxOut < prefix then (s, NoProgress)
    else
      var frag := NextFragment(m, s.offset, maxOut - DTLS1_HM_HEADER_LENGTH - overhead);
      var r := Seal(s, previous, Part(frag), maxOut, luck);
      if !r.1.Progress? then r
      else if s.offset + |frag.body| == |m.body| then (r.0.(offset := 0), r.1)
      else (r.0.(offset := s.offset + |frag.body|), r.1.(partial := true))
  }

  /** `seal_next_message`. */
  function SealMessage(s: Sender, maxOut: nat, luck: Luck): (r: (Sender, SealResult))
    requires s.Valid() && s.written < |s.flight|
    ensures r.0.Valid() && r.0 == s.(log := r.0.log, offset := r.0.offset)
    ensures r.1.Progress? ==> 0 < |r.1.sealed.record| <= maxOut
    ensures r.1.Progress? && r.1.partial ==> s.offset < r.0.offset < |s.flight[s.written].data|
    ensures r.1.Progress? && !r.1.partial ==> r.0.offset == 0
    ensures !r.1.Progress? ==> r.0.offset == s.offset
  {
    hide Context.Valid;
    var msg, w := s.flight[s.written], s.log.state;
    var previous := UsesPrevious(w, msg);
    if !previous && msg.epoch != w.epoch then (s, SealError)
    else if msg.isCcs then
      if maxOut < 1 + Overhead(w, previous) then (s, NoProgress) else Seal(s, previous, Ccs, maxOut, luck)
    else
      var m := Whole(msg, s.offset);
      if m.None? then (s, SealError) else SealPart(s, previous, m.value, maxOut, luck)
  }

  /** Exactly the messages that are one whole fragment reaching past the cursor can be sent, and as that fragment. */
  lemma {:induction false} WholeExactly(msg: OutMessage, offset: nat, f: Fragment)
    ensures Whole(msg, offset) == Some(f)
       <==> f.Fits() && msg.data == f.Bytes() && f.hdr.fragOff == 0 && f.hdr.msgLen == |f.body| && offset <= |f.body|
  {
    hide ParseFragment, Fragment.Bytes;
    ParseExactly(msg.data, f, []);
    assert f.Bytes() + [] == f.Bytes();
    if Whole(msg, offset) == Some(f) { ParsedSpells(msg.data); }
  }

  /** A record goes out under the epoch its message was queued in, and not at all once that epoch's keys are gone. */
  lemma {:induction false} SealedUnderItsEpoch(s: Sender, maxOut: nat, luck: Luck)
    requires s.Valid() && s.written < |s.flight|
    ensures var r, msg, epoch := SealMessage(s, maxOut, luck), s.flight[s.written], s.log.state.epoch;
            && (msg.epoch != epoch && msg.epoch + 1 != epoch ==> r == (s, SealError))
            && (r.1.Progress? ==> |r.1.sealed.record| >= 13 && U16(r.1.sealed.record[3], r.1.sealed.record[4]) == msg.epoch)
  {
    hide SealRecord, Context.Valid, U16, ParseFragment;
    var msg, w := s.flight[s.written], s.log.state;
    var previous := UsesPrevious(w, msg);
    if (previous || msg.epoch == w.epoch) && SealMessage(s, maxOut, luck).1.Progress? {
      var piece := SealMessage(s, maxOut, luck).1.sealed.piece;
      SealedHeader(w, previous, piece.Typ(), piece.Text(), maxOut, luck);
    }
  }

  lemma {:induction false} ParseLength(data: seq<byte>)
    requires ParseFragment(data).Some?
    ensures |data| == DTLS1_HM_HEADER_LENGTH + |ParseFragment(data).value.0.body| + |ParseFragment(data).value.1|
  {
  }

  function Bytes(packet: seq<Sealed>): seq<byte> {
    if packet == [] then [] else packet[0].record + Bytes(packet[1..])
  }

  /** The loop of `seal_next_packet`: the records packed, and whether no error stopped it. */
  function PackLoop(s: Sender, maxOut: nat, lucks: nat -> Luck): (r: (Sender, seq<Sealed>, bool))
    requires s.Valid()
    ensures r.0.Valid() && r.0.flight == s.flight
    ensures |Bytes(r.1)| <= maxOut
    ensures if r.1 == [] then r.0.written == s.written && r.0.offset == s.offset else Past(r.0, s)
    decreases |s.flight| - s.written
  {
    if s.written == |s.flight| then (s, [], true)
    else
      var r := SealMessage(s, maxOut, lucks(s.written));
      match r.1
      case SealError => (r.0, [], false)
      case NoProgress => (r.0, [], true)
      case Progress(sealed, partial) =>
        if partial then (r.0, [sealed], true)
        else
          var rest := PackLoop(r.0.(written := s.written + 1), maxOut - |sealed.record|, lucks);
          assert ([sealed] + rest.1)[1..] == rest.1;
          (rest.0, [sealed] + rest.1, rest.2)
  }

  /** Where the flight stands after a sealed message or part of one. */
  function Stepped(s: Sender, r: (Sender, SealResult)): Sender {
    if r.1.Progress? && !r.1.partial then r.0.(written := s.written + 1) else r.0
  }

  lemma {:induction false} PackLoopStep(s: Sender, maxOut: nat, lucks: nat -> Luck)
    requires s.Valid()
    ensures s.written == |s.flight| ==> PackLoop(s, maxOut, lucks) == (s, [], true)
    ensures s.written < |s.flight| ==> Stepped(s, SealMessage(s, maxOut, lucks(s.written))).Valid()
    ensures s.written < |s.flight| ==>
      var r := SealMessage(s, maxOut, lucks(s.written));
      var all := PackLoop(s, maxOut, lucks);
      && (!r.1.Progress? ==> all == (r.0, [], r.1.NoProgress?))
      && (r.1.Progress? && r.1.partial ==> all == (r.0, [r.1.sealed], true))
      && (r.1.Progress? && !r.1.partial ==>
            var rest := PackLoop(Stepped(s, r), maxOut - |r.1.sealed.record|, lucks);
            all == (rest.0, [r.1.sealed] + rest.1, rest.2))
  {
    hide SealMessage, Context.Valid, Bytes;
  }

  /** `seal_next_packet`. */
  function SealPacket(s: Sender, mtu: nat, lucks: nat -> Luck): (r: (Sender, Option<seq<Sealed>>))
    requires s.Valid()
    ensures r.0.Valid() && r.0.flight == s.flight
    ensures r.1.Some? ==> Past(r.0, s) && |Bytes(r.1.value)| <= mtu
  {
    var r := PackLoop(s, mtu, lucks);
    if !r.2 || r.1 == [] then (r.0, None) else (r.0, Some(r.1))
  }

  /** One turn of `send_flight`: the sealer's luck and the result of `BIO_write`. */
  datatype Turn = Turn(lucks: nat -> Luck, bio: int)

  /** `send_flight`, from turn `k` on: the packets written, and whether all of the flight has been. */
  function SendFlight(s: Sender, mtu: nat, turns: nat -> Turn, k: nat): (r: (Sender, seq<seq<Sealed>>, bool))
    requires s.Valid()
    ensures r.0.Valid() && r.0.flight == s.flight && (r.2 ==> r.0.written == |r.0.flight|)
    decreases |s.flight| - s.written, s.Behind()
  {
    if s.written == |s.flight| then (s, [], true)
    else
      var p := SealPacket(s, mtu, turns(k).lucks);
      if p.1.None? then (p.0, [], false)
      else if turns(k).bio <= 0 then (p.0.(written := s.written, offset := s.offset), [], false)
      else
        var rest := SendFlight(p.0, mtu, turns, k + 1);
        (rest.0, [p.1.value] + rest.1, rest.2)
  }

  lemma {:induction false} SendFlightStep(s: Sender, mtu: nat, turns: nat -> Turn, k: nat)
    requires s.Valid()
    ensures s.written == |s.flight| ==> SendFlight(s, mtu, turns, k) == (s, [], true)
    ensures s.written < |s.flight| ==>
      var p := SealPacket(s, mtu, turns(k).lucks);
      var all := SendFlight(s, mtu, turns, k);
      && (p.1.None? ==> all == (p.0, [], false))
      && (p.1.Some? && turns(k).bio <= 0 ==> all == (p.0.(written := s.written, offset := s.offset), [], false))
      && (p.1.Some? && turns(k).bio > 0 ==>
            var rest := SendFlight(p.0, mtu, turns, k + 1);
            all == (rest.0, [p.1.value] + rest.1, rest.2))
  {
    hide SealPacket, Context.Valid;
  }

  // ---- Packets fit the MTU -------------------------------------------------------------------

  lemma {:induction false} PacketsFitMtu(s: Sender, mtu: nat, turns: nat -> Turn, k: nat)
    requires s.Valid()
    ensures forall i :: 0 <= i < |SendFlight(s, mtu, turns, k).1| ==> |Bytes(SendFlight(s, mtu, turns, k).1[i])| <= mtu
    decreases |s.flight| - s.written, s.Behind()
  {
    hide SealPacket, Context.Valid, Bytes;
    if s.written < |s.flight| {
      var p := SealPacket(s, mtu, turns(k).lucks);
      if p.1.Some? && turns(k).bio > 0 { PacketsFitMtu(p.0, mtu, turns, k + 1); }
    }
  }

  // ---- Fragments tile the messages -----------------------------------------------------------

  /** A position in the flight: the message, and the offset into its body. */
  datatype Cursor = Cursor(index: nat, offset: nat)

  function At(s: Sender): Cursor { Cursor(s.written, s.offset) }

  /** Whether a piece is the next thing of the flight at a cursor, and where it leads. */
  function After(flight: seq<OutMessage>, at: Cursor, sealed: Sealed): Option<Cursor> {
    if sealed.index != at.index || at.index >= |flight| then None
    else if flight[at.index].isCcs then
      if sealed.piece.Ccs? && at.offset == 0 then Some(Cursor(at.index + 1, 0)) else None
    else
      var m := Whole(flight[at.index], at.offset);
      if m.None? || sealed.piece.Ccs? then None
      else
        var f, next := sealed.piece.frag, at.offset + |sealed.piece.frag.body|;
        if next > |m.value.body|
           || f != Fragment(m.value.hdr.(fragOff := at.offset, fragLen := |f.body|), m.value.body[at.offset..next]) then None
        else if next == |m.value.body| then Some(Cursor(at.index + 1, 0))
        else if f.body == [] then None
        else Some(Cursor(at.index, next))
  }

  /** Where a list of pieces leads when each begins where the one before it ended. */
  function TileEnd(flight: seq<OutMessage>, at: Cursor, pieces: seq<Sealed>): Option<Cursor>
    decreases |pieces|
  {
    if pieces == [] then Some(at)
    else
      var next := After(flight, at, pieces[0]);
      if next.None? then None else TileEnd(flight, next.value, pieces[1..])
  }

  lemma {:induction false} TileEndAppend(flight: seq<OutMessage>, at: Cursor, a: seq<Sealed>, b: seq<Sealed>)
    ensures TileEnd(flight, at, a + b)
         == if TileEnd(flight, at, a).None? then None else TileEnd(flight, TileEnd(flight, at, a).value, b)
    decreases |a|
  {
    if a == [] {
      assert a + b == b;
    } else {
      assert (a + b)[1..] == a[1..] + b;
      var next := After(flight, at, a[0]);
      if next.Some? { TileEndAppend(flight, next.value, a[1..], b); }
    }
  }

  lemma {:induction false} SealMessageTiles(s: Sender, maxOut: nat, luck: Luck)
    requires s.Valid() && s.written < |s.flight| && SealMessage(s, maxOut, luck).1.Progress?
    ensures var r := SealMessage(s, maxOut, luck);
            After(s.flight, At(s), r.1.sealed)
            == Some(if r.1.partial then At(r.0) else Cursor(s.written + 1, 0))
  {
    hide Seal, ParseFragment, Context.Valid;
    var msg, w := s.flight[s.written], s.log.state;
    var previous := UsesPrevious(w, msg);
    SealSeals(s, previous, Ccs, maxOut, luck);
    if !msg.isCcs {
      var m := Whole(msg, s.offset).value;
      var frag := NextFragment(m, s.offset, maxOut - DTLS1_HM_HEADER_LENGTH - Overhead(w, previous));
      SealSeals(s, previous, Part(frag), maxOut, luck);
    }
  }

  lemma {:induction false} SealSeals(s: Sender, previous: bool, piece: Piece, maxOut: nat, luck: Luck)
    requires s.Valid() && s.written < |s.flight| && (previous ==> s.log.state.epoch >= 1)
    ensures var r := Seal(s, previous, piece, maxOut, luck);
            r.1.Progress? ==> r.1.sealed == Sealed(s.written, piece, r.1.sealed.record)
  {
  }

  lemma {:induction false} PackLoopTiles(s: Sender, maxOut: nat, lucks: nat -> Luck)
    requires s.Valid()
    ensures TileEnd(s.flight, At(s), PackLoop(s, maxOut, lucks).1) == Some(At(PackLoop(s, maxOut, lucks).0))
    decreases |s.flight| - s.written
  {
    hide SealMessage, After, Context.Valid, Bytes;
    if s.written < |s.flight| {
      var r := SealMessage(s, maxOut, lucks(s.written));
      if r.1.Progress? {
        SealMessageTiles(s, maxOut, lucks(s.written));
        if r.1.partial {
          assert [r.1.sealed][1..] == [];
        } else {
          var s' := r.0.(written := s.written + 1);
          PackLoopTiles(s', maxOut - |r.1.sealed.record|, lucks);
          var rest := PackLoop(s', maxOut - |r.1.sealed.record|, lucks);
          assert ([r.1.sealed] + rest.1)[1..] == rest.1;
        }
      }
    }
  }

  function Flatten(packets: seq<seq<Sealed>>): seq<Sealed> {
    if packets == [] then [] else packets[0] + Flatten(packets[1..])
  }

  /** A record failed to seal after others were put into the same packet, which is then never written. */
  predicate DropsPacket(s: Sender, mtu: nat, turns: nat -> Turn, k: nat)
    requires s.Valid()
    decreases |s.flight| - s.written, s.Behind()
  {
    s.written < |s.flight| &&
    var p := SealPacket(s, mtu, turns(k).lucks);
    if p.1.None? then PackLoop(s, mtu, turns(k).lucks).1 != []
    else turns(k).bio > 0 && DropsPacket(p.0, mtu, turns, k + 1)
  }

  /**
   * What one call writes always continues where the flight stood, and stops where the cursor is left unless a
   * partly built packet was dropped.
   */
  lemma {:induction false} FlightTiles(s: Sender, mtu: nat, turns: nat -> Turn, k: nat)
    requires s.Valid()
    ensures var r := SendFlight(s, mtu, turns, k);
            TileEnd(s.flight, At(s), Flatten(r.1)) == Some(At(r.0)) <==> !DropsPacket(s, mtu, turns, k)
    ensures TileEnd(s.flight, At(s), Flatten(SendFlight(s, mtu, turns, k).1)).Some?
    decreases |s.flight| - s.written, s.Behind()
  {
    hide PackLoop, After;
    if s.written < |s.flight| {
      var p := SealPacket(s, mtu, turns(k).lucks);
      PackLoopTiles(s, mtu, turns(k).lucks);
      if p.1.Some? && turns(k).bio > 0 {
        FlightTiles(p.0, mtu, turns, k + 1);
        var rest := SendFlight(p.0, mtu, turns, k + 1);
        assert ([p.1.value] + rest.1)[1..] == rest.1;
        TileEndAppend(s.flight, At(s), p.1.value, Flatten(rest.1));
      }
    }
  }

  // ---- When a packet is lost -----------------------------------------------------------------

  /**
   * What the next record of a flight will be, from sizes, epochs and counters alone: none that can ever be sealed,
   * none in this packet, or one of a known size that moves the cursor, in the clear or not.
   */
  datatype Next = Blocked | Full | Takes(size: nat, to: Cursor, partial: bool, clear: bool)

  /** A tag is never longer than the cipher's overhead. */
  lemma {:induction false} SuffixFits(c: Context, n: nat)
    requires c.Valid()
    ensures c.ExplicitNonceLen() + c.SuffixLen(n) <= c.MaxOverhead()
  {
    if !c.kind.Null? { var t := c.evp.seal([], [], seq(n, _ => 0)); }
  }

  /** A record for `n` bytes of text. */
  function RecordFor(w: WriteState, previous: bool, n: nat, to: Cursor, partial: bool): (r: Next)
    requires w.Valid()
    ensures !r.Full? && (r.Takes? ==> 0 < r.size <= n + Overhead(w, previous) && r.to == to && r.partial == partial)
    ensures r.Takes? ==> r.clear == w.Context(previous).kind.Null?
  {
    SuffixFits(w.Context(previous), n);
    var body := w.Context(previous).ExplicitNonceLen() + n + w.Context(previous).SuffixLen(n);
    if w.SeqNum(previous) + 1 == TWO48 || body >= TWO16 then Blocked
    else Takes(DTLS1_RT_HEADER_LENGTH + body, to, partial, w.Context(previous).kind.Null?)
  }

  function NextRecord(flight: seq<OutMessage>, at: Cursor, w: WriteState, maxOut: nat): (r: Next)
    requires w.Valid() && at.index < |flight|
    ensures r.Takes? ==> 0 < r.size <= maxOut
    ensures r.Takes? && !r.partial ==> r.to == Cursor(at.index + 1, 0)
    ensures r.Takes? && r.partial ==> r.to.index == at.index && at.offset < r.to.offset < |flight[at.index].data|
  {
    hide Context.Valid, RecordFor, Overhead;
    var msg := flight[at.index];
    var previous := UsesPrevious(w, msg);
    var overhead := Overhead(w, previous);
    if !previous && msg.epoch != w.epoch then Blocked
    else if msg.isCcs then
      if maxOut < 1 + overhead then Full else RecordFor(w, previous, 1, Cursor(at.index + 1, 0), false)
    else
      var m := Whole(msg, at.offset);
      if m.None? then Blocked
      else if maxOut < DTLS1_HM_HEADER_LENGTH + 1 + overhead then Full
      else
        var room, left := maxOut - DTLS1_HM_HEADER_LENGTH - overhead, |m.value.body| - at.offset;
        if left <= room then RecordFor(w, previous, DTLS1_HM_HEADER_LENGTH + left, Cursor(at.index + 1, 0), false)
        else RecordFor(w, previous, DTLS1_HM_HEADER_LENGTH + room, Cursor(at.index, at.offset + room), true)
  }

  /**
   * A packet before it is built: where it starts, which of the records it has room for are in the clear, whether one
   * that cannot be sealed follows, and where it would leave the cursor and the counters. Its records are for
   * consecutive messages.
   */
  datatype Packet = Packet(from: Cursor, clear: seq<bool>, blocked: bool, to: Cursor, state: WriteState)

  function PlanPacket(flight: seq<OutMessage>, at: Cursor, w: WriteState, maxOut: nat): (p: Packet)
    requires w.Valid()
    ensures p.from == at && p.state.Valid()
    ensures p.clear != [] ==> at.index < |flight| && at.index <= p.to.index
    ensures p.clear != [] && p.to.index == at.index ==> at.offset < p.to.offset < |flight[at.index].data|
    decreases |flight| - at.index
  {
    hide NextRecord, Context.Valid;
    if at.index >= |flight| then Packet(at, [], false, at, w)
    else match NextRecord(flight, at, w, maxOut)
      case Blocked => Packet(at, [], true, at, w)
      case Full => Packet(at, [], false, at, w)
      case Takes(size, to, partial, clear) =>
        var w' := w.Counted(UsesPrevious(w, flight[at.index]));
        if partial then Packet(at, [clear], false, to, w')
        else
          var rest := PlanPacket(flight, to, w', maxOut - size);
          Packet(at, [clear] + rest.clear, rest.blocked, rest.to, rest.state)
  }

  /** The packets of a whole flight, up to one that cannot be finished. */
  function PlanFlight(flight: seq<OutMessage>, at: Cursor, w: WriteState, mtu: nat): seq<Packet>
    requires w.Valid()
    decreases |flight| - at.index, if at.index < |flight| then |flight[at.index].data| - at.offset else 0
  {
    hide PlanPacket;
    if at.index >= |flight| then []
    else
      var p := PlanPacket(flight, at, w, mtu);
      [p] + if p.clear == [] || p.blocked then [] else PlanFlight(flight, p.to, p.state, mtu)
  }

  /** The cipher seals every record that is not in the clear, for messages from `first` on. */
  predicate CipherWorks(clear: seq<bool>, lucks: nat -> Luck, first: nat) {
    forall i :: 0 <= i < |clear| ==> clear[i] || lucks(first + i).cipherOk
  }

  /** The cipher seals every record of the packet, and nothing stands in its way. */
  predicate Builds(p: Packet, lucks: nat -> Luck) {
    p.clear != [] && !p.blocked && CipherWorks(p.clear, lucks, p.from.index)
  }

  /** The first record of the packet can be sealed, a later one cannot. */
  predicate Breaks(p: Packet, lucks: nat -> Luck) {
    && p.clear != [] && (p.clear[0] || lucks(p.from.index).cipherOk)
    && (p.blocked || !CipherWorks(p.clear[1..], lucks, p.from.index + 1))
  }

  /** Some packet breaks after all packets before it were built and written. */
  predicate LosesPacket(plan: seq<Packet>, turns: nat -> Turn, k: nat) {
    plan != [] &&
    (Breaks(plan[0], turns(k).lucks)
     || (Builds(plan[0], turns(k).lucks) && turns(k).bio > 0 && LosesPacket(plan[1..], turns, k + 1)))
  }

  lemma {:induction false} SealPartPlanned(s: Sender, m: Fragment, maxOut: nat, luck: Luck)
    requires s.Valid() && s.written < |s.flight| && !s.flight[s.written].isCcs
    requires LiveEpoch(s.log.state, s.flight[s.written]) && Whole(s.flight[s.written], s.offset) == Some(m)
    ensures var r, w := SealPart(s, UsesPrevious(s.log.state, s.flight[s.written]), m, maxOut, luck), s.log.state;
            match NextRecord(s.flight, At(s), w, maxOut)
            case Blocked => r.1.SealError?
            case Full => r == (s, NoProgress)
            case Takes(size, to, partial, clear) =>
              if !clear && !luck.cipherOk then r.1.SealError?
              else r.1.Progress? && |r.1.sealed.record| == size && r.1.partial == partial && At(Stepped(s, r)) == to
                   && Stepped(s, r).log.state == w.Counted(UsesPrevious(w, s.flight[s.written]))
  {
    hide Seal, Context.Valid, Whole, Overhead, Header.Bytes, RecordFor, WriteState.Counted;
    var w := s.log.state;
    var previous := UsesPrevious(w, s.flight[s.written]);
    OverheadCoversPrefix(w, previous);
    if maxOut >= DTLS1_HM_HEADER_LENGTH + 1 + Overhead(w, previous) {
      var frag := NextFragment(m, s.offset, maxOut - DTLS1_HM_HEADER_LENGTH - Overhead(w, previous));
      var next := s.offset + |frag.body|;
      var partial := next < |m.body|;
      SealPlanned(s, previous, Part(frag), if partial then Cursor(s.written, next) else Cursor(s.written + 1, 0), partial, maxOut, luck);
    }
  }

  /** A message is sealed as planned, unless the cipher fails. */
  lemma {:induction false} SealMessagePlanned(s: Sender, maxOut: nat, luck: Luck)
    requires s.Valid() && s.written < |s.flight|
    ensures var r, w := SealMessage(s, maxOut, luck), s.log.state;
            match NextRecord(s.flight, At(s), w, maxOut)
            case Blocked => r.1.SealError?
            case Full => r == (s, NoProgress)
            case Takes(size, to, partial, clear) =>
              if !clear && !luck.cipherOk then r.1.SealError?
              else r.1.Progress? && |r.1.sealed.record| == size && r.1.partial == partial && At(Stepped(s, r)) == to
                   && Stepped(s, r).log.state == w.Counted(UsesPrevious(w, s.flight[s.written]))
  {
    hide Seal, SealPart, Context.Valid, Whole, Overhead;
    var msg, w := s.flight[s.written], s.log.state;
    var previous := UsesPrevious(w, msg);
    if LiveEpoch(w, msg) {
      if !msg.isCcs {
        var m := Whole(msg, s.offset);
        if m.Some? { SealPartPlanned(s, m.value, maxOut, luck); }
      } else if maxOut >= 1 + Overhead(w, previous) {
        SealPlanned(s, previous, Ccs, Cursor(s.written + 1, 0), false, maxOut, luck);
      }
    }
  }

  lemma {:induction false} SealPlanned(s: Sender, previous: bool, piece: Piece, to: Cursor, partial: bool, maxOut: nat, luck: Luck)
    requires s.Valid() && s.written < |s.flight| && (previous ==> s.log.state.epoch >= 1)
    requires |piece.Text()| + Overhead(s.log.state, previous) <= maxOut
    ensures var r, w := Seal(s, previous, piece, maxOut, luck), s.log.state;
            match RecordFor(w, previous, |piece.Text()|, to, partial)
            case Takes(size, _, _, clear) =>
              if !clear && !luck.cipherOk then r.1.SealError?
              else r.1.Progress? && |r.1.sealed.record| == size && r.0.log.state == w.Counted(previous)
            case _ => r.1.SealError?
  {
    hide SealRecord;
    SealRecordFails(s.log.state, previous, piece.Typ(), piece.Text(), maxOut, luck);
  }

  lemma {:induction false} PlanPacketStep(flight: seq<OutMessage>, at: Cursor, w: WriteState, maxOut: nat)
    requires w.Valid()
    ensures at.index >= |flight| ==> PlanPacket(flight, at, w, maxOut) == Packet(at, [], false, at, w)
    ensures at.index < |flight| ==>
            var p, next := PlanPacket(flight, at, w, maxOut), NextRecord(flight, at, w, maxOut);
            && (!next.Takes? ==> p == Packet(at, [], next.Blocked?, at, w))
            && (next.Takes? ==>
                  var w' := w.Counted(UsesPrevious(w, flight[at.index]));
                  if next.partial then p == Packet(at, [next.clear], false, next.to, w')
                  else
                    var rest := PlanPacket(flight, next.to, w', maxOut - next.size);
                    p == Packet(at, [next.clear] + rest.clear, rest.blocked, rest.to, rest.state))
  {
    hide NextRecord, Context.Valid;
  }

  lemma {:induction false} CipherWorksStep(clear: seq<bool>, lucks: nat -> Luck, first: nat)
    ensures CipherWorks([], lucks, first)
    ensures clear != [] ==>
      (CipherWorks(clear, lucks, first) <==> (clear[0] || lucks(first).cipherOk) && CipherWorks(clear[1..], lucks, first + 1))
  {
    if clear != [] {
      if CipherWorks(clear, lucks, first) {
        forall i | 0 <= i < |clear| - 1 ensures clear[1..][i] || lucks(first + 1 + i).cipherOk {
          assert clear[i + 1] || lucks(first + (i + 1)).cipherOk;
        }
      }
      if (clear[0] || lucks(first).cipherOk) && CipherWorks(clear[1..], lucks, first + 1) {
        forall i | 0 <= i < |clear| ensures clear[i] || lucks(first + i).cipherOk {
          if i > 0 { assert clear[1..][i - 1] || lucks(first + 1 + (i - 1)).cipherOk; }
        }
      }
    }
  }

  /**
   * The packing loop follows the plan: it ends without error if and only if the packet is not blocked and the cipher
   * seals every record, and then holds the planned records; otherwise it has packed something if and only if the
   * first record could be sealed.
   */
  lemma {:induction false} PackLoopPlanned(s: Sender, maxOut: nat, lucks: nat -> Luck)
    requires s.Valid()
    ensures var r, p := PackLoop(s, maxOut, lucks), PlanPacket(s.flight, At(s), s.log.state, maxOut);
            && (r.2 <==> !p.blocked && CipherWorks(p.clear, lucks, s.written))
            && (r.2 ==> |r.1| == |p.clear| && At(r.0) == p.to && r.0.log.state == p.state)
            && (r.1 != [] <==> p.clear != [] && (p.clear[0] || lucks(s.written).cipherOk))
    decreases |s.flight| - s.written
  {
    hide SealMessage, PackLoop, NextRecord, Context.Valid, Bytes, CipherWorks, PlanPacket, UsesPrevious;
    PackLoopStep(s, maxOut, lucks);
    PlanPacketStep(s.flight, At(s), s.log.state, maxOut);
    var p := PlanPacket(s.flight, At(s), s.log.state, maxOut);
    CipherWorksStep(p.clear, lucks, s.written);
    if s.written < |s.flight| {
      SealMessagePlanned(s, maxOut, lucks(s.written));
      var r := SealMessage(s, maxOut, lucks(s.written));
      if r.1.Progress? && !r.1.partial {
        PackLoopPlanned(Stepped(s, r), maxOut - |r.1.sealed.record|, lucks);
        var rest := PlanPacket(s.flight, At(Stepped(s, r)), Stepped(s, r).log.state, maxOut - |r.1.sealed.record|);
        assert p.clear[1..] == rest.clear;
      } else {
        CipherWorksStep([], lucks, s.written + 1);
        if |p.clear| == 1 { assert p.clear[1..] == []; }
      }
    }
  }

  lemma {:induction false} DropsAsPlanned(s: Sender, mtu: nat, turns: nat -> Turn, k: nat)
    requires s.Valid()
    ensures DropsPacket(s, mtu, turns, k) <==> LosesPacket(PlanFlight(s.flight, At(s), s.log.state, mtu), turns, k)
    decreases |s.flight| - s.written, s.Behind()
  {
    hide PackLoop, PlanPacket, CipherWorks, Context.Valid, Bytes;
    if s.written < |s.flight| {
      PackLoopPlanned(s, mtu, turns(k).lucks);
      var packet, p := PlanPacket(s.flight, At(s), s.log.state, mtu), SealPacket(s, mtu, turns(k).lucks);
      var plan := PlanFlight(s.flight, At(s), s.log.state, mtu);
      assert plan[1..] == if packet.clear == [] || packet.blocked then [] else PlanFlight(s.flight, packet.to, packet.state, mtu);
      CipherWorksStep(packet.clear, turns(k).lucks, s.written);
      if p.1.Some? { DropsAsPlanned(p.0, mtu, turns, k + 1); }
    }
  }

  /**
   * What one call writes continues exactly where the flight stood and stops exactly where the cursor is left,
   * whichever writes fail, if and only if no packet of the plan breaks: the plan is made from the sizes, epochs and
   * counters before the call, and a packet of it breaks when its first record can be sealed and a later one cannot.
   */
  lemma {:induction false} FlightTilesExactly(s: Sender, mtu: nat, turns: nat -> Turn, k: nat)
    requires s.Valid()
    ensures var r := SendFlight(s, mtu, turns, k);
            TileEnd(s.flight, At(s), Flatten(r.1)) == Some(At(r.0))
            <==> !LosesPacket(PlanFlight(s.flight, At(s), s.log.state, mtu), turns, k)
  {
    FlightTiles(s, mtu, turns, k);
    DropsAsPlanned(s, mtu, turns, k);
  }

  /** A call of `send_flight`. */
  datatype Call = Call(mtu: nat, turns: nat -> Turn)

  /** Calls that resume the flight one after the other: the state and every packet written. */
  function Resume(s: Sender, calls: seq<Call>): (r: (Sender, seq<Sealed>))
    requires s.Valid()
    ensures r.0.Valid() && r.0.flight == s.flight
    decreases |calls|
  {
    if calls == [] then (s, [])
    else
      var one := SendFlight(s, calls[0].mtu, calls[0].turns, 0);
      var rest := Resume(one.0, calls[1..]);
      (rest.0, Flatten(one.1) + rest.1)
  }

  ghost predicate NeverDrops(s: Sender, calls: seq<Call>)
    requires s.Valid()
    decreases |calls|
  {
    calls == [] ||
    (!DropsPacket(s, calls[0].mtu, calls[0].turns, 0)
     && NeverDrops(SendFlight(s, calls[0].mtu, calls[0].turns, 0).0, calls[1..]))
  }

  /** The bytes of message `i` that a list of pieces carries, in order. */
  function Carried(pieces: seq<Sealed>, i: nat): seq<byte> {
    if pieces == [] then []
    else (if pieces[0].index == i && pieces[0].piece.Part? then pieces[0].piece.frag.body else []) + Carried(pieces[1..], i)
  }

  /** The part of the body of message `i` between two cursors. */
  function Between(body: seq<byte>, i: nat, from: Cursor, to: Cursor): seq<byte> {
    var lo := if i < from.index then |body| else if i == from.index then from.offset else 0;
    var hi := if i < to.index then |body| else if i == to.index then to.offset else 0;
    if lo <= hi <= |body| then body[lo..hi] else []
  }

  predicate NoLater(a: Cursor, b: Cursor) {
    a.index < b.index || (a.index == b.index && a.offset <= b.offset)
  }

  lemma {:induction false} WholeAnywhere(msg: OutMessage, offset: nat)
    requires Whole(msg, offset).Some?
    ensures Whole(msg, 0) == Whole(msg, offset)
  {
    hide ParseFragment;
  }

  /** The cursor lies within message `i`, if it is in it at all. */
  predicate Inside(body: seq<byte>, i: nat, at: Cursor) {
    at.index == i ==> at.offset <= |body|
  }

  lemma {:induction false} BetweenCompose(body: seq<byte>, i: nat, a: Cursor, b: Cursor, c: Cursor)
    requires NoLater(a, b) && NoLater(b, c) && Inside(body, i, a) && Inside(body, i, b) && Inside(body, i, c)
    ensures Between(body, i, a, b) + Between(body, i, b, c) == Between(body, i, a, c)
  {
  }

  lemma {:induction false} PieceCovers(flight: seq<OutMessage>, from: Cursor, sealed: Sealed, i: nat)
    requires i < |flight| && !flight[i].isCcs && Whole(flight[i], 0).Some?
    requires After(flight, from, sealed).Some?
    ensures var next := After(flight, from, sealed).value;
            var body := Whole(flight[i], 0).value.body;
            && NoLater(from, next) && Inside(body, i, from) && Inside(body, i, next)
            && (if sealed.index == i && sealed.piece.Part? then sealed.piece.frag.body else []) == Between(body, i, from, next)
  {
    hide Whole;
    if from.index == i { WholeAnywhere(flight[i], from.offset); }
  }

  lemma {:induction false} TilesCover(flight: seq<OutMessage>, from: Cursor, pieces: seq<Sealed>, to: Cursor, i: nat)
    requires i < |flight| && !flight[i].isCcs && Whole(flight[i], 0).Some?
    requires TileEnd(flight, from, pieces) == Some(to) && Inside(Whole(flight[i], 0).value.body, i, from)
    ensures NoLater(from, to) && Inside(Whole(flight[i], 0).value.body, i, to)
    ensures Carried(pieces, i) == Between(Whole(flight[i], 0).value.body, i, from, to)
    decreases |pieces|
  {
    hide Whole, After, Between;
    var body := Whole(flight[i], 0).value.body;
    if pieces == [] {
      BetweenNothing(body, i, from);
    } else {
      var next := After(flight, from, pieces[0]).value;
      PieceCovers(flight, from, pieces[0], i);
      TilesCover(flight, next, pieces[1..], to, i);
      BetweenCompose(body, i, from, next, to);
    }
  }

  lemma {:induction false} BetweenNothing(body: seq<byte>, i: nat, at: Cursor)
    requires Inside(body, i, at)
    ensures Between(body, i, at, at) == []
  {
  }

  lemma {:induction false} ResumeTiles(s: Sender, calls: seq<Call>)
    requires s.Valid() && NeverDrops(s, calls)
    ensures TileEnd(s.flight, At(s), Resume(s, calls).1) == Some(At(Resume(s, calls).0))
    decreases |calls|
  {
    if calls != [] {
      var one := SendFlight(s, calls[0].mtu, calls[0].turns, 0);
      FlightTiles(s, calls[0].mtu, calls[0].turns, 0);
      ResumeTiles(one.0, calls[1..]);
      TileEndAppend(s.flight, At(s), Flatten(one.1), Resume(one.0, calls[1..]).1);
    }
  }

  // ---- A flight does get sent ----------------------------------------------------------------

  /** Given room for the overhead, a record fails to seal only for the reasons the code cannot avoid. */
  lemma {:induction false} SealRecordFails(w: WriteState, previous: bool, typ: byte, text: seq<byte>, maxOut: nat, luck: Luck)
    requires w.Valid() && (previous ==> w.epoch >= 1) && |text| + Overhead(w, previous) <= maxOut
    ensures var c := w.Context(previous);
            SealRecord(w, previous, typ, text, maxOut, luck).1.None? <==>
              || !CipherSeals(c, luck) || w.SeqNum(previous) + 1 == TWO48
              || c.ExplicitNonceLen() + |text| + c.SuffixLen(|text|) >= TWO16
  {
    hide RecordBytes, SeqBytes, Supplied, RecordVersion, Context.Nonce, Context.AdditionalData;
    var c := w.Context(previous);
    assert c.SuffixLen(|text|) <= if c.kind.Null? then 0 else c.evp.maxOverhead by {
      var t := c.evp.seal([], [], text);
    }
  }

  predicate LiveEpoch(w: WriteState, msg: OutMessage) {
    msg.epoch == w.epoch || UsesPrevious(w, msg)
  }

  /** What is left of the flight can be sealed: its epochs are live and its messages are whole. */
  predicate Sendable(s: Sender, i: nat)
    requires i <= |s.flight|
    decreases |s.flight| - i
  {
    i == |s.flight| ||
    (LiveEpoch(s.log.state, s.flight[i])
     && (s.flight[i].isCcs || Whole(s.flight[i], if i == s.written then s.offset else 0).Some?)
     && Sendable(s, i + 1))
  }

  /** A bound on the number of records the rest of the flight can take. */
  function Work(flight: seq<OutMessage>, i: nat): nat
    requires i <= |flight|
    decreases |flight| - i
  {
    if i == |flight| then 0 else |flight[i].data| + 1 + Work(flight, i + 1)
  }

  /** The flight is sendable and takes no counter up to `limit`. */
  ghost predicate Healthy(s: Sender, limit: int) {
    && s.Valid() && Sendable(s, s.written) && limit <= TWO48
    && s.log.state.seqNum + Work(s.flight, s.written) < limit + s.offset
    && s.log.state.lastSeqNum + Work(s.flight, s.written) < limit + s.offset
  }

  /** Room for one record with at least one byte of body, and for no record too long for its length field. */
  ghost predicate RoomyMtu(w: WriteState, mtu: nat)
    requires w.Valid()
  {
    Overhead(w, false) + DTLS1_HM_HEADER_LENGTH + 1 <= mtu < TWO16
    && Overhead(w, true) + DTLS1_HM_HEADER_LENGTH + 1 <= mtu
  }

  lemma {:induction false} SendableFrame(s: Sender, s': Sender, i: nat)
    requires i <= |s.flight| && s'.flight == s.flight && Sendable(s, i)
    requires s'.log.state.epoch == s.log.state.epoch && i > s.written && (i > s'.written || s'.offset == 0)
    ensures Sendable(s', i)
    decreases |s.flight| - i
  {
    hide Whole;
    if i < |s.flight| { SendableFrame(s, s', i + 1); }
  }

  /** A sealed piece costs one number in one epoch and nothing else of the write state. */
  lemma {:induction false} SealCosts(s: Sender, previous: bool, piece: Piece, maxOut: nat, luck: Luck)
    requires s.Valid() && s.written < |s.flight| && (previous ==> s.log.state.epoch >= 1)
    ensures var w, w' := s.log.state, Seal(s, previous, piece, maxOut, luck).0.log.state;
            && w'.epoch == w.epoch && w'.aead == w.aead && w'.lastAead == w.lastAead
            && (Seal(s, previous, piece, maxOut, luck).1.Progress? ==>
                 w'.seqNum <= w.seqNum + 1 && w'.lastSeqNum <= w.lastSeqNum + 1)
    ensures |piece.Text()| + Overhead(s.log.state, previous) <= maxOut < TWO16 && luck.cipherOk
            && s.log.state.SeqNum(previous) + 1 < TWO48
            ==> Seal(s, previous, piece, maxOut, luck).1.Progress?
  {
    hide SealRecord;
    if |piece.Text()| + Overhead(s.log.state, previous) <= maxOut {
      SealRecordFails(s.log.state, previous, piece.Typ(), piece.Text(), maxOut, luck);
      var c := s.log.state.Context(previous);
      var t := c.evp.seal([], [], piece.Text());
    }
  }

  ghost predicate SameContexts(w: WriteState, w': WriteState) {
    w'.aead == w.aead && w'.lastAead == w.lastAead && w'.epoch == w.epoch
  }

  lemma {:induction false} SealPartSucceeds(s: Sender, maxOut: nat, luck: Luck)
    requires Healthy(s, TWO48) && s.written < |s.flight| && maxOut < TWO16 && luck.cipherOk && !s.flight[s.written].isCcs
    ensures var msg, w := s.flight[s.written], s.log.state;
            var previous := UsesPrevious(w, msg);
            var m := Whole(msg, s.offset);
            var r := SealPart(s, previous, m.value, maxOut, luck);
            && !r.1.SealError? && SameContexts(w, r.0.log.state) && (r.1.NoProgress? ==> r.0 == s)
            && (r.1.NoProgress? <==> maxOut < DTLS1_HM_HEADER_LENGTH + 1 + Overhead(w, previous))
            && (r.1.Progress? ==> r.0.log.state.seqNum <= w.seqNum + 1 && r.0.log.state.lastSeqNum <= w.lastSeqNum + 1)
            && (r.1.Progress? && r.1.partial ==> r.0.offset <= |m.value.body|)
  {
    hide Seal, Header.Bytes, Overhead, Context.Valid, Whole;
    var msg, w := s.flight[s.written], s.log.state;
    var previous := UsesPrevious(w, msg);
    var m := Whole(msg, s.offset).value;
    OverheadCoversPrefix(w, previous);
    if maxOut >= DTLS1_HM_HEADER_LENGTH + 1 + Overhead(w, previous) {
      var frag := NextFragment(m, s.offset, maxOut - DTLS1_HM_HEADER_LENGTH - Overhead(w, previous));
      SealCosts(s, previous, Part(frag), maxOut, luck);
    }
  }

  lemma {:induction false} OverheadCoversPrefix(w: WriteState, previous: bool)
    requires w.Valid()
    ensures Overhead(w, previous) >= DTLS1_RT_HEADER_LENGTH + w.Context(previous).ExplicitNonceLen()
  {
  }

  /** Sealing the next message of a healthy flight never fails, and makes progress when there is room. */
  lemma {:induction false} SealMessageSucceeds(s: Sender, maxOut: nat, luck: Luck, limit: int)
    requires Healthy(s, limit) && s.written < |s.flight| && maxOut < TWO16 && luck.cipherOk
    ensures var r := SealMessage(s, maxOut, luck);
            && !r.1.SealError? && (r.1.NoProgress? ==> r.0 == s)
            && (RoomyMtu(s.log.state, maxOut) ==> r.1.Progress?)
            && SameContexts(s.log.state, r.0.log.state) && Healthy(Stepped(s, r), limit)
  {
    hide Seal, SealPart, Header.Bytes, Context.Valid, ParseFragment;
    var msg, w := s.flight[s.written], s.log.state;
    var previous := UsesPrevious(w, msg);
    var r := SealMessage(s, maxOut, luck);
    if msg.isCcs { SealCosts(s, previous, Ccs, maxOut, luck); } else { SealPartSucceeds(s, maxOut, luck); }
    if r.1.Progress? { SendableFrame(s, Stepped(s, r), s.written + 1); }
  }

  lemma {:induction false} PackLoopSucceeds(s: Sender, maxOut: nat, lucks: nat -> Luck, limit: int)
    requires Healthy(s, limit) && maxOut < TWO16 && forall i :: lucks(i).cipherOk
    ensures var r := PackLoop(s, maxOut, lucks);
            && r.2 && Healthy(r.0, limit) && (RoomyMtu(s.log.state, maxOut) && s.written < |s.flight| ==> r.1 != [])
            && SameContexts(s.log.state, r.0.log.state)
    decreases |s.flight| - s.written
  {
    hide SealMessage, Sendable, Work, RoomyMtu, Context.Valid, Bytes, PackLoop;
    PackLoopStep(s, maxOut, lucks);
    if s.written < |s.flight| {
      SealMessageSucceeds(s, maxOut, lucks(s.written), limit);
      var r := SealMessage(s, maxOut, lucks(s.written));
      if r.1.Progress? && !r.1.partial {
        PackLoopSucceeds(Stepped(s, r), maxOut - |r.1.sealed.record|, lucks, limit);
      }
    }
  }

  /**
   * With writes that go through, a cipher that works and an MTU with room for one byte of body, the whole
   * flight is written.
   */
  lemma {:induction false} FlightIsSent(s: Sender, mtu: nat, turns: nat -> Turn, k: nat)
    requires Healthy(s, TWO48) && RoomyMtu(s.log.state, mtu)
    requires forall j :: turns(j).bio > 0 && forall i :: turns(j).lucks(i).cipherOk
    ensures SendFlight(s, mtu, turns, k).2
    decreases |s.flight| - s.written, s.Behind()
  {
    hide PackLoop, SendFlight, Context.Valid, Bytes;
    SendFlightStep(s, mtu, turns, k);
    if s.written < |s.flight| {
      PackLoopSucceeds(s, mtu, turns(k).lucks, TWO48);
      FlightIsSent(SealPacket(s, mtu, turns(k).lucks).0, mtu, turns, k + 1);
    }
  }

  // ---- Nothing is lost whichever writes fail -------------------------------------------------

  /** The cipher never fails, and a packet is too small for a record that overflows its length field. */
  ghost predicate Works(call: Call) {
    call.mtu < TWO16 && forall j, i :: call.turns(j).lucks(i).cipherOk
  }

  ghost predicate AllWork(calls: seq<Call>) {
    forall c :: 0 <= c < |calls| ==> Works(calls[c])
  }

  /** The rest of the flight is live and whole, and the counters allow the flight to be sealed `calls` times over. */
  ghost predicate Ready(s: Sender, calls: nat) {
    && s.Valid() && Sendable(s, s.written)
    && s.log.state.seqNum + calls * Work(s.flight, 0) < TWO48 && s.log.state.lastSeqNum + calls * Work(s.flight, 0) < TWO48
  }

  lemma {:induction false} WorkFalls(flight: seq<OutMessage>, i: nat)
    requires i <= |flight|
    ensures Work(flight, i) <= Work(flight, 0)
    decreases i
  {
    if i > 0 { WorkFalls(flight, i - 1); }
  }

  /** Whichever writes fail, a call drops no packet and uses up at most one sealing of the flight. */
  lemma {:induction false} NothingDropped(s: Sender, mtu: nat, turns: nat -> Turn, k: nat, limit: int)
    requires Healthy(s, limit) && Works(Call(mtu, turns))
    ensures !DropsPacket(s, mtu, turns, k)
    ensures var r := SendFlight(s, mtu, turns, k).0;
            Sendable(r, r.written) && r.log.state.seqNum < limit && r.log.state.lastSeqNum < limit
    decreases |s.flight| - s.written, s.Behind()
  {
    hide PackLoop, SendFlight, Context.Valid, Bytes;
    SendFlightStep(s, mtu, turns, k);
    assert s.written < |s.flight| ==> s.offset <= Work(s.flight, s.written);
    if s.written < |s.flight| {
      PackLoopSucceeds(s, mtu, turns(k).lucks, limit);
      var p := SealPacket(s, mtu, turns(k).lucks);
      if p.1.Some? {
        if turns(k).bio > 0 { NothingDropped(p.0, mtu, turns, k + 1, limit); }
        else { Rewound(s, p.0, s.written); }
      }
    }
  }

  lemma {:induction false} Rewound(s: Sender, r: Sender, i: nat)
    requires s.written <= i <= |s.flight| && Sendable(s, i) && r.flight == s.flight && r.log.state.epoch == s.log.state.epoch
    ensures Sendable(r.(written := s.written, offset := s.offset), i)
    decreases |s.flight| - i
  {
    hide Whole;
    if i < |s.flight| { Rewound(s, r, i + 1); }
  }

  lemma {:induction false} ReadyHealthy(s: Sender, n: nat)
    requires Ready(s, n + 1)
    ensures Healthy(s, TWO48 - n * Work(s.flight, 0))
  {
    hide Work, Sendable, Context.Valid;
    var all := Work(s.flight, 0);
    assert (n + 1) * all == n * all + all;
    WorkFalls(s.flight, s.written);
  }

  lemma {:induction false} ReadyNeverDrops(s: Sender, calls: seq<Call>)
    requires Ready(s, |calls|) && AllWork(calls)
    ensures NeverDrops(s, calls)
    decreases |calls|
  {
    hide DropsPacket, SendFlight, WriteState.Valid, Works, Sendable, Work, Healthy;
    if calls != [] {
      var n := |calls| - 1;
      ReadyHealthy(s, n);
      NothingDropped(s, calls[0].mtu, calls[0].turns, 0, TWO48 - n * Work(s.flight, 0));
      var rest := SendFlight(s, calls[0].mtu, calls[0].turns, 0).0;
      assert AllWork(calls[1..]) && Ready(rest, n);
      ReadyNeverDrops(rest, calls[1..]);
    }
  }

  /**
   * Over any number of calls with any MTUs and any failing writes, the written fragments of every message
   * carry its body up to the cursor, once and in order; once a call succeeds, all of it.
   */
  lemma {:induction false} FragmentsTile(s: Sender, calls: seq<Call>, i: nat)
    requires At(s) == Cursor(0, 0) && Ready(s, |calls|) && AllWork(calls)
    requires i < |s.flight| && !s.flight[i].isCcs && Whole(s.flight[i], 0).Some?
    ensures var r := Resume(s, calls);
            var body := Whole(s.flight[i], 0).value.body;
            Carried(r.1, i) == if r.0.written > i then body
                               else if r.0.written == i && r.0.offset <= |body| then body[..r.0.offset] else []
  {
    hide Ready, AllWork;
    assert s.Valid() && NeverDrops(s, calls) by { ReadyNeverDrops(s, calls); ReadyValid(s, |calls|); }
    ResumeTiles(s, calls);
    TilesCover(s.flight, Cursor(0, 0), Resume(s, calls).1, At(Resume(s, calls).0), i);
  }

  lemma {:induction false} ReadyValid(s: Sender, calls: nat)
    requires Ready(s, calls)
    ensures s.Valid()
  {
  }

  // ---- A packet can be dropped ---------------------------------------------------------------

  /**
   * The end of a handshake: the ChangeCipherSpec of the first epoch, in the clear, and the message of the next one,
   * whose key is already in use. `used` numbers of the first epoch have been used.
   */
  function LastFlight(m: Message, plain: Context, key: Context, used: nat): Sender {
    Sender([OutMessage([], 0, true), OutMessage(m.Raw(0), 1, false)], 0, 0, true, 1,
           Writes(WriteState(1, 0, used, key, plain), [], false))
  }

  lemma {:induction false} RawWhole(m: Message)
    requires |m.body| < 0x100_0000
    ensures ParseFragment(m.Raw(0)) == Some((m.Slice(0, 0, |m.body|), []))
    ensures Whole(OutMessage(m.Raw(0), 1, false), 0) == Some(m.Slice(0, 0, |m.body|))
  {
    hide ParseFragment;
    var f := m.Slice(0, 0, |m.body|);
    ParseRoundTrip(f, []);
    assert f.Bytes() + [] == m.Raw(0);
  }

  /** The ChangeCipherSpec, in the clear, takes 14 bytes and one number. */
  lemma {:induction false} ChangeTakes(m: Message, plain: Context, key: Context, used: nat, mtu: nat)
    requires plain.Valid() && plain.kind.Null? && key.Valid() && used + 1 < TWO48 && mtu >= 14
    ensures var s := LastFlight(m, plain, key, used);
            s.Valid() && NextRecord(s.flight, At(s), s.log.state, mtu) == Takes(14, Cursor(1, 0), false, true)
  {
  }

  /** With room for a byte of it, the message takes a record under the new key, or can never be sealed. */
  lemma {:induction false} MessageTakes(m: Message, plain: Context, key: Context, used: nat, maxOut: nat)
    requires plain.Valid() && plain.kind.Null? && key.Valid() && !key.kind.Null? && used + 1 < TWO48 && |m.body| < 0x100_0000
    requires DTLS1_RT_HEADER_LENGTH + DTLS1_HM_HEADER_LENGTH + 1 + key.MaxOverhead() <= maxOut
    ensures var s := LastFlight(m, plain, key, used);
            var next := NextRecord(s.flight, Cursor(1, 0), s.log.state.Counted(true), maxOut);
            next.Blocked? || (next.Takes? && !next.clear)
  {
    hide Whole, Message.Raw;
    RawWhole(m);
  }

  /**
   * For every key and message, when the message cannot be sealed: the ChangeCipherSpec before it in the packet is never
   * written, although the cursor has passed it.
   */
  lemma {:induction false} DropOccurs(m: Message, plain: Context, key: Context, used: nat, mtu: nat, turns: nat -> Turn)
    requires plain.Valid() && plain.kind.Null? && key.Valid() && !key.kind.Null? && used + 1 < TWO48 && |m.body| < 0x100_0000
    requires 14 + DTLS1_RT_HEADER_LENGTH + DTLS1_HM_HEADER_LENGTH + 1 + key.MaxOverhead() <= mtu
    requires !turns(0).lucks(1).cipherOk
    ensures var s := LastFlight(m, plain, key, used);
            && s.Valid() && LosesPacket(PlanFlight(s.flight, At(s), s.log.state, mtu), turns, 0)
            && SendFlight(s, mtu, turns, 0).1 == [] && At(SendFlight(s, mtu, turns, 0).0) == Cursor(1, 0)
  {
    hide SealMessage, PackLoop, SendFlight, NextRecord, Message.Raw, Context.Valid, Whole;
    var s, lucks := LastFlight(m, plain, key, used), turns(0).lucks;
    ChangeTakes(m, plain, key, used, mtu);
    SealMessagePlanned(s, mtu, lucks(0));
    PackLoopStep(s, mtu, lucks);
    var s' := Stepped(s, SealMessage(s, mtu, lucks(0)));
    MessageTakes(m, plain, key, used, mtu - 14);
    SealMessagePlanned(s', mtu - 14, lucks(1));
    PackLoopStep(s', mtu - 14, lucks);
    SendFlightStep(s, mtu, turns, 0);
    DropsAsPlanned(s, mtu, turns, 0);
  }
}

/**
 * Both ends of a DTLS handshake: a sender that builds, fragments, seals and retransmits flights across epochs,
 * a network that delivers any datagram ever written at any time and any number of times, and a receiver that
 * opens records, reassembles messages and releases them.
 */
module DtlsSystem {
  import opened Common
  import opened SslAead
  import opened DtlsFragment
  import opened DtlsRecord
  import opened DtlsReceive
  import opened DtlsSend
  import opened DtlsReliable

  /** The read buffer holds one record of the largest size. */
  const ReadBufferSize: nat := DTLS1_RT_HEADER_LENGTH + SSL3_RT_MAX_ENCRYPTED_LENGTH

  /**
   * The receiving end: record layer, ring, the two flags of the reading side, what has not been read of the last
   * datagram, whether a ChangeCipherSpec was taken and waits for the cipher change, and the read error.
   */
  datatype Reader = Reader(
    record: ReadState,
    ring: Receiver,
    sawCcs: bool,
    hasMessage: bool,
    unread: seq<byte>,
    ccsTaken: bool,
    failed: bool)
  {
    ghost predicate Shape() { record.aead.Valid() && ring.Shape() }

    /** `dtls_has_unprocessed_handshake_data`. */
    predicate Unprocessed()
      requires ring.Shape()
    {
      sawCcs || exists i :: 0 <= i < |ring.ring| && ring.ring[i].Some? && !(hasMessage && i == ring.readSeq % SSL_MAX_HANDSHAKE_FLIGHT)
    }
  }

  /** What `dtls1_open_handshake` does with an opened record, and whether it is not a fatal error. */
  function Process(r: Reader, typ: byte, text: seq<byte>, maxLen: nat, junk: nat -> byte): (res: (Reader, bool))
    requires r.ring.Shape()
    ensures res.0.ring.Shape() && res.0 == r.(ring := res.0.ring, sawCcs := res.0.sawCcs)
  {
    if typ == 23 then (r, !r.record.aead.kind.Null?)
    else if typ == SSL3_RT_CHANGE_CIPHER_SPEC then
      if !r.record.aead.kind.Null? || text != [1] then (r, false) else (r.(sawCcs := true), true)
    else if typ == SSL3_RT_HANDSHAKE then
      var a := AcceptRecord(r.ring, text, Env(r.record.epoch, maxLen, junk));
      (r.(ring := a.0), a.1.None?)
    else (r, false)
  }

  /** A new datagram is read only when nothing is left of the last one, and no more of it than the buffer holds. */
  function Load(r: Reader, datagram: seq<byte>): Reader {
    if r.failed || r.unread != [] then r
    else r.(unread := if |datagram| <= ReadBufferSize then datagram else datagram[..ReadBufferSize])
  }

  /** `ssl_open_handshake`: one record of the datagram; after a fatal error nothing is read any more. */
  function ReadOne(r: Reader, maxLen: nat, junk: nat -> byte): (r': Reader)
    requires r.Shape()
    ensures r'.Shape() && r'.record.epoch == r.record.epoch && r'.record.aead == r.record.aead
    ensures r' == r.(record := r'.record, ring := r'.ring, sawCcs := r'.sawCcs, unread := r'.unread, failed := r'.failed)
  {
    if r.failed || r.unread == [] then r
    else
      var o := OpenRecord(r.record, r.unread);
      var r1 := r.(record := o.0, unread := o.2);
      match o.1
      case Discarded => r1
      case RecordOverflow => r1.(failed := true)
      case Opened(typ, text) =>
        var p := Process(r1, typ, text, maxLen, junk);
        p.0.(failed := !p.1)
  }

  /** `dtls1_open_change_cipher_spec`: take the flag, reading a record first if it is not set. */
  function TakeChange(r: Reader, maxLen: nat, junk: nat -> byte): (r': Reader)
    requires r.Shape()
    ensures r'.Shape()
  {
    if r.failed then r
    else
      var r1 := if r.sawCcs then r else ReadOne(r, maxLen, junk);
      if r1.sawCcs then r1.(sawCcs := false, ccsTaken := true) else r1
  }

  /** `dtls1_set_read_state`, once the ChangeCipherSpec has been taken: a fatal error while there is unprocessed data. */
  function SwitchRead(r: Reader, aead: Context): Reader
    requires r.ring.Shape()
  {
    if r.failed || !r.ccsTaken then r
    else if r.Unprocessed() then r.(failed := true)
    else r.(record := ReadState((r.record.epoch + 1) % TWO16, Window(0, 0), aead), ccsTaken := false)
  }

  /** `dtls1_get_message`: the message made available, if it was not before. */
  function GetMessage(r: Reader): (Reader, Option<seq<byte>>)
    requires r.ring.Shape()
  {
    if !r.ring.CurrentComplete() then (r, None)
    else (r.(hasMessage := true), if r.hasMessage then None else Some(r.ring.Current().value.raw))
  }

  // ---- The system ----------------------------------------------------------------------------

  datatype System = System(
    sender: Sender,
    sent: seq<Message>,
    switches: nat,
    wire: seq<seq<Sealed>>,
    reader: Reader,
    released: seq<seq<byte>>)

  datatype Action =
    | Add(m: Message)
    | AddCcs
    | Complete
    | SwitchWriteTo
    | Flush(mtu: nat, turns: nat -> Turn)
    | Retransmit(mtu: nat, turns: nat -> Turn)
    | Arrive(which: nat)
    | Read(maxLen: nat, junk: nat -> byte)
    | TakeCcs(maxLen: nat, junk: nat -> byte)
    | SwitchReadTo
    | Get
    | Next

  /** The contexts of the epochs, the same at both ends. */
  ghost predicate KeysValid(keys: nat -> Context) {
    forall e :: keys(e).Valid() && FixedOverhead(keys(e))
  }

  ghost predicate Shape(s: System, keys: nat -> Context) {
    s.sender.Valid() && s.reader.Shape() && KeysValid(keys)
  }

  function Act(s: System, a: Action, keys: nat -> Context): System
    requires Shape(s, keys)
  {
    match a
    case Add(m) =>
      (var r := AddMessage(s.sender, m);
       if r.None? then s else s.(sender := r.value, sent := s.sent + [m]))
    case AddCcs =>
      (var r := AddOutgoing(s.sender, true, []);
       if r.None? then s else s.(sender := r.value))
    case Complete => s.(sender := Clear(s.sender))
    case SwitchWriteTo =>
      var w := s.sender.log.state;
      s.(sender := s.sender.(log := s.sender.log.(state := SwitchWrite(w, keys((w.epoch + 1) % TWO16)))), switches := s.switches + 1)
    case Flush(mtu, turns) =>
      var r := SendFlight(s.sender.(complete := true), mtu, turns, 0);
      s.(sender := r.0, wire := s.wire + r.1)
    case Retransmit(mtu, turns) =>
      var r := SendFlight(s.sender.(written := 0, offset := 0), mtu, turns, 0);
      s.(sender := r.0, wire := s.wire + r.1)
    case Arrive(which) => if which >= |s.wire| then s else s.(reader := Load(s.reader, Bytes(s.wire[which])))
    case Read(maxLen, junk) => s.(reader := ReadOne(s.reader, maxLen, junk))
    case TakeCcs(maxLen, junk) => s.(reader := TakeChange(s.reader, maxLen, junk))
    case SwitchReadTo => s.(reader := SwitchRead(s.reader, keys((s.reader.record.epoch + 1) % TWO16)))
    case Get =>
      var g := GetMessage(s.reader);
      s.(reader := g.0, released := if g.1.Some? then s.released + [g.1.value] else s.released)
    case Next =>
      if !s.reader.hasMessage || !s.reader.ring.CurrentComplete() then s
      else s.(reader := s.reader.(ring := DtlsReceive.Next(s.reader.ring), hasMessage := false))
  }

  // ---- What is on the wire -------------------------------------------------------------------

  /** Whatever a receiver with the right keys does with the record, it sees its text or nothing. */
  ghost predicate Faithful(x: Sealed, keys: nat -> Context) {
    && x.record != [] && LostWhenCut(x.record)
    && forall r: ReadState, rest: seq<byte> | r.aead.Valid() && r.aead == keys(r.epoch) ::
         var o := OpenRecord(r, x.record + rest);
         && (o.1.Opened? ==> o.1 == Opened(x.piece.Typ(), x.piece.Text()))
         && (o.2 == rest || o.2 == [])
  }

  /** A record carries the ChangeCipherSpec or a part of a message sent. */
  ghost predicate Truthful(x: Sealed, ms: seq<Message>, keys: nat -> Context) {
    Faithful(x, keys) && (x.piece.Part? ==> Honest(x.piece.frag, ms))
  }

  ghost predicate AllTruthful(p: seq<Sealed>, ms: seq<Message>, keys: nat -> Context) {
    forall i :: 0 <= i < |p| ==> Truthful(p[i], ms, keys)
  }

  /** The write contexts are those of their epochs. */
  ghost predicate Keyed(w: WriteState, keys: nat -> Context) {
    w.Valid() && w.aead == keys(w.epoch) && (w.epoch >= 1 ==> w.lastAead == keys(w.epoch - 1))
  }

  /** Every handshake message of the flight is one of `ms`, under its number. */
  predicate FromHistory(flight: seq<OutMessage>, ms: seq<Message>) {
    forall i :: 0 <= i < |flight| && !flight[i].isCcs ==> exists k :: 0 <= k < |ms| && flight[i].data == ms[k].Raw(k)
  }

  lemma {:induction false} SealFaithful(s: Sender, previous: bool, piece: Piece, maxOut: nat, luck: Luck, keys: nat -> Context)
    requires s.Valid() && s.written < |s.flight| && (previous ==> s.log.state.epoch >= 1)
    requires Keyed(s.log.state, keys) && KeysValid(keys)
    ensures var r := Seal(s, previous, piece, maxOut, luck);
            && Keyed(r.0.log.state, keys)
            && (r.1.Progress? ==> Faithful(r.1.sealed, keys) && r.1.sealed.piece == piece)
  {
    hide SealRecord, OpenRecord, Context.Valid, FixedOverhead, Piece.Text, RecordVersion, Window.Record, Window.ShouldDiscard;
    var w := s.log.state;
    var r := Seal(s, previous, piece, maxOut, luck);
    if r.1.Progress? {
      var x := r.1.sealed;
      assert LostWhenCut(x.record) by { SealedLostWhenCut(w, previous, piece.Typ(), piece.Text(), maxOut, luck); }
      forall rd: ReadState, rest: seq<byte> | rd.aead.Valid() && rd.aead == keys(rd.epoch)
        ensures var o := OpenRecord(rd, x.record + rest);
                && (o.1.Opened? ==> o.1 == Opened(piece.Typ(), piece.Text()))
                && (o.2 == rest || o.2 == [])
      {
        OpenSealed(w, previous, piece.Typ(), piece.Text(), maxOut, luck, rd, rest);
      }
    }
  }

  lemma {:induction false} SealMessageFaithful(s: Sender, maxOut: nat, luck: Luck, keys: nat -> Context)
    requires s.Valid() && s.written < |s.flight| && Keyed(s.log.state, keys) && KeysValid(keys)
    ensures var r := SealMessage(s, maxOut, luck);
            Keyed(r.0.log.state, keys) && (r.1.Progress? ==> Faithful(r.1.sealed, keys))
  {
    hide Seal, Faithful, KeysValid, Context.Valid, Keyed;
    var msg, w := s.flight[s.written], s.log.state;
    var previous := UsesPrevious(w, msg);
    if previous || msg.epoch == w.epoch {
      SealFaithful(s, previous, Ccs, maxOut, luck, keys);
      var m := Whole(msg, s.offset);
      if m.Some? && maxOut >= DTLS1_HM_HEADER_LENGTH + Overhead(w, previous) {
        var frag := NextFragment(m.value, s.offset, maxOut - DTLS1_HM_HEADER_LENGTH - Overhead(w, previous));
        SealFaithful(s, previous, Part(frag), maxOut, luck, keys);
      }
    }
  }

  ghost predicate AllFaithful(p: seq<Sealed>, keys: nat -> Context) {
    forall i :: 0 <= i < |p| ==> Faithful(p[i], keys)
  }

  lemma {:induction false} PackLoopFaithful(s: Sender, maxOut: nat, lucks: nat -> Luck, keys: nat -> Context)
    requires s.Valid() && Keyed(s.log.state, keys) && KeysValid(keys)
    ensures var r := PackLoop(s, maxOut, lucks);
            Keyed(r.0.log.state, keys) && AllFaithful(r.1, keys)
    decreases |s.flight| - s.written
  {
    hide SealMessage, PackLoop, Faithful, Keyed, KeysValid;
    PackLoopStep(s, maxOut, lucks);
    if s.written < |s.flight| {
      SealMessageFaithful(s, maxOut, lucks(s.written), keys);
      var r := SealMessage(s, maxOut, lucks(s.written));
      if r.1.Progress? && !r.1.partial { PackLoopFaithful(Stepped(s, r), maxOut - |r.1.sealed.record|, lucks, keys); }
    }
  }

  lemma {:induction false} SendFlightFaithful(s: Sender, mtu: nat, turns: nat -> Turn, k: nat, keys: nat -> Context)
    requires s.Valid() && Keyed(s.log.state, keys) && KeysValid(keys)
    ensures var r := SendFlight(s, mtu, turns, k);
            Keyed(r.0.log.state, keys) && forall i :: 0 <= i < |r.1| ==> AllFaithful(r.1[i], keys)
    decreases |s.flight| - s.written, s.Behind()
  {
    hide SendFlight, PackLoop, Faithful, AllFaithful, Keyed, KeysValid, Bytes;
    SendFlightStep(s, mtu, turns, k);
    if s.written < |s.flight| {
      PackLoopFaithful(s, mtu, turns(k).lucks, keys);
      var p := SealPacket(s, mtu, turns(k).lucks);
      if p.1.Some? && turns(k).bio > 0 { SendFlightFaithful(p.0, mtu, turns, k + 1, keys); }
    }
  }

  /** A message's wire form reads back as the whole message. */
  lemma {:induction false} RawIsWhole(m: Message, k: nat, msg: OutMessage, offset: nat)
    requires |m.body| < 0x100_0000 && msg.data == m.Raw(k) && Whole(msg, offset).Some?
    ensures Whole(msg, offset).value == m.Slice(k, 0, |m.body|)
  {
    hide ParseFragment;
    var f := m.Slice(k, 0, |m.body|);
    ParseRoundTrip(f, []);
    assert f.Bytes() + [] == msg.data;
  }

  /** Pieces that tile the flight are parts of messages sent. */
  lemma {:induction false} TilesHonest(flight: seq<OutMessage>, at: Cursor, pieces: seq<Sealed>, ms: seq<Message>)
    requires FromHistory(flight, ms) && Sized(ms) && TileEnd(flight, at, pieces).Some?
    ensures forall i :: 0 <= i < |pieces| && pieces[i].piece.Part? ==> Honest(pieces[i].piece.frag, ms)
    decreases |pieces|
  {
    hide Whole, Message.Raw;
    if pieces != [] {
      var x, msg := pieces[0], flight[at.index];
      if !msg.isCcs {
        var k :| 0 <= k < |ms| && msg.data == ms[k].Raw(k);
        RawIsWhole(ms[k], k, msg, at.offset);
        assert IsSlice(x.piece.frag, ms[k], k);
      }
      TilesHonest(flight, After(flight, at, x).value, pieces[1..], ms);
    }
  }

  ghost predicate PacketsTruthful(packets: seq<seq<Sealed>>, ms: seq<Message>, keys: nat -> Context) {
    forall i :: 0 <= i < |packets| ==> AllTruthful(packets[i], ms, keys)
  }

  lemma {:induction false} InFlatten(packets: seq<seq<Sealed>>, i: nat, j: nat) returns (k: nat)
    requires i < |packets| && j < |packets[i]|
    ensures k < |Flatten(packets)| && Flatten(packets)[k] == packets[i][j]
    decreases |packets|
  {
    if i == 0 {
      k := j;
    } else {
      k := InFlatten(packets[1..], i - 1, j);
      k := |packets[0]| + k;
    }
  }

  /** Everything one call writes is faithful to its text, and its text is part of a message sent. */
  lemma {:induction false} SendFlightTruthful(s: Sender, mtu: nat, turns: nat -> Turn, ms: seq<Message>, keys: nat -> Context)
    requires s.Valid() && Keyed(s.log.state, keys) && KeysValid(keys) && FromHistory(s.flight, ms) && Sized(ms)
    ensures var r := SendFlight(s, mtu, turns, 0);
            Keyed(r.0.log.state, keys) && PacketsTruthful(r.1, ms, keys)
  {
    hide SendFlight, Faithful, Keyed, KeysValid, Honest, FromHistory, Bytes;
    var r := SendFlight(s, mtu, turns, 0);
    SendFlightFaithful(s, mtu, turns, 0, keys);
    FlightTiles(s, mtu, turns, 0);
    TilesHonest(s.flight, At(s), Flatten(r.1), ms);
    forall i, j | 0 <= i < |r.1| && 0 <= j < |r.1[i]| ensures Truthful(r.1[i][j], ms, keys) {
      assert AllFaithful(r.1[i], keys);
      var k := InFlatten(r.1, i, j);
    }
  }

  // ---- What the receiver makes of it ---------------------------------------------------------

  /** The reader has let go of the first `n` messages and holds nothing but parts of messages sent. */
  predicate ReaderFollows(r: Reader, ms: seq<Message>) {
    Follows(r.ring, ms, r.ring.readSeq) && (r.hasMessage ==> r.ring.CurrentComplete())
  }

  /** A complete message is never touched again. */
  lemma {:induction false} AcceptKeepsComplete(r: Receiver, f: Fragment, env: Env)
    requires r.InWindow() && r.CurrentComplete() && f.Fits()
    ensures Accept(r, f, env).0.Shape() && Accept(r, f, env).0.CurrentComplete()
    ensures Accept(r, f, env).0.Current() == r.Current()
  {
    hide Hm.Complete, Hm.Valid, Received, NewHm;
    AcceptShape(r, f, env);
  }

  lemma {:induction false} RecordKeepsComplete(r: Receiver, record: seq<byte>, env: Env)
    requires r.InWindow() && r.CurrentComplete()
    ensures AcceptRecord(r, record, env).0.CurrentComplete() && AcceptRecord(r, record, env).0.Current() == r.Current()
    decreases |record|
  {
    hide Hm.Complete, Accept;
    if record != [] && ParseFragment(record).Some? {
      ParsedFits(record);
      var p := ParseFragment(record).value;
      AcceptKeepsComplete(r, p.0, env);
      AcceptShape(r, p.0, env);
      if Accept(r, p.0, env).1.None? { RecordKeepsComplete(Accept(r, p.0, env).0, p.1, env); }
    }
  }

  lemma {:induction false} ProcessFollows(r: Reader, x: Piece, ms: seq<Message>, maxLen: nat, junk: nat -> byte)
    requires ReaderFollows(r, ms) && Sized(ms) && (x.Part? ==> Honest(x.frag, ms))
    ensures ReaderFollows(Process(r, x.Typ(), x.Text(), maxLen, junk).0, ms)
    ensures Process(r, x.Typ(), x.Text(), maxLen, junk).0.ring.readSeq == r.ring.readSeq
  {
    hide Fragment.Bytes, AcceptRecord, Hm.Complete, Hm.Valid, Honest, Agrees;
    if x.Part? {
      var env := Env(r.record.epoch, maxLen, junk);
      assert [x.frag][1..] == [];
      assert Concat([x.frag]) == x.Text();
      RecordFollows(r.ring, [x.frag], env, ms, r.ring.readSeq);
      if r.hasMessage { RecordKeepsComplete(r.ring, x.Text(), env); }
    }
  }

  /** What is unread is the beginning of a list of truthful records. */
  ghost predicate Unread(u: seq<byte>, ms: seq<Message>, keys: nat -> Context) {
    exists p: seq<Sealed> :: IsPrefix(u, Bytes(p)) && AllTruthful(p, ms, keys)
  }

  /** Reading a record of what was written leaves an image of the messages sent, and unread records that were written. */
  lemma {:induction false} ReadFollows(r: Reader, ms: seq<Message>, maxLen: nat, junk: nat -> byte, keys: nat -> Context)
    requires r.Shape() && ReaderFollows(r, ms) && Sized(ms) && Unread(r.unread, ms, keys) && r.record.aead == keys(r.record.epoch)
    ensures var r' := ReadOne(r, maxLen, junk);
            ReaderFollows(r', ms) && r'.ring.readSeq == r.ring.readSeq && Unread(r'.unread, ms, keys)
  {
    hide OpenRecord, Process, Honest, ReaderFollows, Piece.Text, Context.Valid, Faithful;
    if !r.failed && r.unread != [] {
      var p :| IsPrefix(r.unread, Bytes(p)) && AllTruthful(p, ms, keys);
      var x, rest := p[0], p[1..];
      assert Truthful(x, ms, keys) && AllTruthful(rest, ms, keys);
      var o := OpenRecord(r.record, r.unread);
      NextRecordRead(r.record, x, r.unread, Bytes(rest), keys);
      assert Unread(o.2, ms, keys) by {
        assert IsPrefix(o.2, Bytes(rest));
      }
      var r1 := r.(record := o.0, unread := o.2);
      FollowsAnyway(r, r1, ms);
      if o.1.Opened? {
        ProcessFollows(r1, x.piece, ms, maxLen, junk);
        var next := Process(r1, x.piece.Typ(), x.piece.Text(), maxLen, junk);
        FollowsAnyway(next.0, next.0.(failed := !next.1), ms);
      }
      FollowsAnyway(r1, r1.(failed := true), ms);
    }
  }

  /** Of a list of records, cut short anywhere, the first is opened to its own text or discarded. */
  lemma {:induction false} NextRecordRead(r: ReadState, x: Sealed, u: seq<byte>, rest: seq<byte>, keys: nat -> Context)
    requires r.aead.Valid() && r.aead == keys(r.epoch) && Faithful(x, keys) && u != [] && IsPrefix(u, x.record + rest)
    ensures var o := OpenRecord(r, u);
            && (o.1.Opened? ==> o.1 == Opened(x.piece.Typ(), x.piece.Text())) && IsPrefix(o.2, rest)
  {
    hide OpenRecord, Piece.Text, Context.Valid, Faithful;
    if |u| < |x.record| {
      assert u == x.record[..|u|];
      CutIsDiscarded(r, x, |u|, keys);
    } else {
      var left := u[|x.record|..];
      assert u == x.record + left && IsPrefix(left, rest);
      OpenedAsSealed(r, x, left, keys);
    }
  }

  lemma {:induction false} CutIsDiscarded(r: ReadState, x: Sealed, cut: nat, keys: nat -> Context)
    requires Faithful(x, keys) && r.aead.Valid() && 0 < cut < |x.record|
    ensures OpenRecord(r, x.record[..cut]) == (r, Discarded, [])
  {
    hide OpenRecord, Piece.Text, Context.Valid;
  }

  lemma {:induction false} OpenedAsSealed(r: ReadState, x: Sealed, rest: seq<byte>, keys: nat -> Context)
    requires Faithful(x, keys) && r.aead.Valid() && r.aead == keys(r.epoch)
    ensures x.record != []
    ensures var o := OpenRecord(r, x.record + rest);
            (o.1.Opened? ==> o.1 == Opened(x.piece.Typ(), x.piece.Text())) && (o.2 == rest || o.2 == [])
  {
    hide OpenRecord, Piece.Text, Context.Valid, LostWhenCut;
  }

  lemma {:induction false} FollowsAnyway(r: Reader, r': Reader, ms: seq<Message>)
    requires ReaderFollows(r, ms) && r'.ring == r.ring && r'.hasMessage == r.hasMessage
    ensures ReaderFollows(r', ms)
  {
  }

  // ---- The invariant -------------------------------------------------------------------------

  /** The released messages: the first `readSeq`, and the current one if it has been taken. */
  predicate ReleasedExactly(s: System) {
    var n := s.reader.ring.readSeq + if s.reader.hasMessage then 1 else 0;
    n <= |s.sent| && s.released == Raws(s.sent)[..n]
  }

  ghost predicate SenderInv(s: System, keys: nat -> Context) {
    && s.sender.Valid() && Sized(s.sent) && |s.sent| < TWO16 && s.sender.writeSeq == |s.sent|
    && FromHistory(s.sender.flight, s.sent) && Keyed(s.sender.log.state, keys)
    && PacketsTruthful(s.wire, s.sent, keys)
  }

  ghost predicate ReaderInv(s: System, keys: nat -> Context) {
    s.reader.Shape() && s.reader.record.aead == keys(s.reader.record.epoch)
    && ReaderFollows(s.reader, s.sent) && Unread(s.reader.unread, s.sent, keys) && ReleasedExactly(s)
  }

  ghost predicate Inv(s: System, keys: nat -> Context) {
    KeysValid(keys) && SenderInv(s, keys) && ReaderInv(s, keys)
  }

  // ---- More messages sent --------------------------------------------------------------------

  lemma {:induction false} MoreHonest(f: Fragment, ms: seq<Message>, m: Message)
    requires Honest(f, ms)
    ensures Honest(f, ms + [m])
  {
    var k :| 0 <= k < |ms| && IsSlice(f, ms[k], k);
    assert (ms + [m])[k] == ms[k];
  }

  lemma {:induction false} MoreTruthful(packets: seq<seq<Sealed>>, ms: seq<Message>, m: Message, keys: nat -> Context)
    requires PacketsTruthful(packets, ms, keys)
    ensures PacketsTruthful(packets, ms + [m], keys)
  {
    hide AllTruthful;
    forall i | 0 <= i < |packets| ensures AllTruthful(packets[i], ms + [m], keys) { MoreTruthfulPieces(packets[i], ms, m, keys); }
  }

  lemma {:induction false} MoreTruthfulPieces(p: seq<Sealed>, ms: seq<Message>, m: Message, keys: nat -> Context)
    requires AllTruthful(p, ms, keys)
    ensures AllTruthful(p, ms + [m], keys)
  {
    hide Honest, Faithful;
    forall i | 0 <= i < |p| ensures Truthful(p[i], ms + [m], keys) {
      if p[i].piece.Part? { MoreHonest(p[i].piece.frag, ms, m); }
    }
  }

  lemma {:induction false} MoreUnread(u: seq<byte>, ms: seq<Message>, m: Message, keys: nat -> Context)
    requires Unread(u, ms, keys)
    ensures Unread(u, ms + [m], keys)
  {
    hide AllTruthful, IsPrefix;
    var p :| IsPrefix(u, Bytes(p)) && AllTruthful(p, ms, keys);
    MoreTruthfulPieces(p, ms, m, keys);
  }

  lemma {:induction false} MoreFollows(r: Reader, ms: seq<Message>, m: Message)
    requires ReaderFollows(r, ms) && |ms| + 1 < TWO16
    ensures ReaderFollows(r, ms + [m])
  {
    hide Agrees, Hm.Valid, Hm.Complete;
  }

  lemma {:induction false} MoreHistory(flight: seq<OutMessage>, ms: seq<Message>, m: Message)
    requires FromHistory(flight, ms)
    ensures FromHistory(flight, ms + [m])
  {
    hide Message.Raw;
    forall i | 0 <= i < |flight| && !flight[i].isCcs
      ensures exists k :: 0 <= k < |ms + [m]| && flight[i].data == (ms + [m])[k].Raw(k)
    {
      var k :| 0 <= k < |ms| && flight[i].data == ms[k].Raw(k);
      assert (ms + [m])[k] == ms[k];
    }
  }

  lemma {:induction false} InvShape(s: System, keys: nat -> Context)
    requires Inv(s, keys)
    ensures Shape(s, keys)
  {
    hide FromHistory, Keyed, PacketsTruthful, KeysValid, Follows;
  }

  // ---- Each step keeps it --------------------------------------------------------------------

  lemma {:induction false} AddInv(s: System, m: Message, keys: nat -> Context)
    requires Inv(s, keys) && |Act(s, Add(m), keys).sent| < TWO16
    ensures Inv(Act(s, Add(m), keys), keys)
  {
    hide Message.Raw, ReaderFollows, PacketsTruthful, Keyed, KeysValid, Reader.Shape, Unread;
    if AddMessage(s.sender, m).Some? {
      var s' := Act(s, Add(m), keys);
      MoreTruthful(s.wire, s.sent, m, keys);
      MoreFollows(s.reader, s.sent, m);
      MoreUnread(s.reader.unread, s.sent, m, keys);
      var kept := if s.sender.complete then [] else s.sender.flight;
      MoreHistory(kept, s.sent, m);
      var msg := OutMessage(m.Raw(s.sender.writeSeq), s.sender.log.state.epoch, false);
      assert s'.sender.flight == kept + [msg];
      assert msg.data == s'.sent[|s.sent|].Raw(|s.sent|);
      assert Raws(s'.sent)[..|s.sent|] == Raws(s.sent);
    }
  }

  lemma {:induction false} SendInv(s: System, from: Sender, mtu: nat, turns: nat -> Turn, keys: nat -> Context)
    requires Inv(s, keys) && from == s.sender.(complete := from.complete, written := from.written, offset := from.offset)
    requires from.Valid()
    ensures var r := SendFlight(from, mtu, turns, 0);
            Inv(s.(sender := r.0, wire := s.wire + r.1), keys)
  {
    hide ReaderFollows, AllTruthful, FromHistory, Keyed, KeysValid, ReaderInv, SendFlight;
    SendFlightTruthful(from, mtu, turns, s.sent, keys);
    SendFlightFrame(from, mtu, turns, 0);
    var r := SendFlight(from, mtu, turns, 0);
    assert ReaderInv(s.(sender := r.0, wire := s.wire + r.1), keys) by {
      ReaderInvFrame(s, s.(sender := r.0, wire := s.wire + r.1), keys);
    }
  }

  lemma {:induction false} ReaderInvFrame(s: System, s': System, keys: nat -> Context)
    requires ReaderInv(s, keys) && s'.reader == s.reader && s'.sent == s.sent && s'.released == s.released
    ensures ReaderInv(s', keys)
  {
  }

  /** Sending changes neither the message counter nor, beyond the cursor, the flight. */
  lemma {:induction false} SendFlightFrame(s: Sender, mtu: nat, turns: nat -> Turn, k: nat)
    requires s.Valid()
    ensures SendFlight(s, mtu, turns, k).0.writeSeq == s.writeSeq
    decreases |s.flight| - s.written, s.Behind()
  {
    hide SendFlight, PackLoop;
    SendFlightStep(s, mtu, turns, k);
    if s.written < |s.flight| {
      PackLoopFrame(s, mtu, turns(k).lucks);
      var p := SealPacket(s, mtu, turns(k).lucks);
      if p.1.Some? && turns(k).bio > 0 { SendFlightFrame(p.0, mtu, turns, k + 1); }
    }
  }

  lemma {:induction false} PackLoopFrame(s: Sender, maxOut: nat, lucks: nat -> Luck)
    requires s.Valid()
    ensures PackLoop(s, maxOut, lucks).0.writeSeq == s.writeSeq
    decreases |s.flight| - s.written
  {
    hide SealMessage, PackLoop;
    PackLoopStep(s, maxOut, lucks);
    if s.written < |s.flight| {
      var r := SealMessage(s, maxOut, lucks(s.written));
      if r.1.Progress? && !r.1.partial { PackLoopFrame(Stepped(s, r), maxOut - |r.1.sealed.record|, lucks); }
    }
  }

  lemma {:induction false} GetInv(s: System, keys: nat -> Context)
    requires Inv(s, keys)
    ensures Inv(Act(s, Get, keys), keys)
  {
    InvShape(s, keys);
    hide SenderInv, KeysValid, Message.Raw, Hm.Complete, Sender.Valid, Reader.Shape, Unread;
    var s' := Act(s, Get, keys);
    assert SenderInv(s', keys) by { SenderInvFrame(s, s', keys); }
    if s.reader.ring.CurrentComplete() && !s.reader.hasMessage {
      ReleaseFollows(s.reader.ring, s.sent, s.reader.ring.readSeq);
    }
  }

  lemma {:induction false} NextInv(s: System, keys: nat -> Context)
    requires Inv(s, keys)
    ensures Inv(Act(s, Action.Next, keys), keys)
  {
    InvShape(s, keys);
    hide SenderInv, KeysValid, Message.Raw, Hm.Complete, Sender.Valid, Reader.Shape, Unread;
    var s' := Act(s, Action.Next, keys);
    assert SenderInv(s', keys) by { SenderInvFrame(s, s', keys); }
    if s.reader.hasMessage && s.reader.ring.CurrentComplete() {
      ReleaseFollows(s.reader.ring, s.sent, s.reader.ring.readSeq);
    }
  }

  lemma {:induction false} SenderInvFrame(s: System, s': System, keys: nat -> Context)
    requires SenderInv(s, keys) && s'.sender == s.sender && s'.sent == s.sent && s'.wire == s.wire
    ensures SenderInv(s', keys)
  {
  }

  lemma {:induction false} ArriveInv(s: System, which: nat, keys: nat -> Context)
    requires Inv(s, keys)
    ensures Inv(Act(s, Arrive(which), keys), keys)
  {
    hide KeysValid, AllTruthful, Keyed, FromHistory, Context.Valid, Bytes, Follows;
    if which < |s.wire| {
      var s' := Act(s, Arrive(which), keys);
      assert Unread(s'.reader.unread, s'.sent, keys) by {
        if s'.reader != s.reader { assert IsPrefix(s'.reader.unread, Bytes(s.wire[which])); }
      }
    }
  }

  lemma {:induction false} ReadInv(s: System, maxLen: nat, junk: nat -> byte, keys: nat -> Context)
    requires Inv(s, keys)
    ensures Inv(Act(s, Read(maxLen, junk), keys), keys) && Inv(Act(s, TakeCcs(maxLen, junk), keys), keys)
  {
    hide KeysValid, ReadOne, ReaderFollows, Unread, AllTruthful, Keyed, FromHistory, Context.Valid, Bytes;
    ReadFollows(s.reader, s.sent, maxLen, junk, keys);
    var r := TakeChange(s.reader, maxLen, junk);
    var r1 := if s.reader.failed || s.reader.sawCcs then s.reader else ReadOne(s.reader, maxLen, junk);
    FollowsAnyway(r1, r, s.sent);
  }

  lemma {:induction false} SwitchReadInv(s: System, keys: nat -> Context)
    requires Inv(s, keys)
    ensures Inv(Act(s, SwitchReadTo, keys), keys)
  {
    InvShape(s, keys);
    hide SenderInv, ReaderInv, Sender.Valid, SwitchRead, Context.Valid, KeysValid, SendFlight, ReadOne, TakeChange, Load;
    var next := (s.reader.record.epoch + 1) % TWO16;
    var s' := Act(s, SwitchReadTo, keys);
    KeyValid(keys, next);
    assert SenderInv(s', keys) by { SenderInvFrame(s, s', keys); }
    SwitchReadKeeps(s.reader, keys(next));
    ReaderInvKept(s, s'.reader, keys);
  }

  lemma {:induction false} SwitchReadKeeps(r: Reader, aead: Context)
    requires r.Shape() && aead.Valid()
    ensures var r' := SwitchRead(r, aead);
            && r'.Shape() && r'.ring == r.ring && r'.hasMessage == r.hasMessage && r'.unread == r.unread
            && (r'.record == r.record || (r'.record.epoch == (r.record.epoch + 1) % TWO16 && r'.record.aead == aead))
  {
    hide Receiver.Shape, Context.Valid, Reader.Unprocessed;
  }

  lemma {:induction false} ReaderInvKept(s: System, r: Reader, keys: nat -> Context)
    requires ReaderInv(s, keys) && r.Shape() && r.record.aead == keys(r.record.epoch)
    requires r.ring == s.reader.ring && r.hasMessage == s.reader.hasMessage && r.unread == s.reader.unread
    ensures ReaderInv(s.(reader := r), keys)
  {
    hide Reader.Shape, Unread, Raws;
    FollowsAnyway(s.reader, r, s.sent);
  }

  lemma {:induction false} AddCcsInv(s: System, keys: nat -> Context)
    requires Inv(s, keys)
    ensures Inv(Act(s, AddCcs, keys), keys)
  {
    InvShape(s, keys);
    hide PacketsTruthful, ReaderInv, Reader.Shape, KeysValid, Context.Valid, Message.Raw, Keyed;
    var s' := Act(s, AddCcs, keys);
    assert ReaderInv(s', keys) by { ReaderInvFrame(s, s', keys); }
    var kept := if s.sender.complete then [] else s.sender.flight;
    assert s'.sender.flight == s.sender.flight || s'.sender.flight == kept + [OutMessage([], s.sender.log.state.epoch, true)];
    assert FromHistory(kept, s.sent);
  }

  lemma {:induction false} SwitchWriteInv(s: System, keys: nat -> Context)
    requires Inv(s, keys)
    ensures Inv(Act(s, SwitchWriteTo, keys), keys)
  {
    InvShape(s, keys);
    hide PacketsTruthful, ReaderInv, Reader.Shape, KeysValid, Context.Valid, FromHistory;
    var s' := Act(s, SwitchWriteTo, keys);
    assert ReaderInv(s', keys) by { ReaderInvFrame(s, s', keys); }
    KeyValid(keys, (s.sender.log.state.epoch + 1) % TWO16);
  }

  lemma {:induction false} CompleteInv(s: System, keys: nat -> Context)
    requires Inv(s, keys)
    ensures Inv(Act(s, Complete, keys), keys)
  {
    InvShape(s, keys);
    hide PacketsTruthful, ReaderInv, Reader.Shape, KeysValid, Context.Valid, Keyed;
    ReaderInvFrame(s, Act(s, Complete, keys), keys);
  }

  lemma {:induction false} ActInv(s: System, a: Action, keys: nat -> Context)
    requires Inv(s, keys) && |Act(s, a, keys).sent| < TWO16
    ensures Inv(Act(s, a, keys), keys)
  {
    hide SenderInv, ReaderInv, KeysValid, SendFlight;
    InvShape(s, keys);
    match a {
      case Add(m) => AddInv(s, m, keys);
      case Flush(mtu, turns) => SendInv(s, s.sender.(complete := true), mtu, turns, keys);
      case Retransmit(mtu, turns) => SendInv(s, s.sender.(written := 0, offset := 0), mtu, turns, keys);
      case Arrive(which) => ArriveInv(s, which, keys);
      case Read(maxLen, junk) => ReadInv(s, maxLen, junk, keys);
      case TakeCcs(maxLen, junk) => ReadInv(s, maxLen, junk, keys);
      case Get => GetInv(s, keys);
      case Next => NextInv(s, keys);
      case AddCcs => AddCcsInv(s, keys);
      case Complete => CompleteInv(s, keys);
      case SwitchWriteTo => SwitchWriteInv(s, keys);
      case SwitchReadTo => SwitchReadInv(s, keys);
    }
  }

  // ---- Every run -----------------------------------------------------------------------------

  ghost predicate RunsTo(s: System, actions: seq<Action>, s': System, keys: nat -> Context)
    decreases |actions|
  {
    if actions == [] then s' == s
    else Shape(s, keys) && RunsTo(Act(s, actions[0], keys), actions[1..], s', keys)
  }

  function Initially(keys: nat -> Context): System {
    System(Sender([], 0, 0, false, 0, Writes(WriteState(0, 0, 0, keys(0), keys(0)), [], false)), [], 0, [],
           Reader(ReadState(0, Window(0, 0), keys(0)), Receiver(0, EmptyRing), false, false, [], false, false), [])
  }

  lemma {:induction false} SentGrows(s: System, actions: seq<Action>, s': System, keys: nat -> Context)
    requires RunsTo(s, actions, s', keys)
    ensures |s.sent| <= |s'.sent|
    decreases |actions|
  {
    if actions != [] { SentGrows(Act(s, actions[0], keys), actions[1..], s', keys); }
  }

  lemma {:induction false} RunInv(s: System, actions: seq<Action>, s': System, keys: nat -> Context)
    requires Inv(s, keys) && RunsTo(s, actions, s', keys) && |s'.sent| < TWO16
    ensures Inv(s', keys)
    decreases |actions|
  {
    hide SenderInv, ReaderInv, KeysValid, Act;
    InvShape(s, keys);
    if actions != [] {
      SentGrows(Act(s, actions[0], keys), actions[1..], s', keys);
      ActInv(s, actions[0], keys);
      RunInv(Act(s, actions[0], keys), actions[1..], s', keys);
    }
  }

  lemma {:induction false} InitInv(keys: nat -> Context)
    requires KeysValid(keys)
    ensures Inv(Initially(keys), keys)
  {
    hide KeysValid, FixedOverhead, Context.Valid, Agrees;
    assert keys(0).Valid() by { KeyValid(keys, 0); }
    assert Raws([]) == [];
    assert IsPrefix([], Bytes([])) && AllTruthful([], [], keys);
  }

  lemma {:induction false} KeyValid(keys: nat -> Context, e: nat)
    requires KeysValid(keys)
    ensures keys(e).Valid()
  {
  }

  /**
   * In every run of the two ends, with any MTUs, failing writes, retransmissions, losses, repetitions and
   * reorderings, the receiver has released a prefix of what the sender sent, byte for byte with the headers.
   */
  lemma {:induction false} ReleasedIsPrefixOfSent(actions: seq<Action>, s: System, keys: nat -> Context)
    requires KeysValid(keys) && RunsTo(Initially(keys), actions, s, keys) && |s.sent| < TWO16
    ensures IsPrefix(s.released, Raws(s.sent))
  {
    InitInv(keys);
    RunInv(Initially(keys), actions, s, keys);
  }

  // ---- Record numbers over every run ---------------------------------------------------------

  /** Sealing keeps the epoch, never forgets a wraparound, and without one uses no number twice. */
  ghost predicate Advances(h: Writes, h': Writes) {
    && h'.state.epoch == h.state.epoch && (h.wrapped ==> h'.wrapped)
    && (Below(h) && !h'.wrapped ==> Below(h'))
  }

  lemma {:induction false} SealAdvances(s: Sender, previous: bool, piece: Piece, maxOut: nat, luck: Luck)
    requires s.Valid() && s.written < |s.flight| && (previous ==> s.log.state.epoch >= 1)
    ensures Advances(s.log, Seal(s, previous, piece, maxOut, luck).0.log)
  {
    hide SealRecord, Below, Context.Valid;
    var op := SealOp(previous, piece.Typ(), piece.Text(), maxOut, luck);
    if Below(s.log) && !Write(s.log, op).wrapped { WriteKeepsBelow(s.log, op); }
  }

  lemma {:induction false} SealMessageAdvances(s: Sender, maxOut: nat, luck: Luck)
    requires s.Valid() && s.written < |s.flight|
    ensures Advances(s.log, SealMessage(s, maxOut, luck).0.log)
  {
    hide Seal, Below, Context.Valid;
    var msg, w := s.flight[s.written], s.log.state;
    var previous := UsesPrevious(w, msg);
    if previous || msg.epoch == w.epoch {
      SealAdvances(s, previous, Ccs, maxOut, luck);
      var m := Whole(msg, s.offset);
      if m.Some? && maxOut >= DTLS1_HM_HEADER_LENGTH + Overhead(w, previous) {
        SealAdvances(s, previous, Part(NextFragment(m.value, s.offset, maxOut - DTLS1_HM_HEADER_LENGTH - Overhead(w, previous))), maxOut, luck);
      }
    }
  }

  lemma {:induction false} PackLoopAdvances(s: Sender, maxOut: nat, lucks: nat -> Luck)
    requires s.Valid()
    ensures Advances(s.log, PackLoop(s, maxOut, lucks).0.log)
    decreases |s.flight| - s.written
  {
    hide SealMessage, PackLoop, Below;
    PackLoopStep(s, maxOut, lucks);
    if s.written < |s.flight| {
      var r := SealMessage(s, maxOut, lucks(s.written));
      SealMessageAdvances(s, maxOut, lucks(s.written));
      if r.1.Progress? && !r.1.partial { PackLoopAdvances(Stepped(s, r), maxOut - |r.1.sealed.record|, lucks); }
    }
  }

  lemma {:induction false} SendFlightAdvances(s: Sender, mtu: nat, turns: nat -> Turn, k: nat)
    requires s.Valid()
    ensures Advances(s.log, SendFlight(s, mtu, turns, k).0.log)
    decreases |s.flight| - s.written, s.Behind()
  {
    hide SendFlight, PackLoop, Below;
    SendFlightStep(s, mtu, turns, k);
    if s.written < |s.flight| {
      PackLoopAdvances(s, mtu, turns(k).lucks);
      var p := SealPacket(s, mtu, turns(k).lucks);
      if p.1.Some? && turns(k).bio > 0 { SendFlightAdvances(p.0, mtu, turns, k + 1); }
    }
  }

  /** A step of the system, as far as record numbers go. */
  lemma {:induction false} ActAdvances(s: System, a: Action, keys: nat -> Context)
    requires Shape(s, keys)
    ensures var s' := Act(s, a, keys);
            && s.switches <= s'.switches && (s.sender.log.wrapped ==> s'.sender.log.wrapped)
            && (Below(s.sender.log) && s.sender.log.state.epoch == s.switches && !s'.sender.log.wrapped && s'.switches < TWO16 ==>
                 Below(s'.sender.log) && s'.sender.log.state.epoch == s'.switches)
  {
    hide SendFlight, Below, ReadOne, Context.Valid;
    match a {
      case Flush(mtu, turns) => SendFlightAdvances(s.sender.(complete := true), mtu, turns, 0);
      case Retransmit(mtu, turns) => SendFlightAdvances(s.sender.(written := 0, offset := 0), mtu, turns, 0);
      case SwitchWriteTo =>
        var w := s.sender.log.state;
        var op := SwitchOp(keys((w.epoch + 1) % TWO16));
        assert CanWrite(w, op) by { KeyValid(keys, (w.epoch + 1) % TWO16); }
        if Below(s.sender.log) && !s.sender.log.wrapped && w.epoch + 1 < TWO16 { WriteKeepsBelow(s.sender.log, op); }
      case Add(m) =>
      case AddCcs =>
      case Complete =>
      case SwitchReadTo =>
      case Arrive(_) =>
      case Read(_, _) =>
      case TakeCcs(_, _) =>
      case Get =>
      case Next =>
    }
  }

  lemma {:induction false} RunAdvances(s: System, actions: seq<Action>, s': System, keys: nat -> Context)
    requires RunsTo(s, actions, s', keys)
    ensures s.switches <= s'.switches && (s.sender.log.wrapped ==> s'.sender.log.wrapped)
    ensures Below(s.sender.log) && s.sender.log.state.epoch == s.switches && !s'.sender.log.wrapped && s'.switches < TWO16 ==>
              Below(s'.sender.log)
    decreases |actions|
  {
    hide Act, Below, Shape;
    if actions != [] {
      ActAdvances(s, actions[0], keys);
      RunAdvances(Act(s, actions[0], keys), actions[1..], s', keys);
    }
  }

  /** In every run, no two records are sealed with the same epoch and number before a wraparound is reported. */
  lemma {:induction false} RecordNumbersUnique(actions: seq<Action>, s: System, keys: nat -> Context)
    requires KeysValid(keys) && RunsTo(Initially(keys), actions, s, keys)
    requires !s.sender.log.wrapped && s.switches < TWO16
    ensures NoDuplicates(s.sender.log.numbers)
  {
    hide RunsTo;
    RunAdvances(Initially(keys), actions, s, keys);
    assert Below(Initially(keys).sender.log);
  }
}

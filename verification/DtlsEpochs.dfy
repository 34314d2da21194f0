/** A run of the two ends across the ChangeCipherSpec: the message of the new epoch is released. */
module DtlsEpochs {
  import opened Common
  import opened SslAead
  import opened DtlsFragment
  import opened DtlsRecord
  import opened DtlsReceive
  import opened DtlsSend
  import opened DtlsReliable
  import opened DtlsSystem

  /** The first epoch is in the clear, and both contexts have a DTLS version. */
  ghost predicate Negotiated(keys: nat -> Context) {
    KeysValid(keys) && keys(0).kind.Null? && RecordVersion(keys(1)) / 256 == 0xFE
  }

  /** A packet has room for the ChangeCipherSpec and the whole message under the new keys. */
  ghost predicate Roomy(m: Message, mtu: nat, c: Context)
    requires c.Valid()
  {
    14 + DTLS1_RT_HEADER_LENGTH + DTLS1_HM_HEADER_LENGTH + 1 + |m.body| + c.MaxOverhead() <= mtu <= SSL3_RT_MAX_PLAIN_LENGTH
  }

  function Switched(keys: nat -> Context): WriteState { WriteState(1, 0, 0, keys(1), keys(0)) }

  /** The sender with the ChangeCipherSpec of the old epoch and the message of the new one. */
  function Ready(m: Message, keys: nat -> Context): Sender { LastFlight(m, keys(0), keys(1), 0) }

  lemma {:induction false} ChangeSeals(m: Message, keys: nat -> Context, mtu: nat, luck: Luck)
    requires Negotiated(keys) && Ready(m, keys).Valid() && mtu >= 14 && luck.cipherOk
    ensures var s, w := Ready(m, keys), Switched(keys);
            var r := SealMessage(s, mtu, luck);
            && r.1.Progress? && !r.1.partial && |r.1.sealed.record| == 14
            && SealRecord(w, true, SSL3_RT_CHANGE_CIPHER_SPEC, [1], mtu, luck).1 == Some(r.1.sealed.record)
            && Stepped(s, r) == s.(written := 1, log := r.0.log) && r.0.log.state == w.Counted(true)
  {
    hide SealRecord, Context.Valid;
    SealMessagePlanned(Ready(m, keys), mtu, luck);
  }

  lemma {:induction false} MessageSeals(m: Message, keys: nat -> Context, s: Sender, maxOut: nat, luck: Luck)
    requires |m.body| < 0x100_0000 && keys(1).Valid() && luck.cipherOk && maxOut < TWO16
    requires DTLS1_RT_HEADER_LENGTH + DTLS1_HM_HEADER_LENGTH + 1 + |m.body| + keys(1).MaxOverhead() <= maxOut
    requires s.Valid() && s == Ready(m, keys).(written := 1, log := s.log) && s.log.state == Switched(keys).Counted(true)
    ensures var r := SealMessage(s, maxOut, luck);
            && r.1.Progress? && !r.1.partial && |r.1.sealed.record| <= maxOut
            && SealRecord(s.log.state, false, SSL3_RT_HANDSHAKE, m.Raw(0), maxOut, luck).1 == Some(r.1.sealed.record)
            && Stepped(s, r) == s.(written := 2, log := r.0.log)
  {
    hide SealRecord, Context.Valid, Whole, Header.Bytes;
    RawWhole(m);
    var f := m.Slice(0, 0, |m.body|);
    assert f.body == m.body;
    var frag := NextFragment(f, 0, maxOut - DTLS1_HM_HEADER_LENGTH - Overhead(s.log.state, false));
    assert frag == f;
    SealPlanned(s, false, Part(f), Cursor(2, 0), false, maxOut, luck);
    OverheadCoversPrefix(s.log.state, false);
    SuffixFits(keys(1), |f.Bytes()|);
  }

  /** Both fit into one packet: the ChangeCipherSpec under the old keys, the message under the new ones. */
  lemma {:induction false} OnePacket(m: Message, keys: nat -> Context, mtu: nat, lucks: nat -> Luck) returns (ccs: Sealed, part: Sealed)
    requires Negotiated(keys) && |m.body| < 0x100_0000 && Ready(m, keys).Valid() && keys(1).Valid() && Roomy(m, mtu, keys(1))
    requires forall i :: lucks(i).cipherOk
    ensures var p := SealPacket(Ready(m, keys), mtu, lucks);
            p.1 == Some([ccs, part]) && p.0.written == 2
    ensures var w := Switched(keys);
            && w.Counted(true).Valid()
            && SealRecord(w, true, SSL3_RT_CHANGE_CIPHER_SPEC, [1], mtu, lucks(0)).1 == Some(ccs.record)
            && SealRecord(w.Counted(true), false, SSL3_RT_HANDSHAKE, m.Raw(0), mtu - 14, lucks(1)).1 == Some(part.record)
            && |ccs.record| == 14 && |part.record| <= mtu - 14
  {
    hide SealMessage, PackLoop, SealRecord, Context.Valid, Message.Raw, RecordVersion;
    var s := Ready(m, keys);
    PackLoopStep(s, mtu, lucks);
    ChangeSeals(m, keys, mtu, lucks(0));
    var r := SealMessage(s, mtu, lucks(0));
    var s1 := Stepped(s, r);
    PackLoopStep(s1, mtu - 14, lucks);
    MessageSeals(m, keys, s1, mtu - 14, lucks(1));
    var r1 := SealMessage(s1, mtu - 14, lucks(1));
    var s2 := Stepped(s1, r1);
    PackLoopStep(s2, mtu - 14 - |r1.1.sealed.record|, lucks);
    ccs, part := r.1.sealed, r1.1.sealed;
    assert [ccs] + ([part] + []) == [ccs, part];
  }

  // ---- Reading it ----------------------------------------------------------------------------

  lemma {:induction false} EmptyWindow(n: nat)
    ensures !Window(0, 0).ShouldDiscard(n)
  {
  }

  lemma {:induction false} ReadsChange(keys: nat -> Context, mtu: nat, luck: Luck, record: seq<byte>, rest: seq<byte>)
    requires Negotiated(keys) && Switched(keys).Valid() && |record| == 14
    requires SealRecord(Switched(keys), true, SSL3_RT_CHANGE_CIPHER_SPEC, [1], mtu, luck).1 == Some(record)
    ensures var o := OpenRecord(ReadState(0, Window(0, 0), keys(0)), record + rest);
            o.1 == Opened(SSL3_RT_CHANGE_CIPHER_SPEC, [1]) && o.2 == rest
  {
    hide SealRecord, OpenRecord, Context.Valid, Window.ShouldDiscard, Window.Record;
    OpenSealed(Switched(keys), true, SSL3_RT_CHANGE_CIPHER_SPEC, [1], mtu, luck, ReadState(0, Window(0, 0), keys(0)), rest);
    EmptyWindow(0);
  }

  lemma {:induction false} ReadsMessage(m: Message, keys: nat -> Context, maxOut: nat, luck: Luck, record: seq<byte>)
    requires Negotiated(keys) && keys(1).Valid() && Switched(keys).Counted(true).Valid()
    requires |record| <= SSL3_RT_MAX_PLAIN_LENGTH && |m.Raw(0)| <= SSL3_RT_MAX_PLAIN_LENGTH
    requires SealRecord(Switched(keys).Counted(true), false, SSL3_RT_HANDSHAKE, m.Raw(0), maxOut, luck).1 == Some(record)
    ensures record != [] && OpenRecord(ReadState(1, Window(0, 0), keys(1)), record).1 == Opened(SSL3_RT_HANDSHAKE, m.Raw(0))
  {
    hide SealRecord, OpenRecord, Context.Valid, Window.ShouldDiscard, Window.Record, Message.Raw;
    OpenSealed(Switched(keys).Counted(true), false, SSL3_RT_HANDSHAKE, m.Raw(0), maxOut, luck, ReadState(1, Window(0, 0), keys(1)), []);
    EmptyWindow(TWO48);
    assert record + [] == record;
  }

  /** The whole message in one record completes the reassembly. */
  lemma {:induction false} AcceptsWhole(m: Message, maxLen: nat, junk: nat -> byte)
    requires |m.body| < 0x100_0000 && |m.body| <= maxLen
    ensures var a := AcceptRecord(Receiver(0, EmptyRing), m.Raw(0), Env(1, maxLen, junk));
            a.1.None? && a.0.CurrentComplete() && a.0.readSeq == 0
  {
    hide ParseFragment, Header.Bytes;
    RawWhole(m);
    var f, env := m.Slice(0, 0, |m.body|), Env(1, maxLen, junk);
    AcceptShape(Receiver(0, EmptyRing), f, env);
    NewHmValid(f.hdr, junk);
  }

  // ---- The run -------------------------------------------------------------------------------

  /** One more step at the end of a run. */
  lemma {:induction false} RunOn(s: System, done: seq<Action>, s1: System, a: Action, keys: nat -> Context) returns (s2: System)
    requires RunsTo(s, done, s1, keys) && Inv(s1, keys) && (a.Add? ==> |s1.sent| + 1 < TWO16)
    ensures s2 == Act(s1, a, keys) && RunsTo(s, done + [a], s2, keys) && Inv(s2, keys)
    decreases |done|
  {
    hide Act, Inv, Shape;
    InvShape(s1, keys);
    SentByOne(s1, a, keys);
    s2 := Act(s1, a, keys);
    if done == [] {
      assert (done + [a])[1..] == [];
      ActInv(s1, a, keys);
    } else {
      assert (done + [a])[1..] == done[1..] + [a];
      s2 := RunOn(Act(s, done[0], keys), done[1..], s1, a, keys);
    }
  }

  lemma {:induction false} SentByOne(s: System, a: Action, keys: nat -> Context)
    requires Inv(s, keys) && Shape(s, keys)
    ensures |s.sent| < TWO16 && |Act(s, a, keys).sent| <= |s.sent| + if a.Add? then 1 else 0
  {
    hide SendFlight, ReadOne, TakeChange, PacketsTruthful, Keyed, FromHistory, ReaderInv, Sized;
  }

  function SendBoth(m: Message, mtu: nat, turns: nat -> Turn): seq<Action> {
    [AddCcs] + [SwitchWriteTo] + [Add(m)] + [Flush(mtu, turns)]
  }

  function ReadBoth(maxLen: nat, junk: nat -> byte): seq<Action> {
    [Arrive(0)] + [TakeCcs(maxLen, junk)] + [SwitchReadTo] + [Read(maxLen, junk)] + [Get]
  }

  lemma {:induction false} BothQueued(m: Message, keys: nat -> Context) returns (s: System)
    requires Negotiated(keys) && |m.body| < 0x100_0000
    ensures RunsTo(Initially(keys), [AddCcs] + [SwitchWriteTo] + [Add(m)], s, keys) && Inv(s, keys)
    ensures s == Initially(keys).(sender := Ready(m, keys).(complete := false), sent := [m], switches := 1)
  {
    hide RunsTo, Inv, Message.Raw, KeysValid;
    var s0 := Initially(keys);
    InitInv(keys);
    assert RunsTo(s0, [], s0, keys) by { NoRun(s0, keys); }
    var s1 := RunOn(s0, [], s0, AddCcs, keys);
    assert [] + [AddCcs] == [AddCcs];
    assert s1.sender.flight == [] + [OutMessage([], 0, true)] == [OutMessage([], 0, true)];
    var s2 := RunOn(s0, [AddCcs], s1, SwitchWriteTo, keys);
    RawLength(m);
    s := RunOn(s0, [AddCcs] + [SwitchWriteTo], s2, Add(m), keys);
    assert s.sender.flight == [OutMessage([], 0, true)] + [OutMessage(m.Raw(0), 1, false)];
  }

  /** Both records leave in one datagram. */
  lemma {:induction false} BothSent(m: Message, keys: nat -> Context, mtu: nat, turns: nat -> Turn)
    returns (s: System, ccs: Sealed, part: Sealed)
    requires Negotiated(keys) && keys(1).Valid() && |m.body| < 0x100_0000 && Roomy(m, mtu, keys(1))
    requires turns(0).bio > 0 && forall i :: turns(0).lucks(i).cipherOk
    ensures RunsTo(Initially(keys), SendBoth(m, mtu, turns), s, keys) && Inv(s, keys)
    ensures s.sent == [m] && s.wire == [[ccs, part]] && s.reader == Initially(keys).reader && s.released == []
    ensures var w := Switched(keys);
            && w.Valid() && w.Counted(true).Valid() && |ccs.record| == 14 && |part.record| <= mtu - 14
            && SealRecord(w, true, SSL3_RT_CHANGE_CIPHER_SPEC, [1], mtu, turns(0).lucks(0)).1 == Some(ccs.record)
            && SealRecord(w.Counted(true), false, SSL3_RT_HANDSHAKE, m.Raw(0), mtu - 14, turns(0).lucks(1)).1 == Some(part.record)
  {
    hide RunsTo, Inv, SealPacket, SendFlight, SealRecord, Message.Raw, KeysValid;
    var s3 := BothQueued(m, keys);
    InvShape(s3, keys);
    s := RunOn(Initially(keys), [AddCcs] + [SwitchWriteTo] + [Add(m)], s3, Flush(mtu, turns), keys);
    assert s3.sender.(complete := true) == Ready(m, keys);
    ccs, part := OnePacket(m, keys, mtu, turns(0).lucks);
    var p := SealPacket(Ready(m, keys), mtu, turns(0).lucks);
    SendFlightStep(Ready(m, keys), mtu, turns, 0);
    SendFlightStep(p.0, mtu, turns, 1);
    assert s.wire == [] + ([[ccs, part]] + []);
  }

  /**
   * When the message cannot be sealed in the same packet: such a run has written nothing, but its cursor has passed the
   * ChangeCipherSpec.
   */
  lemma {:induction false} ChangeIsLost(m: Message, keys: nat -> Context, mtu: nat, turns: nat -> Turn) returns (s: System)
    requires Negotiated(keys) && keys(1).Valid() && !keys(1).kind.Null? && |m.body| < 0x100_0000 && Roomy(m, mtu, keys(1))
    requires !turns(0).lucks(1).cipherOk
    ensures RunsTo(Initially(keys), SendBoth(m, mtu, turns), s, keys)
    ensures s.wire == [] && At(s.sender) == Cursor(1, 0)
  {
    hide RunsTo, Inv, SendFlight, Message.Raw, KeysValid;
    var s3 := BothQueued(m, keys);
    InvShape(s3, keys);
    s := RunOn(Initially(keys), [AddCcs] + [SwitchWriteTo] + [Add(m)], s3, Flush(mtu, turns), keys);
    assert s3.sender.(complete := true) == Ready(m, keys);
    KeyValid(keys, 0);
    DropOccurs(m, keys(0), keys(1), 0, mtu, turns);
  }

  lemma {:induction false} RawLength(m: Message)
    ensures |m.Raw(0)| == DTLS1_HM_HEADER_LENGTH + |m.body|
  {
    assert m.body[0..|m.body|] == m.body;
  }

  lemma {:induction false} NoRun(s: System, keys: nat -> Context)
    ensures RunsTo(s, [], s, keys)
  {
  }

  /** Read, take and switch, then read the rest of the datagram. */
  lemma {:induction false} ReadsBoth(m: Message, keys: nat -> Context, mtu: nat, lucks: nat -> Luck,
                                     ccs: seq<byte>, part: seq<byte>, maxLen: nat, junk: nat -> byte)
    requires Negotiated(keys) && keys(1).Valid() && |m.body| < 0x100_0000 && Roomy(m, mtu, keys(1)) && |m.body| <= maxLen
    requires Switched(keys).Valid() && Switched(keys).Counted(true).Valid() && |ccs| == 14 && |part| <= mtu - 14
    requires SealRecord(Switched(keys), true, SSL3_RT_CHANGE_CIPHER_SPEC, [1], mtu, lucks(0)).1 == Some(ccs)
    requires SealRecord(Switched(keys).Counted(true), false, SSL3_RT_HANDSHAKE, m.Raw(0), mtu - 14, lucks(1)).1 == Some(part)
    ensures var r0 := Initially(keys).reader;
            && r0.Shape()
            && var r1 := Load(r0, ccs + part);
            && r1.Shape()
            && var r2 := TakeChange(r1, maxLen, junk);
            && var r3 := SwitchRead(r2, keys(1));
            && r2.record.epoch == 0 && r3.Shape()
            && var r4 := ReadOne(r3, maxLen, junk);
            && r4.record.epoch == 1 && r4.ring.CurrentComplete() && !r4.hasMessage && !r4.sawCcs && !r4.failed
  {
    hide OpenRecord, SealRecord, Message.Raw, KeysValid, AcceptRecord, Hm.Complete, Hm.Valid, Context.Valid;
    ReadsChange(keys, mtu, lucks(0), ccs, part);
    RawLength(m);
    ReadsMessage(m, keys, mtu - 14, lucks(1), part);
    AcceptsWhole(m, maxLen, junk);
  }

  /**
   * Across the cipher change: with any keys, the ChangeCipherSpec is read and taken, the read epoch becomes 1, and
   * the message sealed under the keys of epoch 1 is released.
   */
  lemma {:induction false} NewEpochIsReleased(m: Message, keys: nat -> Context, mtu: nat, turns: nat -> Turn, maxLen: nat, junk: nat -> byte)
    returns (s: System)
    requires Negotiated(keys) && keys(1).Valid() && |m.body| < 0x100_0000 && Roomy(m, mtu, keys(1)) && |m.body| <= maxLen
    requires turns(0).bio > 0 && forall i :: turns(0).lucks(i).cipherOk
    ensures RunsTo(Initially(keys), SendBoth(m, mtu, turns) + ReadBoth(maxLen, junk), s, keys)
    ensures s.reader.record.epoch == 1 && !s.reader.sawCcs && !s.reader.failed && s.released == [m.Raw(0)]
  {
    hide RunsTo, Inv, SealRecord, Message.Raw, KeysValid, Load, TakeChange, SwitchRead, ReadOne, SendFlight, AddMessage, AddOutgoing,
         SwitchWrite, Roomy, Context.Valid;
    var s0 := Initially(keys);
    var s4, ccs, part := BothSent(m, keys, mtu, turns);
    var sent := SendBoth(m, mtu, turns);
    TwoRecords(ccs, part);
    ReadsBoth(m, keys, mtu, turns(0).lucks, ccs.record, part.record, maxLen, junk);
    var s5 := RunOn(s0, sent, s4, Arrive(0), keys);
    var s6 := RunOn(s0, sent + [Arrive(0)], s5, TakeCcs(maxLen, junk), keys);
    var s7 := RunOn(s0, sent + [Arrive(0)] + [TakeCcs(maxLen, junk)], s6, SwitchReadTo, keys);
    var s8 := RunOn(s0, sent + [Arrive(0)] + [TakeCcs(maxLen, junk)] + [SwitchReadTo], s7, Read(maxLen, junk), keys);
    s := RunOn(s0, sent + [Arrive(0)] + [TakeCcs(maxLen, junk)] + [SwitchReadTo] + [Read(maxLen, junk)], s8, Get, keys);
    assert sent + [Arrive(0)] + [TakeCcs(maxLen, junk)] + [SwitchReadTo] + [Read(maxLen, junk)] + [Get]
        == sent + ReadBoth(maxLen, junk);
    FirstReleased(s, keys);
  }

  lemma {:induction false} TwoRecords(a: Sealed, b: Sealed)
    ensures Bytes([a, b]) == a.record + b.record
  {
    assert [a, b][1..] == [b] && [b][1..] == [];
    assert Bytes([b]) == b.record + [];
  }

  lemma {:induction false} FirstReleased(s: System, keys: nat -> Context)
    requires Inv(s, keys) && |s.sent| == 1 && s.reader.hasMessage
    ensures s.released == [s.sent[0].Raw(0)]
  {
    hide SenderInv, Message.Raw, KeysValid, Follows, Unread, Reader.Shape;
    assert Raws(s.sent) == [s.sent[0].Raw(0)];
  }
}

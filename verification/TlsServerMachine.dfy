/** The server's state machine in place: the `do_` functions and the loop of `ssl_server_handshake`. */
module TlsServerMachine {
  import opened Common
  import opened TlsHandshake
  import opened TlsServer

  /** Some turns of the loop: until `Done`, or until a step has to wait. */
  function Turns(c: Config, e: Server, inbox: seq<Wire>, inputs: nat -> Input, k: nat, mac: Mac): (Server, seq<Wire>)
    requires Inv(c, e)
    decreases Rank(c, e.state)
  {
    if e.state == Done then (e, inbox)
    else
      StepInv(c, e, inbox, inputs(k), mac);
      var mv, e' := Plan(c, e, inbox, inputs(k), mac), Step(c, e, inbox, inputs(k), mac);
      if !e'.wait.Ok? || !mv.Move? then (e', AfterMove(inbox, mv)) else Turns(c, e', AfterMove(inbox, mv), inputs, k + 1, mac)
  }

  /** A step stops for a message only when none has come. */
  lemma {:induction false} WaitsForMissing(c: Config, s: State, peerCert: bool, p: Peeked, i: Input, expected: seq<byte>)
    ensures var mv := Decide(c, s, peerCert, p, i, expected);
            mv.wait.ReadMessage? && mv.Stop? ==> p.Nothing?
  {
    hide Leads, MoveMilestones, OutMilestones, OutEntries, OutsGenuine;
  }

  /** Turns never go back; when they get nowhere, the first of them had to wait. */
  lemma {:induction false} TurnsProgress(c: Config, e: Server, inbox: seq<Wire>, inputs: nat -> Input, k: nat, mac: Mac)
    requires Inv(c, e) && e.wait.Ok?
    ensures var r := Turns(c, e, inbox, inputs, k, mac).0;
            && Inv(c, r) && Rank(c, r.state) <= Rank(c, e.state)
            && (r.wait.Ok? ==> r.state == Done)
            && (Rank(c, r.state) == Rank(c, e.state) && !r.wait.Ok? ==> Weight(r.wait) <= if inbox == [] then 1 else 0)
    decreases Rank(c, e.state)
  {
    hide Step, Plan, Inv, Rank, Turns;
    if e.state == Done {
      DoneTurns(c, e, inbox, inputs, k, mac);
    } else {
      TurnsStep(c, e, inbox, inputs, k, mac);
      FirstStop(c, e, inbox, inputs(k), mac);
      var mv, e' := Plan(c, e, inbox, inputs(k), mac), Step(c, e, inbox, inputs(k), mac);
      if e'.wait.Ok? { TurnsProgress(c, e', AfterMove(inbox, mv), inputs, k + 1, mac); }
    }
  }

  lemma {:induction false} DoneTurns(c: Config, e: Server, inbox: seq<Wire>, inputs: nat -> Input, k: nat, mac: Mac)
    requires Inv(c, e) && e.state == Done
    ensures Turns(c, e, inbox, inputs, k, mac) == (e, inbox)
  {
  }

  /** A step that stays where it is waits for a message that has not come, or for something else that ends the call. */
  lemma {:induction false} FirstStop(c: Config, e: Server, inbox: seq<Wire>, i: Input, mac: Mac)
    requires Inv(c, e) && e.state != Done
    ensures var e' := Step(c, e, inbox, i, mac);
            if e'.state == e.state then Weight(e'.wait) <= if inbox == [] then 1 else 0
            else Rank(c, e'.state) < Rank(c, e.state)
  {
    hide Decide, Rank, Next, Sound;
    var p, expected := Peek(e.readEpoch, inbox), mac(e.transcript, false);
    StepInv(c, e, inbox, i, mac);
    DecideLeads(c, e.state, e.peerCert, p, i, expected);
    WaitsForMissing(c, e.state, e.peerCert, p, i, expected);
  }

  /** `ssl_run_handshake`: resolve what is waited for, run the steps, and again, until the call has to return. */
  function Drive(c: Config, e: Server, inbox: seq<Wire>, flushOk: nat -> bool, inputs: nat -> nat -> Input, k: nat, mac: Mac)
    : (Server, seq<Wire>, Outcome)
    requires Inv(c, e)
    decreases 3 * Rank(c, e.state) + Weight(e.wait)
  {
    hide Inv, Turns, Rank;
    var stop := Returns(e, inbox, flushOk(k));
    if stop.Some? then (e.(wait := stop.value.0), inbox, stop.value.1)
    else
      var r := Resume(e, inbox, flushOk(k));
      ResumedInv(c, e, inbox, flushOk(k));
      var t := Turns(c, r.end, if r.took then inbox[1..] else inbox, inputs(k), 0, mac);
      TurnsProgress(c, r.end, if r.took then inbox[1..] else inbox, inputs(k), 0, mac);
      if t.0.wait.Failed? then (t.0, t.1, Error)
      else if t.0.wait.Ok? then (t.0, t.1, Complete)
      else Drive(c, t.0, t.1, flushOk, inputs, k + 1, mac)
  }

  lemma {:induction false} ResumedInv(c: Config, e: Server, inbox: seq<Wire>, flushOk: bool)
    requires Inv(c, e) && Returns(e, inbox, flushOk).None?
    ensures var r := Resume(e, inbox, flushOk);
            Inv(c, r.end) && r.end.wait.Ok? && r.end.state == e.state && (r.took ==> inbox != [])
            && (e.wait.ReadMessage? ==> inbox != [] && !r.took)
  {
    hide Milestones, Stage, Count;
  }

  class ServerHandshake {
    const c: Config
    const mac: Mac
    var state: State
    var inbox: seq<Wire>
    var transcript: seq<Msg>
    var readEpoch: nat
    var writeEpoch: nat
    var peerCert: bool
    var pending: seq<Wire>
    ghost var milestones: seq<Milestone>

    ghost function View(): Server
      reads this
    {
      End(state, Ok, transcript, readEpoch, writeEpoch, false, peerCert, pending, milestones)
    }

    /** The method has done what the step of the state decides, and returns what it waits for. */
    ghost predicate Did(was: Server, box: seq<Wire>, i: Input, ret: Wait)
      reads this
    {
      && View().(wait := ret) == Step(c, was, box, i, mac)
      && inbox == AfterMove(box, Plan(c, was, box, i, mac))
    }

    constructor (c: Config, mac: Mac)
      ensures this.c == c && this.mac == mac && View() == TlsServer.Start && inbox == []
    {
      this.c, this.mac := c, mac;
      state, inbox, transcript, readEpoch, writeEpoch, peerCert, pending := StartAccept, [], [], 0, 0, false, [];
      milestones := [];
    }

    // ---- What the steps call -------------------------------------------------------------------

    /** `ssl_hash_message`. */
    method HashMessage(m: Msg)
      modifies this`transcript
      ensures View() == old(View()).Hash(m, false)
    {
      transcript := transcript + [m];
    }

    /** `next_message`. */
    method NextMessage()
      requires inbox != [] && inbox[0].item.Message?
      modifies this`inbox
      ensures inbox == old(inbox)[1..] && View() == old(View())
    {
      inbox := inbox[1..];
    }

    method AddMessage(typ: MsgType, body: seq<byte>)
      modifies this`transcript, this`pending
      ensures View() == old(View()).Add(Msg(typ, body))
    {
      transcript := transcript + [Msg(typ, body)];
      pending := pending + [Wire(writeEpoch, Message(Msg(typ, body)))];
    }

    method AddChangeCipherSpec()
      modifies this`pending, this`writeEpoch, this`milestones
      ensures View() == old(View()).AddOne(SendCcs, mac, true)
    {
      pending := pending + [Wire(writeEpoch, Ccs)];
      writeEpoch := writeEpoch + 1;
      milestones := milestones + [SwitchedWrite];
    }

    method SendFinished()
      modifies this`transcript, this`pending, this`milestones
      ensures View() == old(View()).AddOne(Out.SendFinished, mac, true)
    {
      var finished := mac(transcript, true);
      AddMessage(Finished, finished);
      milestones := milestones + [Milestone.SentFinished];
    }

    /** `get_message`, `ssl_check_message_type` and what follows when the message parses. */
    method ExpectMessage(typ: MsgType, ok: bool, next: State) returns (ret: Wait)
      modifies this`transcript, this`inbox, this`state
      ensures var mv := Expect(Peek(readEpoch, old(inbox)), typ, ok, next);
              View().(wait := ret) == old(View()).Apply(mv, old(inbox), mac, true) && inbox == AfterMove(old(inbox), mv)
    {
      var p := Peek(readEpoch, inbox);
      if !p.Got? { return if p.Nothing? then ReadMessage else Failed(UnexpectedRecord); }
      if p.msg.typ != typ { return Failed(UnexpectedMessage); }
      if !ok { return Failed(Internal); }
      HashMessage(inbox[0].item.msg);
      NextMessage();
      state := next;
      ret := Ok;
    }

    // ---- The steps -----------------------------------------------------------------------------

    method DoStartAccept(i: Input) returns (ret: Wait)
      requires state == StartAccept
      modifies this
      ensures Did(old(View()), old(inbox), i, ret)
    {
      hide Leads, OutEntries, OutMilestones, MoveMilestones, OutsGenuine, PlainMark, JustSends;
      state := ReadClientHello;
      ret := Ok;
    }

    /** The message stays where it is: `next_message` comes two steps later. */
    method DoReadClientHello(i: Input) returns (ret: Wait)
      requires state == ReadClientHello
      modifies this
      ensures Did(old(View()), old(inbox), i, ret)
    {
      hide Leads, OutEntries, OutMilestones, MoveMilestones, OutsGenuine, PlainMark, JustSends;
      var p := Peek(readEpoch, inbox);
      if !p.Got? { return if p.Nothing? then ReadMessage else Failed(UnexpectedRecord); }
      if p.msg.typ != ClientHello { return Failed(UnexpectedMessage); }
      if i.callback.Refuse? { return Failed(Internal); }
      if i.callback.Later? { return Retry; }
      if !i.ok { return Failed(Internal); }
      state := SelectCertificate;
      ret := Ok;
    }

    method DoSelectCertificate(i: Input) returns (ret: Wait)
      requires state == SelectCertificate
      modifies this
      ensures Did(old(View()), old(inbox), i, ret)
    {
      hide Leads, OutEntries, OutMilestones, MoveMilestones, OutsGenuine, PlainMark, JustSends;
      var p := Peek(readEpoch, inbox);
      if !p.Got? { return if p.Nothing? then ReadMessage else Failed(UnexpectedRecord); }
      if i.callback.Refuse? { return Failed(Internal); }
      if i.callback.Later? { return Retry; }
      if !i.ok { return Failed(Internal); }
      state := SelectParameters;
      ret := Ok;
    }

    method DoSelectParameters(i: Input) returns (ret: Wait)
      requires state == SelectParameters
      modifies this
      ensures Did(old(View()), old(inbox), i, ret)
    {
      hide Leads, OutEntries, OutMilestones, MoveMilestones, OutsGenuine, PlainMark, JustSends;
      var p := Peek(readEpoch, inbox);
      if !p.Got? { return if p.Nothing? then ReadMessage else Failed(UnexpectedRecord); }
      if i.callback.Refuse? { return Failed(Internal); }
      if i.callback.Later? { return Retry; }
      if !i.ok { return Failed(Internal); }
      HashMessage(inbox[0].item.msg);
      NextMessage();
      state := SendServerHello;
      ret := Ok;
    }

    method DoSendServerHello(i: Input) returns (ret: Wait)
      requires state == SendServerHello
      modifies this
      ensures Did(old(View()), old(inbox), i, ret)
    {
      hide Leads, OutEntries, OutMilestones, MoveMilestones, OutsGenuine, PlainMark, JustSends;
      if !i.ok { return Failed(Internal); }
      AddAllOne<State>(SendMessage(Msg(ServerHello, i.bodies(ServerHello))), mac, true);
      AddMessage(ServerHello, i.bodies(ServerHello));
      state := if c.resume then SendServerFinished else SendServerCertificate;
      ret := Ok;
    }

    method DoSendServerCertificate(i: Input) returns (ret: Wait)
      requires state == SendServerCertificate
      modifies this
      ensures Did(old(View()), old(inbox), i, ret)
    {
      hide Leads, OutEntries, OutMilestones, MoveMilestones, OutsGenuine, PlainMark, JustSends;
      if !i.ok { return Failed(Internal); }
      if c.CertAuth() {
        if i.bodies(Certificate) == [0, 0, 0] { return Failed(Internal); }
        ghost var cert, status := SendMessage(Msg(Certificate, i.bodies(Certificate))), SendMessage(Msg(CertificateStatus, i.bodies(CertificateStatus)));
        AddAllOne<State>(cert, mac, true);
        AddAllOne<State>(status, mac, true);
        AddAllMore<State>(cert, [status], mac, true);
        AddMessage(Certificate, i.bodies(Certificate));
        if c.ocsp { AddMessage(CertificateStatus, i.bodies(CertificateStatus)); }
      }
      state := SendServerKeyExchange;
      ret := Ok;
    }

    method DoSendServerKeyExchange(i: Input) returns (ret: Wait)
      requires state == SendServerKeyExchange
      modifies this
      ensures Did(old(View()), old(inbox), i, ret)
    {
      hide Leads, OutEntries, OutMilestones, MoveMilestones, OutsGenuine, PlainMark, JustSends;
      if c.SendsSke() {
        if c.CertAuth() && i.callback.Later? { return Retry; }
        if !i.ok || (c.CertAuth() && i.callback.Refuse?) { return Failed(Internal); }
        AddAllOne<State>(SendMessage(Msg(ServerKeyExchange, i.bodies(ServerKeyExchange))), mac, true);
        AddMessage(ServerKeyExchange, i.bodies(ServerKeyExchange));
      }
      state := SendServerHelloDone;
      ret := Ok;
    }

    method DoSendServerHelloDone(i: Input) returns (ret: Wait)
      requires state == SendServerHelloDone
      modifies this
      ensures Did(old(View()), old(inbox), i, ret)
    {
      hide Leads, OutEntries, OutMilestones, MoveMilestones, OutsGenuine, PlainMark, JustSends;
      if !i.ok { return Failed(Internal); }
      ghost var request, done := SendMessage(Msg(CertificateRequest, i.bodies(CertificateRequest))), SendMessage(Msg(ServerHelloDone, []));
      AddAllOne<State>(done, mac, true);
      AddAllMore<State>(request, [done], mac, true);
      if c.requestsCert { AddMessage(CertificateRequest, i.bodies(CertificateRequest)); }
      AddMessage(ServerHelloDone, []);
      state := ReadClientCertificate;
      ret := Flush;
    }

    method DoReadClientCertificate(i: Input) returns (ret: Wait)
      requires state == ReadClientCertificate
      modifies this
      ensures Did(old(View()), old(inbox), i, ret)
    {
      hide Leads, OutEntries, OutMilestones, MoveMilestones, OutsGenuine, PlainMark, JustSends;
      if c.requestsCert {
        var p := Peek(readEpoch, inbox);
        if !p.Got? { return if p.Nothing? then ReadMessage else Failed(UnexpectedRecord); }
        if p.msg.typ != Certificate { return Failed(UnexpectedMessage); }
        if !i.ok || (EmptyChain(p.msg) && c.requiresCert) { return Failed(Internal); }
        HashMessage(inbox[0].item.msg);
        NextMessage();
        peerCert := peerCert || !EmptyChain(p.msg);
      }
      state := VerifyClientCertificate;
      ret := Ok;
    }

    method DoVerifyClientCertificate(i: Input) returns (ret: Wait)
      requires state == VerifyClientCertificate
      modifies this
      ensures Did(old(View()), old(inbox), i, ret)
    {
      hide Leads, OutEntries, OutMilestones, MoveMilestones, OutsGenuine, PlainMark, JustSends;
      if peerCert {
        match i.callback {
          case Refuse => return Failed(Internal);
          case Later => return Retry;
          case Proceed => milestones := milestones + [VerifiedCert];
        }
      }
      state := ReadClientKeyExchange;
      ret := Ok;
    }

    method DoReadClientKeyExchange(i: Input) returns (ret: Wait)
      requires state == ReadClientKeyExchange
      modifies this
      ensures Did(old(View()), old(inbox), i, ret)
    {
      hide Leads, OutEntries, OutMilestones, MoveMilestones, OutsGenuine, PlainMark, JustSends;
      var p := Peek(readEpoch, inbox);
      if !p.Got? { return if p.Nothing? then ReadMessage else Failed(UnexpectedRecord); }
      if p.msg.typ != ClientKeyExchange { return Failed(UnexpectedMessage); }
      if c.kx.Rsa? && i.callback.Later? { return Retry; }
      if !i.ok || (c.kx.Rsa? && i.callback.Refuse?) { return Failed(Internal); }
      HashMessage(inbox[0].item.msg);
      NextMessage();
      milestones := milestones + [KeyExchanged];
      state := ReadClientCertificateVerify;
      ret := Ok;
    }

    method DoReadClientCertificateVerify(i: Input) returns (ret: Wait)
      requires state == ReadClientCertificateVerify
      modifies this
      ensures Did(old(View()), old(inbox), i, ret)
    {
      hide Leads, OutEntries, OutMilestones, MoveMilestones, OutsGenuine, PlainMark, JustSends;
      if !peerCert {
        state := ReadChangeCipherSpec;
        return Ok;
      }
      ret := ExpectMessage(CertificateVerify, i.ok, ReadChangeCipherSpec);
    }

    method DoReadChangeCipherSpec(i: Input) returns (ret: Wait)
      requires state == ReadChangeCipherSpec
      modifies this
      ensures Did(old(View()), old(inbox), i, ret)
    {
      hide Leads, OutEntries, OutMilestones, MoveMilestones, OutsGenuine, PlainMark, JustSends;
      state := ProcessChangeCipherSpec;
      ret := ReadCcs;
    }

    method DoProcessChangeCipherSpec(i: Input) returns (ret: Wait)
      requires state == ProcessChangeCipherSpec
      modifies this
      ensures Did(old(View()), old(inbox), i, ret)
    {
      hide Leads, OutEntries, OutMilestones, MoveMilestones, OutsGenuine, PlainMark, JustSends;
      if !i.ok { return Failed(Internal); }
      readEpoch := readEpoch + 1;
      milestones := milestones + [SwitchedRead];
      state := ReadNextProto;
      ret := Ok;
    }

    method DoReadNextProto(i: Input) returns (ret: Wait)
      requires state == ReadNextProto
      modifies this
      ensures Did(old(View()), old(inbox), i, ret)
    {
      hide Leads, OutEntries, OutMilestones, MoveMilestones, OutsGenuine, PlainMark, JustSends;
      if !c.npn {
        state := ReadChannelId;
        return Ok;
      }
      ret := ExpectMessage(NextProto, i.ok, ReadChannelId);
    }

    method DoReadChannelId(i: Input) returns (ret: Wait)
      requires state == ReadChannelId
      modifies this
      ensures Did(old(View()), old(inbox), i, ret)
    {
      hide Leads, OutEntries, OutMilestones, MoveMilestones, OutsGenuine, PlainMark, JustSends;
      if !c.channelId {
        state := ReadClientFinished;
        return Ok;
      }
      ret := ExpectMessage(ChannelId, i.ok, ReadClientFinished);
    }

    /** With `ssl_get_finished`: the MAC is taken before the message is hashed. */
    method DoReadClientFinished(i: Input) returns (ret: Wait)
      requires state == ReadClientFinished
      modifies this
      ensures Did(old(View()), old(inbox), i, ret)
    {
      hide Leads, OutEntries, OutMilestones, MoveMilestones, OutsGenuine, PlainMark, JustSends;
      var p := Peek(readEpoch, inbox);
      if !p.Got? { return if p.Nothing? then ReadMessage else Failed(UnexpectedRecord); }
      if p.msg.typ != Finished { return Failed(UnexpectedMessage); }
      var finished := mac(transcript, false);
      if p.msg.body != finished { return Failed(BadFinished); }
      HashMessage(inbox[0].item.msg);
      NextMessage();
      milestones := milestones + [CheckedFinished];
      state := if c.resume then FinishServerHandshake else SendServerFinished;
      ret := Ok;
    }

    /** The ticket if there is one, ChangeCipherSpec and Finished, in this order. */
    method SendFlight(i: Input)
      modifies this`transcript, this`pending, this`milestones, this`writeEpoch
      ensures View() == old(View()).AddAll(FlightOf(i), mac, true)
    {
      hide LastFlight, End.AddAll;
      LastFlightInOrder(i);
      if c.ticket { AddMessage(NewSessionTicket, i.bodies(NewSessionTicket)); }
      AddChangeCipherSpec();
      SendFinished();
    }

    function FlightOf(i: Input): seq<Out> {
      LastFlight(c, SendMessage(Msg(NewSessionTicket, i.bodies(NewSessionTicket))))
    }

    /** The flight, one addition after the other. */
    lemma {:induction false} LastFlightInOrder(i: Input)
      ensures var ticket := Msg(NewSessionTicket, i.bodies(NewSessionTicket));
              forall e: Server ::
                e.AddAll(LastFlight(c, SendMessage(ticket)), mac, true) ==
                (var e1 := if c.ticket then e.Add(ticket) else e;
                 e1.AddOne(SendCcs, mac, true).AddOne(Out.SendFinished, mac, true))
    {
      var ticket := SendMessage(Msg(NewSessionTicket, i.bodies(NewSessionTicket)));
      var last := [SendCcs] + [Out.SendFinished];
      AddAllOne<State>(Out.SendFinished, mac, true);
      AddAllMore<State>(SendCcs, [Out.SendFinished], mac, true);
      AddAllMore<State>(ticket, last, mac, true);
      assert [] + last == last;
    }

    /** Sending commutes with what a step sets besides. */
    lemma {:induction false} AddAllFrame(e: Server, outs: seq<Out>)
      ensures forall s: State, w: Wait ::
                e.(state := s).AddAll(outs, mac, true).(wait := w) == e.(state := s, wait := w).AddAll(outs, mac, true)
      decreases |outs|
    {
      if outs != [] { AddAllFrame(e.AddOne(outs[0], mac, true), outs[1..]); }
      forall s: State, w: Wait
        ensures e.(state := s).AddAll(outs, mac, true).(wait := w) == e.(state := s, wait := w).AddAll(outs, mac, true)
      {
        if outs != [] {
          var e1 := e.AddOne(outs[0], mac, true);
          assert e.(state := s).AddOne(outs[0], mac, true) == e1.(state := s);
          assert e.(state := s, wait := w).AddOne(outs[0], mac, true) == e1.(state := s, wait := w);
        }
      }
    }

    method DoSendServerFinished(i: Input) returns (ret: Wait)
      requires state == SendServerFinished
      modifies this
      ensures Did(old(View()), old(inbox), i, ret)
    {
      hide Leads, OutEntries, OutMilestones, MoveMilestones, OutsGenuine, PlainMark, JustSends, LastFlight, End.AddAll;
      if !i.ok { return Failed(Internal); }
      ghost var was := View();
      AddAllFrame(was, FlightOf(i));
      state := if c.resume then ReadChangeCipherSpec else FinishServerHandshake;
      SendFlight(i);
      assert was.milestones + [] + [] == was.milestones;
      ret := Flush;
    }

    method DoFinishServerHandshake(i: Input) returns (ret: Wait)
      requires state == FinishServerHandshake
      modifies this
      ensures Did(old(View()), old(inbox), i, ret)
    {
      hide Leads, OutEntries, OutMilestones, MoveMilestones, OutsGenuine, PlainMark, JustSends;
      state := Done;
      ret := Ok;
    }

    /** One turn of the loop. */
    method DoState(i: Input) returns (ret: Wait)
      requires state != Done
      modifies this
      ensures Did(old(View()), old(inbox), i, ret)
    {
      hide Did;
      match state {
        case StartAccept => ret := DoStartAccept(i);
        case ReadClientHello => ret := DoReadClientHello(i);
        case SelectCertificate => ret := DoSelectCertificate(i);
        case SelectParameters => ret := DoSelectParameters(i);
        case SendServerHello => ret := DoSendServerHello(i);
        case SendServerCertificate => ret := DoSendServerCertificate(i);
        case SendServerKeyExchange => ret := DoSendServerKeyExchange(i);
        case SendServerHelloDone => ret := DoSendServerHelloDone(i);
        case ReadClientCertificate => ret := DoReadClientCertificate(i);
        case VerifyClientCertificate => ret := DoVerifyClientCertificate(i);
        case ReadClientKeyExchange => ret := DoReadClientKeyExchange(i);
        case ReadClientCertificateVerify => ret := DoReadClientCertificateVerify(i);
        case ReadChangeCipherSpec => ret := DoReadChangeCipherSpec(i);
        case ProcessChangeCipherSpec => ret := DoProcessChangeCipherSpec(i);
        case ReadNextProto => ret := DoReadNextProto(i);
        case ReadChannelId => ret := DoReadChannelId(i);
        case ReadClientFinished => ret := DoReadClientFinished(i);
        case SendServerFinished => ret := DoSendServerFinished(i);
        case FinishServerHandshake => ret := DoFinishServerHandshake(i);
      }
    }

    /** `ssl_server_handshake`: the loop ends, since its rank falls with every turn that does not wait. */
    method Handshake(inputs: nat -> Input) returns (ret: Wait)
      requires Inv(c, View())
      modifies this
      ensures Inv(c, View()) && (View().(wait := ret), inbox) == Turns(c, old(View()), old(inbox), inputs, 0, mac)
      ensures ret.Ok? ==> state == Done
    {
      hide Step, Plan, Inv;
      var k: nat := 0;
      while state != Done
        invariant Inv(c, View())
        invariant Turns(c, View(), inbox, inputs, k, mac) == Turns(c, old(View()), old(inbox), inputs, 0, mac)
        decreases Rank(c, state)
      {
        ghost var was, box := View(), inbox;
        TurnsStep(c, was, box, inputs, k, mac);
        ret := DoState(inputs(k));
        InvFrame(c, Step(c, was, box, inputs(k), mac));
        if ret != Ok { return; }
        k := k + 1;
      }
      ret := Ok;
    }

    /** The switch of `ssl_run_handshake`: the wait is resolved, or the call has to return. */
    method Resolve(wait: Wait, flushOk: bool) returns (stop: Option<(Wait, Outcome)>)
      modifies this`pending, this`inbox
      ensures stop == Returns(old(View()).(wait := wait), old(inbox), flushOk)
      ensures var r := Resume(old(View()).(wait := wait), old(inbox), flushOk);
              if stop.Some? then View() == old(View()) && inbox == old(inbox)
              else View() == r.end && r.end.wait.Ok? && (r.took ==> old(inbox) != []) && inbox == if r.took then old(inbox)[1..] else old(inbox)
    {
      match wait {
        case Failed(_) => return Some((wait, Error));
        case Flush =>
          if !flushOk { return Some((Flush, Blocked)); }
          pending := [];
        case ReadMessage =>
          if inbox == [] { return Some((ReadMessage, Blocked)); }
        case ReadCcs =>
          if inbox == [] { return Some((ReadCcs, Blocked)); }
          if inbox[0] != Wire(readEpoch, Ccs) { return Some((Failed(UnexpectedRecord), Error)); }
          inbox := inbox[1..];
        case Retry => return Some((Ok, Blocked));
        case EarlyReturn => return Some((Ok, Early));
        case Ok =>
      }
      stop := None;
    }

    /** `ssl_run_handshake`, for `hs->wait`: each round resolves the wait and runs the steps until one has to wait again. */
    method RunHandshake(wait: Wait, flushOk: nat -> bool, inputs: nat -> nat -> Input) returns (wait': Wait, outcome: Outcome)
      requires Inv(c, View().(wait := wait))
      modifies this
      ensures (View().(wait := wait'), inbox, outcome) == Drive(c, old(View()).(wait := wait), old(inbox), flushOk, inputs, 0, mac)
    {
      hide Inv, Turns, Weight, Returns, Resume;
      wait' := wait;
      var k: nat := 0;
      while true
        invariant Inv(c, View().(wait := wait'))
        invariant Drive(c, View().(wait := wait'), inbox, flushOk, inputs, k, mac)
               == Drive(c, old(View()).(wait := wait), old(inbox), flushOk, inputs, 0, mac)
        decreases 3 * Rank(c, state) + Weight(wait')
      {
        ghost var was, box := View().(wait := wait'), inbox;
        var stop := Resolve(wait', flushOk(k));
        if stop.Some? { return stop.value.0, stop.value.1; }
        DriveStep(c, was, box, flushOk, inputs, k, mac);
        wait' := Handshake(inputs(k));
        if wait'.Failed? { return wait', Error; }
        if wait'.Ok? { return Ok, Complete; }
        k := k + 1;
      }
    }
  }

  lemma {:induction false} DriveStep(c: Config, e: Server, inbox: seq<Wire>, flushOk: nat -> bool, inputs: nat -> nat -> Input, k: nat, mac: Mac)
    requires Inv(c, e) && Returns(e, inbox, flushOk(k)).None?
    ensures var r := Resume(e, inbox, flushOk(k));
            && Inv(c, r.end) && r.end.wait.Ok? && (r.took ==> inbox != [])
            && (var t := Turns(c, r.end, if r.took then inbox[1..] else inbox, inputs(k), 0, mac);
                && Inv(c, t.0)
                && Drive(c, e, inbox, flushOk, inputs, k, mac) ==
                   (if t.0.wait.Failed? then (t.0, t.1, Error)
                    else if t.0.wait.Ok? then (t.0, t.1, Complete)
                    else Drive(c, t.0, t.1, flushOk, inputs, k + 1, mac))
                && (t.0.wait.Ok? || 3 * Rank(c, t.0.state) + Weight(t.0.wait) < 3 * Rank(c, e.state) + Weight(e.wait)))
  {
    hide Inv, Turns, Rank;
    var r := Resume(e, inbox, flushOk(k));
    ResumedInv(c, e, inbox, flushOk(k));
    TurnsProgress(c, r.end, if r.took then inbox[1..] else inbox, inputs(k), 0, mac);
  }

  lemma {:induction false} InvFrame(c: Config, e: Server)
    requires Inv(c, e)
    ensures Inv(c, e.(wait := Ok))
  {
    WaitKeeps(e, Ok);
  }

  lemma {:induction false} TurnsStep(c: Config, e: Server, inbox: seq<Wire>, inputs: nat -> Input, k: nat, mac: Mac)
    requires Inv(c, e) && e.state != Done && e.wait.Ok?
    ensures var mv, e' := Plan(c, e, inbox, inputs(k), mac), Step(c, e, inbox, inputs(k), mac);
            && Inv(c, e')
            && (if e'.wait.Ok? then Rank(c, e'.state) < Rank(c, e.state)
                                    && Turns(c, e, inbox, inputs, k, mac) == Turns(c, e', AfterMove(inbox, mv), inputs, k + 1, mac)
                else Turns(c, e, inbox, inputs, k, mac) == (e', AfterMove(inbox, mv)))
  {
    hide Step, Plan, Inv, Rank;
    StepInv(c, e, inbox, inputs(k), mac);
    StopsNotOk(c, e, inbox, inputs(k), mac);
  }

  /** A step that stops waits for something or fails. */
  lemma {:induction false} StopsNotOk(c: Config, e: Server, inbox: seq<Wire>, i: Input, mac: Mac)
    requires Inv(c, e) && e.state != Done
    ensures Plan(c, e, inbox, i, mac).Stop? ==> !Step(c, e, inbox, i, mac).wait.Ok?
  {
    hide Decide, Rank, Next, Sound;
    DecideLeads(c, e.state, e.peerCert, Peek(e.readEpoch, inbox), i, mac(e.transcript, false));
  }
}

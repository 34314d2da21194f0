/** The client's state machine in place: the `do_` functions and the loop of `ssl_client_handshake`. */
module TlsClientMachine {
  import opened Common
  import opened TlsHandshake
  import opened TlsClient

  /** Some turns of the loop: until `Done`, or until a step has to wait. */
  function Turns(c: Config, e: Client, inbox: seq<Wire>, inputs: nat -> Input, k: nat, mac: Mac): (Client, seq<Wire>)
    requires Inv(c, e)
    decreases Rank(c, e.state)
  {
    if e.state == Done then (e, inbox)
    else
      StepInv(c, e, inbox, inputs(k), mac);
      var mv, e' := Plan(c, e, inbox, inputs(k), mac), Step(c, e, inbox, inputs(k), mac);
      if !e'.wait.Ok? || !mv.Move? then (e', AfterMove(inbox, mv)) else Turns(c, e', AfterMove(inbox, mv), inputs, k + 1, mac)
  }

  /** A step stops for a message only when none has come. */
  lemma {:induction false} WaitsForMissing(c: Config, s: State, certRequest: bool, p: Peeked, i: Input, expected: seq<byte>)
    ensures var mv := Decide(c, s, certRequest, p, i, expected);
            mv.wait.ReadMessage? && mv.Stop? ==> p.Nothing?
  {
    hide Leads, MoveMilestones, OutMilestones, OutEntries, OutsGenuine;
  }

  /** Turns never go back; when they get nowhere, the first of them had to wait. */
  lemma {:induction false} TurnsProgress(c: Config, e: Client, inbox: seq<Wire>, inputs: nat -> Input, k: nat, mac: Mac)
    requires Inv(c, e) && e.wait.Ok?
    ensures var r := Turns(c, e, inbox, inputs, k, mac).0;
            && Inv(c, r) && Rank(c, r.state) <= Rank(c, e.state)
            && (r.wait.Ok? ==> r.state == Done)
            && (Rank(c, r.state) == Rank(c, e.state) && !r.wait.Ok? ==> Weight(r.wait) <= if inbox == [] then 1 else 0)
    decreases Rank(c, e.state)
  {
    hide Step, Plan, Inv, Rank, Turns;
    if e.state == Done {
      DoneTurns(c, e, inbox, inputs, k, mac);
    } else {
      TurnsStep(c, e, inbox, inputs, k, mac);
      FirstStop(c, e, inbox, inputs(k), mac);
      var mv, e' := Plan(c, e, inbox, inputs(k), mac), Step(c, e, inbox, inputs(k), mac);
      if e'.wait.Ok? { TurnsProgress(c, e', AfterMove(inbox, mv), inputs, k + 1, mac); }
    }
  }

  lemma {:induction false} DoneTurns(c: Config, e: Client, inbox: seq<Wire>, inputs: nat -> Input, k: nat, mac: Mac)
    requires Inv(c, e) && e.state == Done
    ensures Turns(c, e, inbox, inputs, k, mac) == (e, inbox)
  {
  }

  /** A step that stays where it is waits for a message that has not come, or for something else that ends the call. */
  lemma {:induction false} FirstStop(c: Config, e: Client, inbox: seq<Wire>, i: Input, mac: Mac)
    requires Inv(c, e) && e.state != Done
    ensures var e' := Step(c, e, inbox, i, mac);
            if e'.state == e.state then Weight(e'.wait) <= if inbox == [] then 1 else 0
            else Rank(c, e'.state) < Rank(c, e.state)
  {
    hide Decide, Rank, Next, Sound;
    var p, expected := Peek(e.readEpoch, inbox), mac(e.transcript, true);
    StepInv(c, e, inbox, i, mac);
    DecideLeads(c, e.state, e.certRequest, p, i, expected);
    WaitsForMissing(c, e.state, e.certRequest, p, i, expected);
  }

  /** `ssl_run_handshake`: resolve what is waited for, run the steps, and again, until the call has to return. */
  function Drive(c: Config, e: Client, inbox: seq<Wire>, flushOk: nat -> bool, inputs: nat -> nat -> Input, k: nat, mac: Mac)
    : (Client, seq<Wire>, Outcome)
    requires Inv(c, e)
    decreases 3 * Rank(c, e.state) + Weight(e.wait)
  {
    hide Inv, Turns, Rank;
    var stop := Returns(e, inbox, flushOk(k));
    if stop.Some? then (e.(wait := stop.value.0), inbox, stop.value.1)
    else
      var r := Resume(e, inbox, flushOk(k));
      ResumedInv(c, e, inbox, flushOk(k));
      var t := Turns(c, r.end, if r.took then inbox[1..] else inbox, inputs(k), 0, mac);
      TurnsProgress(c, r.end, if r.took then inbox[1..] else inbox, inputs(k), 0, mac);
      if t.0.wait.Failed? then (t.0, t.1, Error)
      else if t.0.wait.Ok? then (t.0, t.1, Complete)
      else Drive(c, t.0, t.1, flushOk, inputs, k + 1, mac)
  }

  lemma {:induction false} ResumedInv(c: Config, e: Client, inbox: seq<Wire>, flushOk: bool)
    requires Inv(c, e) && Returns(e, inbox, flushOk).None?
    ensures var r := Resume(e, inbox, flushOk);
            Inv(c, r.end) && r.end.wait.Ok? && r.end.state == e.state && (r.took ==> inbox != [])
            && (e.wait.ReadMessage? ==> inbox != [] && !r.took)
  {
    hide Milestones, Stage, Count;
  }

  class ClientHandshake {
    const c: Config
    const mac: Mac
    var state: State
    var inbox: seq<Wire>
    var transcript: seq<Msg>
    var readEpoch: nat
    var writeEpoch: nat
    var certRequest: bool
    var pending: seq<Wire>
    ghost var milestones: seq<Milestone>

    ghost function View(): Client
      reads this
    {
      End(state, Ok, transcript, readEpoch, writeEpoch, certRequest, false, pending, milestones)
    }

    /** The method has done what the step of the state decides, and returns what it waits for. */
    ghost predicate Did(was: Client, box: seq<Wire>, i: Input, ret: Wait)
      reads this
    {
      && View().(wait := ret) == Step(c, was, box, i, mac)
      && inbox == AfterMove(box, Plan(c, was, box, i, mac))
    }

    constructor (c: Config, mac: Mac)
      ensures this.c == c && this.mac == mac && View() == TlsClient.Start && inbox == []
    {
      this.c, this.mac := c, mac;
      state, inbox, transcript, readEpoch, writeEpoch, certRequest, pending := StartConnect, [], [], 0, 0, false, [];
      milestones := [];
    }

    // ---- What the steps call -------------------------------------------------------------------

    /** `ssl_hash_message`. */
    method HashMessage(m: Msg)
      modifies this`transcript
      ensures View() == old(View()).Hash(m, false)
    {
      transcript := transcript + [m];
    }

    /** `next_message`. */
    method NextMessage()
      requires inbox != [] && inbox[0].item.Message?
      modifies this`inbox
      ensures inbox == old(inbox)[1..] && View() == old(View())
    {
      inbox := inbox[1..];
    }

    method AddMessage(typ: MsgType, body: seq<byte>)
      modifies this`transcript, this`pending
      ensures View() == old(View()).Add(Msg(typ, body))
    {
      transcript := transcript + [Msg(typ, body)];
      pending := pending + [Wire(writeEpoch, Message(Msg(typ, body)))];
    }

    method AddChangeCipherSpec()
      modifies this`pending, this`writeEpoch, this`milestones
      ensures View() == old(View()).AddOne(SendCcs, mac, false)
    {
      pending := pending + [Wire(writeEpoch, Ccs)];
      writeEpoch := writeEpoch + 1;
      milestones := milestones + [SwitchedWrite];
    }

    method SendFinished()
      modifies this`transcript, this`pending, this`milestones
      ensures View() == old(View()).AddOne(Out.SendFinished, mac, false)
    {
      var finished := mac(transcript, false);
      AddMessage(Finished, finished);
      milestones := milestones + [Milestone.SentFinished];
    }

    /** `get_message`, `ssl_check_message_type` and what follows when the message parses. */
    method ExpectMessage(typ: MsgType, ok: bool, next: State) returns (ret: Wait)
      modifies this`transcript, this`inbox, this`state
      ensures var mv := Expect(Peek(readEpoch, old(inbox)), typ, ok, next);
              View().(wait := ret) == old(View()).Apply(mv, old(inbox), mac, false) && inbox == AfterMove(old(inbox), mv)
    {
      var p := Peek(readEpoch, inbox);
      if !p.Got? { return if p.Nothing? then ReadMessage else Failed(UnexpectedRecord); }
      if p.msg.typ != typ { return Failed(UnexpectedMessage); }
      if !ok { return Failed(Internal); }
      HashMessage(inbox[0].item.msg);
      NextMessage();
      state := next;
      ret := Ok;
    }

    // ---- The steps -----------------------------------------------------------------------------

    method DoStartConnect(i: Input) returns (ret: Wait)
      requires state == StartConnect
      modifies this
      ensures Did(old(View()), old(inbox), i, ret)
    {
      hide Leads, OutEntries, OutMilestones, MoveMilestones, OutsGenuine, PlainMark, JustSends;
      if !i.ok { return Failed(Internal); }
      AddAllOne<State>(SendMessage(Msg(ClientHello, i.bodies(ClientHello))), mac, false);
      AddMessage(ClientHello, i.bodies(ClientHello));
      state := EnterEarlyData;
      ret := Flush;
    }

    method DoEnterEarlyData(i: Input) returns (ret: Wait)
      requires state == EnterEarlyData
      modifies this
      ensures Did(old(View()), old(inbox), i, ret)
    {
      hide Leads, OutEntries, OutMilestones, MoveMilestones, OutsGenuine, PlainMark, JustSends;
      state := if c.dtls then ReadHelloVerifyRequest else ReadServerHello;
      ret := Ok;
    }

    /** Taking a HelloVerifyRequest: the transcript starts again with another ClientHello. */
    method HelloAgain(body: seq<byte>)
      requires inbox != [] && inbox[0].item.Message?
      modifies this`transcript, this`inbox, this`pending
      ensures View() == old(View()).Hash(old(inbox[0].item.msg), true).Add(Msg(ClientHello, body)) && inbox == old(inbox)[1..]
    {
      inbox := inbox[1..];
      transcript := [];
      AddMessage(ClientHello, body);
    }

    method DoReadHelloVerifyRequest(i: Input) returns (ret: Wait)
      requires state == ReadHelloVerifyRequest
      modifies this
      ensures Did(old(View()), old(inbox), i, ret)
    {
      hide Leads, OutEntries, OutMilestones, MoveMilestones, OutsGenuine, PlainMark, JustSends,
           ReadStatus, VerifyCertificate, ReadKeyExchange, ReadRequest, SendCertificate, SendVerify, SendLastFlight, ReadTicket, Expect, GetFinished;
      var p := Peek(readEpoch, inbox);
      if !p.Got? { return if p.Nothing? then ReadMessage else Failed(UnexpectedRecord); }
      if p.msg.typ != HelloVerifyRequest {
        state := ReadServerHello;
        return Ok;
      }
      if !i.ok { return Failed(Internal); }
      HelloAgain(i.bodies(ClientHello));
      AddAllOne<State>(SendMessage(Msg(ClientHello, i.bodies(ClientHello))), mac, false);
      state := ReadServerHello;
      ret := Flush;
    }

    method DoReadServerHello(i: Input) returns (ret: Wait)
      requires state == ReadServerHello
      modifies this
      ensures Did(old(View()), old(inbox), i, ret)
    {
      hide Leads, OutEntries, OutMilestones, MoveMilestones, OutsGenuine, PlainMark, JustSends;
      ret := ExpectMessage(ServerHello, i.ok, if c.resume then ReadSessionTicket else ReadServerCertificate);
    }

    method DoReadServerCertificate(i: Input) returns (ret: Wait)
      requires state == ReadServerCertificate
      modifies this
      ensures Did(old(View()), old(inbox), i, ret)
    {
      hide Leads, OutEntries, OutMilestones, MoveMilestones, OutsGenuine, PlainMark, JustSends;
      if !c.CertAuth() {
        state := ReadCertificateStatus;
        return Ok;
      }
      ret := ExpectMessage(Certificate, i.ok, ReadCertificateStatus);
    }

    method DoReadCertificateStatus(i: Input) returns (ret: Wait)
      requires state == ReadCertificateStatus
      modifies this
      ensures Did(old(View()), old(inbox), i, ret)
    {
      hide Leads, OutEntries, OutMilestones, MoveMilestones, OutsGenuine, PlainMark, JustSends;
      if !c.ocsp {
        state := VerifyServerCertificate;
        return Ok;
      }
      var p := Peek(readEpoch, inbox);
      if !p.Got? { return if p.Nothing? then ReadMessage else Failed(UnexpectedRecord); }
      if p.msg.typ != CertificateStatus {
        state := VerifyServerCertificate;
        return Ok;
      }
      if !i.ok { return Failed(Internal); }
      HashMessage(inbox[0].item.msg);
      NextMessage();
      state := VerifyServerCertificate;
      ret := Ok;
    }

    method DoVerifyServerCertificate(i: Input) returns (ret: Wait)
      requires state == VerifyServerCertificate
      modifies this
      ensures Did(old(View()), old(inbox), i, ret)
    {
      hide Leads, OutEntries, OutMilestones, MoveMilestones, OutsGenuine, PlainMark, JustSends;
      if c.CertAuth() {
        match i.callback {
          case Refuse => return Failed(Internal);
          case Later => return Retry;
          case Proceed => milestones := milestones + [VerifiedCert];
        }
      }
      state := ReadServerKeyExchange;
      ret := Ok;
    }

    method DoReadServerKeyExchange(i: Input) returns (ret: Wait)
      requires state == ReadServerKeyExchange
      modifies this
      ensures Did(old(View()), old(inbox), i, ret)
    {
      hide Leads, OutEntries, OutMilestones, MoveMilestones, OutsGenuine, PlainMark, JustSends;
      var p := Peek(readEpoch, inbox);
      if !p.Got? { return if p.Nothing? then ReadMessage else Failed(UnexpectedRecord); }
      if p.msg.typ != ServerKeyExchange {
        if c.RequiresSke() { return Failed(UnexpectedMessage); }
        state := ReadCertificateRequest;
        return Ok;
      }
      if c.kx.Rsa? { return Failed(UnexpectedMessage); }
      if !i.ok { return Failed(Internal); }
      HashMessage(inbox[0].item.msg);
      NextMessage();
      state := ReadCertificateRequest;
      ret := Ok;
    }

    method DoReadCertificateRequest(i: Input) returns (ret: Wait)
      requires state == ReadCertificateRequest
      modifies this
      ensures Did(old(View()), old(inbox), i, ret)
    {
      hide Leads, OutEntries, OutMilestones, MoveMilestones, OutsGenuine, PlainMark, JustSends;
      if !c.CertAuth() {
        state := ReadServerHelloDone;
        return Ok;
      }
      var p := Peek(readEpoch, inbox);
      if !p.Got? { return if p.Nothing? then ReadMessage else Failed(UnexpectedRecord); }
      if p.msg.typ == ServerHelloDone {
        state := ReadServerHelloDone;
        return Ok;
      }
      if p.msg.typ != CertificateRequest { return Failed(UnexpectedMessage); }
      if !i.ok { return Failed(Internal); }
      HashMessage(inbox[0].item.msg);
      NextMessage();
      certRequest := true;
      state := ReadServerHelloDone;
      ret := Ok;
    }

    method DoReadServerHelloDone(i: Input) returns (ret: Wait)
      requires state == ReadServerHelloDone
      modifies this
      ensures Did(old(View()), old(inbox), i, ret)
    {
      hide Leads, OutEntries, OutMilestones, MoveMilestones, OutsGenuine, PlainMark, JustSends;
      ret := ExpectMessage(ServerHelloDone, i.ok, SendClientCertificate);
    }

    method DoSendClientCertificate(i: Input) returns (ret: Wait)
      requires state == SendClientCertificate
      modifies this
      ensures Did(old(View()), old(inbox), i, ret)
    {
      hide Leads, OutEntries, OutMilestones, MoveMilestones, OutsGenuine, PlainMark, JustSends;
      if !certRequest {
        state := SendClientKeyExchange;
        return Ok;
      }
      if i.callback.Refuse? { return Failed(Internal); }
      if i.callback.Later? { return Retry; }
      var chain := if c.hasClientCert then i.bodies(Certificate) else [0, 0, 0];
      if !i.ok || (c.hasClientCert && chain == [0, 0, 0]) { return Failed(Internal); }
      AddAllOne<State>(SendMessage(Msg(Certificate, chain)), mac, false);
      AddMessage(Certificate, chain);
      state := SendClientKeyExchange;
      ret := Ok;
    }

    method DoSendClientKeyExchange(i: Input) returns (ret: Wait)
      requires state == SendClientKeyExchange
      modifies this
      ensures Did(old(View()), old(inbox), i, ret)
    {
      hide Leads, OutEntries, OutMilestones, MoveMilestones, OutsGenuine, PlainMark, JustSends;
      if !i.ok { return Failed(Internal); }
      AddAllOne<State>(SendMessage(Msg(ClientKeyExchange, i.bodies(ClientKeyExchange))), mac, false);
      AddMessage(ClientKeyExchange, i.bodies(ClientKeyExchange));
      milestones := milestones + [KeyExchanged];
      state := SendClientCertificateVerify;
      ret := Ok;
    }

    method DoSendClientCertificateVerify(i: Input) returns (ret: Wait)
      requires state == SendClientCertificateVerify
      modifies this
      ensures Did(old(View()), old(inbox), i, ret)
    {
      hide Leads, OutEntries, OutMilestones, MoveMilestones, OutsGenuine, PlainMark, JustSends;
      if certRequest && c.hasClientCert {
        if i.callback.Refuse? { return Failed(Internal); }
        if i.callback.Later? { return Retry; }
        AddAllOne<State>(SendMessage(Msg(CertificateVerify, i.bodies(CertificateVerify))), mac, false);
        AddMessage(CertificateVerify, i.bodies(CertificateVerify));
      }
      state := SendClientFinished;
      ret := Ok;
    }

    /** ChangeCipherSpec, the optional messages and the Finished, in this order. */
    method SendFlight(i: Input)
      modifies this`transcript, this`pending, this`milestones, this`writeEpoch
      ensures View() == old(View()).AddAll(FlightOf(i), mac, false)
    {
      hide LastFlight, End.AddAll;
      LastFlightInOrder(i);
      AddChangeCipherSpec();
      if c.npn { AddMessage(NextProto, i.bodies(NextProto)); }
      if c.channelId { AddMessage(ChannelId, i.bodies(ChannelId)); }
      SendFinished();
    }

    function FlightOf(i: Input): seq<Out> {
      LastFlight(c, SendMessage(Msg(NextProto, i.bodies(NextProto))), SendMessage(Msg(ChannelId, i.bodies(ChannelId))))
    }

    method DoSendClientFinished(i: Input) returns (ret: Wait)
      requires state == SendClientFinished
      modifies this
      ensures Did(old(View()), old(inbox), i, ret)
    {
      hide Leads, OutEntries, OutMilestones, MoveMilestones, OutsGenuine, PlainMark, JustSends, LastFlight, End.AddAll;
      if c.channelId && i.callback.Later? { return Retry; }
      if !i.ok || (c.channelId && i.callback.Refuse?) { return Failed(Internal); }
      ghost var was := View();
      AddAllFrame(was, FlightOf(i));
      state := FinishFlight;
      SendFlight(i);
      assert was.milestones + [] + [] == was.milestones;
      ret := Flush;
    }

    /** Sending commutes with what a step sets besides. */
    lemma {:induction false} AddAllFrame(e: Client, outs: seq<Out>)
      ensures forall s: State, w: Wait ::
                e.(state := s).AddAll(outs, mac, false).(wait := w) == e.(state := s, wait := w).AddAll(outs, mac, false)
      decreases |outs|
    {
      if outs != [] { AddAllFrame(e.AddOne(outs[0], mac, false), outs[1..]); }
      forall s: State, w: Wait
        ensures e.(state := s).AddAll(outs, mac, false).(wait := w) == e.(state := s, wait := w).AddAll(outs, mac, false)
      {
        if outs != [] {
          var e1 := e.AddOne(outs[0], mac, false);
          assert e.(state := s).AddOne(outs[0], mac, false) == e1.(state := s);
          assert e.(state := s, wait := w).AddOne(outs[0], mac, false) == e1.(state := s, wait := w);
        }
      }
    }

    /** The flight, one addition after the other. */
    lemma {:induction false} LastFlightInOrder(i: Input)
      ensures var npn, id := Msg(NextProto, i.bodies(NextProto)), Msg(ChannelId, i.bodies(ChannelId));
              forall e: Client ::
                e.AddAll(LastFlight(c, SendMessage(npn), SendMessage(id)), mac, false) ==
                (var e1 := e.AddOne(SendCcs, mac, false);
                 var e2 := if c.npn then e1.Add(npn) else e1;
                 var e3 := if c.channelId then e2.Add(id) else e2;
                 e3.AddOne(Out.SendFinished, mac, false))
    {
      var npn, id := SendMessage(Msg(NextProto, i.bodies(NextProto))), SendMessage(Msg(ChannelId, i.bodies(ChannelId)));
      var afterNpn := If(c.channelId, id) + [Out.SendFinished];
      var afterCcs := If(c.npn, npn) + afterNpn;
      AddAllOne<State>(Out.SendFinished, mac, false);
      AddAllMore<State>(id, [Out.SendFinished], mac, false);
      AddAllMore<State>(npn, afterNpn, mac, false);
      AddAllMore<State>(SendCcs, afterCcs, mac, false);
      assert [] + afterNpn == afterNpn && [] + [Out.SendFinished] == [Out.SendFinished];
    }

    method DoFinishFlight(i: Input) returns (ret: Wait)
      requires state == FinishFlight
      modifies this
      ensures Did(old(View()), old(inbox), i, ret)
    {
      hide Leads, OutEntries, OutMilestones, MoveMilestones, OutsGenuine, PlainMark, JustSends;
      if c.resume {
        state := FinishClientHandshake;
        return Ok;
      }
      state := ReadSessionTicket;
      ret := if c.falseStart then EarlyReturn else Ok;
    }

    method DoReadSessionTicket(i: Input) returns (ret: Wait)
      requires state == ReadSessionTicket
      modifies this
      ensures Did(old(View()), old(inbox), i, ret)
    {
      hide Leads, OutEntries, OutMilestones, MoveMilestones, OutsGenuine, PlainMark, JustSends;
      if !c.ticket {
        state := ProcessChangeCipherSpec;
        return ReadCcs;
      }
      ret := ExpectMessage(NewSessionTicket, i.ok, ProcessChangeCipherSpec);
      if ret.Ok? { ret := ReadCcs; }
    }

    method DoProcessChangeCipherSpec(i: Input) returns (ret: Wait)
      requires state == ProcessChangeCipherSpec
      modifies this
      ensures Did(old(View()), old(inbox), i, ret)
    {
      hide Leads, OutEntries, OutMilestones, MoveMilestones, OutsGenuine, PlainMark, JustSends;
      if !i.ok { return Failed(Internal); }
      readEpoch := readEpoch + 1;
      milestones := milestones + [SwitchedRead];
      state := ReadServerFinished;
      ret := Ok;
    }

    /** With `ssl_get_finished`: the MAC is taken before the message is hashed. */
    method DoReadServerFinished(i: Input) returns (ret: Wait)
      requires state == ReadServerFinished
      modifies this
      ensures Did(old(View()), old(inbox), i, ret)
    {
      hide Leads, OutEntries, OutMilestones, MoveMilestones, OutsGenuine, PlainMark, JustSends;
      var p := Peek(readEpoch, inbox);
      if !p.Got? { return if p.Nothing? then ReadMessage else Failed(UnexpectedRecord); }
      if p.msg.typ != Finished { return Failed(UnexpectedMessage); }
      var finished := mac(transcript, true);
      if p.msg.body != finished { return Failed(BadFinished); }
      HashMessage(inbox[0].item.msg);
      NextMessage();
      milestones := milestones + [CheckedFinished];
      state := if c.resume then SendClientFinished else FinishClientHandshake;
      ret := Ok;
    }

    method DoFinishClientHandshake(i: Input) returns (ret: Wait)
      requires state == FinishClientHandshake
      modifies this
      ensures Did(old(View()), old(inbox), i, ret)
    {
      hide Leads, OutEntries, OutMilestones, MoveMilestones, OutsGenuine, PlainMark, JustSends;
      state := Done;
      ret := Ok;
    }

    /** One turn of the loop. */
    method DoState(i: Input) returns (ret: Wait)
      requires state != Done
      modifies this
      ensures Did(old(View()), old(inbox), i, ret)
    {
      hide Did;
      match state {
        case StartConnect => ret := DoStartConnect(i);
        case EnterEarlyData => ret := DoEnterEarlyData(i);
        case ReadHelloVerifyRequest => ret := DoReadHelloVerifyRequest(i);
        case ReadServerHello => ret := DoReadServerHello(i);
        case ReadServerCertificate => ret := DoReadServerCertificate(i);
        case ReadCertificateStatus => ret := DoReadCertificateStatus(i);
        case VerifyServerCertificate => ret := DoVerifyServerCertificate(i);
        case ReadServerKeyExchange => ret := DoReadServerKeyExchange(i);
        case ReadCertificateRequest => ret := DoReadCertificateRequest(i);
        case ReadServerHelloDone => ret := DoReadServerHelloDone(i);
        case SendClientCertificate => ret := DoSendClientCertificate(i);
        case SendClientKeyExchange => ret := DoSendClientKeyExchange(i);
        case SendClientCertificateVerify => ret := DoSendClientCertificateVerify(i);
        case SendClientFinished => ret := DoSendClientFinished(i);
        case FinishFlight => ret := DoFinishFlight(i);
        case ReadSessionTicket => ret := DoReadSessionTicket(i);
        case ProcessChangeCipherSpec => ret := DoProcessChangeCipherSpec(i);
        case ReadServerFinished => ret := DoReadServerFinished(i);
        case FinishClientHandshake => ret := DoFinishClientHandshake(i);
      }
    }

    /** `ssl_client_handshake`: the loop ends, since its rank falls with every turn that does not wait. */
    method Handshake(inputs: nat -> Input) returns (ret: Wait)
      requires Inv(c, View())
      modifies this
      ensures Inv(c, View()) && (View().(wait := ret), inbox) == Turns(c, old(View()), old(inbox), inputs, 0, mac)
      ensures ret.Ok? ==> state == Done
    {
      hide Step, Plan, Inv;
      var k: nat := 0;
      while state != Done
        invariant Inv(c, View())
        invariant Turns(c, View(), inbox, inputs, k, mac) == Turns(c, old(View()), old(inbox), inputs, 0, mac)
        decreases Rank(c, state)
      {
        ghost var was, box := View(), inbox;
        TurnsStep(c, was, box, inputs, k, mac);
        ret := DoState(inputs(k));
        InvFrame(c, Step(c, was, box, inputs(k), mac));
        if ret != Ok { return; }
        k := k + 1;
      }
      ret := Ok;
    }

    /** The switch of `ssl_run_handshake`: the wait is resolved, or the call has to return. */
    method Resolve(wait: Wait, flushOk: bool) returns (stop: Option<(Wait, Outcome)>)
      modifies this`pending, this`inbox
      ensures stop == Returns(old(View()).(wait := wait), old(inbox), flushOk)
      ensures var r := Resume(old(View()).(wait := wait), old(inbox), flushOk);
              if stop.Some? then View() == old(View()) && inbox == old(inbox)
              else View() == r.end && r.end.wait.Ok? && (r.took ==> old(inbox) != []) && inbox == if r.took then old(inbox)[1..] else old(inbox)
    {
      match wait {
        case Failed(_) => return Some((wait, Error));
        case Flush =>
          if !flushOk { return Some((Flush, Blocked)); }
          pending := [];
        case ReadMessage =>
          if inbox == [] { return Some((ReadMessage, Blocked)); }
        case ReadCcs =>
          if inbox == [] { return Some((ReadCcs, Blocked)); }
          if inbox[0] != Wire(readEpoch, Ccs) { return Some((Failed(UnexpectedRecord), Error)); }
          inbox := inbox[1..];
        case Retry => return Some((Ok, Blocked));
        case EarlyReturn => return Some((Ok, Early));
        case Ok =>
      }
      stop := None;
    }

    /** `ssl_run_handshake`, for `hs->wait`: each round resolves the wait and runs the steps until one has to wait again. */
    method RunHandshake(wait: Wait, flushOk: nat -> bool, inputs: nat -> nat -> Input) returns (wait': Wait, outcome: Outcome)
      requires Inv(c, View().(wait := wait))
      modifies this
      ensures (View().(wait := wait'), inbox, outcome) == Drive(c, old(View()).(wait := wait), old(inbox), flushOk, inputs, 0, mac)
    {
      hide Inv, Turns, Weight, Returns, Resume;
      wait' := wait;
      var k: nat := 0;
      while true
        invariant Inv(c, View().(wait := wait'))
        invariant Drive(c, View().(wait := wait'), inbox, flushOk, inputs, k, mac)
               == Drive(c, old(View()).(wait := wait), old(inbox), flushOk, inputs, 0, mac)
        decreases 3 * Rank(c, state) + Weight(wait')
      {
        ghost var was, box := View().(wait := wait'), inbox;
        var stop := Resolve(wait', flushOk(k));
        if stop.Some? { return stop.value.0, stop.value.1; }
        DriveStep(c, was, box, flushOk, inputs, k, mac);
        wait' := Handshake(inputs(k));
        if wait'.Failed? { return wait', Error; }
        if wait'.Ok? { return Ok, Complete; }
        k := k + 1;
      }
    }
  }

  lemma {:induction false} DriveStep(c: Config, e: Client, inbox: seq<Wire>, flushOk: nat -> bool, inputs: nat -> nat -> Input, k: nat, mac: Mac)
    requires Inv(c, e) && Returns(e, inbox, flushOk(k)).None?
    ensures var r := Resume(e, inbox, flushOk(k));
            && Inv(c, r.end) && r.end.wait.Ok? && (r.took ==> inbox != [])
            && (var t := Turns(c, r.end, if r.took then inbox[1..] else inbox, inputs(k), 0, mac);
                && Inv(c, t.0)
                && Drive(c, e, inbox, flushOk, inputs, k, mac) ==
                   (if t.0.wait.Failed? then (t.0, t.1, Error)
                    else if t.0.wait.Ok? then (t.0, t.1, Complete)
                    else Drive(c, t.0, t.1, flushOk, inputs, k + 1, mac))
                && (t.0.wait.Ok? || 3 * Rank(c, t.0.state) + Weight(t.0.wait) < 3 * Rank(c, e.state) + Weight(e.wait)))
  {
    hide Inv, Turns, Rank;
    var r := Resume(e, inbox, flushOk(k));
    ResumedInv(c, e, inbox, flushOk(k));
    TurnsProgress(c, r.end, if r.took then inbox[1..] else inbox, inputs(k), 0, mac);
  }

  lemma {:induction false} InvFrame(c: Config, e: Client)
    requires Inv(c, e)
    ensures Inv(c, e.(wait := Ok))
  {
    WaitKeeps(e, Ok);
  }

  lemma {:induction false} TurnsStep(c: Config, e: Client, inbox: seq<Wire>, inputs: nat -> Input, k: nat, mac: Mac)
    requires Inv(c, e) && e.state != Done && e.wait.Ok?
    ensures var mv, e' := Plan(c, e, inbox, inputs(k), mac), Step(c, e, inbox, inputs(k), mac);
            && Inv(c, e')
            && (if e'.wait.Ok? then Rank(c, e'.state) < Rank(c, e.state)
                                    && Turns(c, e, inbox, inputs, k, mac) == Turns(c, e', AfterMove(inbox, mv), inputs, k + 1, mac)
                else Turns(c, e, inbox, inputs, k, mac) == (e', AfterMove(inbox, mv)))
  {
    hide Step, Plan, Inv, Rank;
    StepInv(c, e, inbox, inputs(k), mac);
    StopsNotOk(c, e, inbox, inputs(k), mac);
  }

  /** A step that stops waits for something or fails. */
  lemma {:induction false} StopsNotOk(c: Config, e: Client, inbox: seq<Wire>, i: Input, mac: Mac)
    requires Inv(c, e) && e.state != Done
    ensures Plan(c, e, inbox, i, mac).Stop? ==> !Step(c, e, inbox, i, mac).wait.Ok?
  {
    hide Decide, Rank, Next, Sound;
    DecideLeads(c, e.state, e.certRequest, Peek(e.readEpoch, inbox), i, mac(e.transcript, true));
  }
}

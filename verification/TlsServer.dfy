/** The server's handshake (`handshake_server.cc`), for TLS 1.0 to 1.2. */
module TlsServer {
  import opened Common
  import opened TlsHandshake

  datatype State =
    | StartAccept | ReadClientHello | SelectCertificate | SelectParameters | SendServerHello | SendServerCertificate
    | SendServerKeyExchange | SendServerHelloDone | ReadClientCertificate | VerifyClientCertificate
    | ReadClientKeyExchange | ReadClientCertificateVerify | ReadChangeCipherSpec | ProcessChangeCipherSpec
    | ReadNextProto | ReadChannelId | ReadClientFinished | SendServerFinished | FinishServerHandshake | Done

  type Server = End<State>

  /** What has to be gone through on the way to `Done`; in a resumption the server finishes first and then reads. */
  function Rank(c: Config, s: State): nat {
    match s
    case StartAccept => 19
    case ReadClientHello => 18
    case SelectCertificate => 17
    case SelectParameters => 16
    case SendServerHello => 15
    case SendServerCertificate => 14
    case SendServerKeyExchange => 13
    case SendServerHelloDone => 12
    case ReadClientCertificate => 11
    case VerifyClientCertificate => 10
    case ReadClientKeyExchange => 9
    case ReadClientCertificateVerify => 8
    case ReadChangeCipherSpec => if c.resume then 6 else 7
    case ProcessChangeCipherSpec => if c.resume then 5 else 6
    case ReadNextProto => if c.resume then 4 else 5
    case ReadChannelId => if c.resume then 3 else 4
    case ReadClientFinished => if c.resume then 2 else 3
    case SendServerFinished => if c.resume then 7 else 2
    case FinishServerHandshake => 1
    case Done => 0
  }

  /** A callback that may ask to be called again: nothing has been done before it. */
  function Ask(i: Input, mv: Move<State>): (r: Move<State>)
    ensures r.Blocks() || r == mv
  {
    match i.callback
    case Refuse => Fail(Internal)
    case Later => Stop(Retry)
    case Proceed => if i.ok then mv else Fail(Internal)
  }

  /** A step on the ClientHello that leaves it at the head of the input. */
  function LookAtHello(p: Peeked, next: State, i: Input): (mv: Move<State>)
    ensures Leads(mv, next, []) && (mv.Move? ==> mv == Goto(next))
  {
    if !p.Got? then NoMessage(p) else Ask(i, Goto(next))
  }

  function ReadHello(p: Peeked, i: Input): (mv: Move<State>)
    ensures Leads(mv, SelectCertificate, []) && (mv.Move? ==> mv == Goto(SelectCertificate))
  {
    if p.Got? && p.msg.typ != ClientHello then Fail(UnexpectedMessage) else LookAtHello(p, SelectCertificate, i)
  }

  /** The ClientHello is hashed and taken once the parameters are chosen. */
  function Select(p: Peeked, i: Input): (mv: Move<State>)
    ensures Leads(mv, SendServerHello, []) && (mv.Move? ==> mv == Take(SendServerHello) && p.Got?)
  {
    if !p.Got? then NoMessage(p) else Ask(i, Take(SendServerHello))
  }

  function SendCertificates(c: Config, i: Input): (mv: Move<State>)
    ensures Leads(mv, SendServerKeyExchange, []) && JustSends(mv, Ok)
    ensures mv.Move? ==>
              OutEntries(true, 0, mv.out) ==
              If(c.CertAuth(), Says(true, 0, Certificate)) + If(c.ocsp && c.CertAuth(), Says(true, 0, CertificateStatus))
    ensures mv.Move? ==> OutsGenuine(c, true, mv.out)
  {
    var cert := SendMessage(Msg(Certificate, i.bodies(Certificate)));
    var status := SendMessage(Msg(CertificateStatus, i.bodies(CertificateStatus)));
    OneOut(true, 0, cert);
    OneOut(true, 0, status);
    MoreOut(true, 0, cert, [status]);
    var out := if !c.CertAuth() then [] else if c.ocsp then [cert] + [status] else [cert];
    if !i.ok || (c.CertAuth() && EmptyChain(cert.msg)) then Fail(Internal)
    else
      var mv := Goto(SendServerKeyExchange);
      mv.(out := out)
  }

  function SendKeyExchange(c: Config, i: Input): (mv: Move<State>)
    ensures Leads(mv, SendServerHelloDone, []) && JustSends(mv, Ok)
    ensures mv.Move? ==> OutEntries(true, 0, mv.out) == If(c.SendsSke(), Says(true, 0, ServerKeyExchange))
    ensures mv.Move? ==> OutsGenuine(c, true, mv.out)
  {
    OneOut(true, 0, SendMessage(Msg(ServerKeyExchange, i.bodies(ServerKeyExchange))));
    if !c.SendsSke() then Goto(SendServerHelloDone)
    else if c.CertAuth() && i.callback.Later? then Stop(Retry)
    else if !i.ok || (c.CertAuth() && i.callback.Refuse?) then Fail(Internal)
    else Send(SendServerHelloDone, Msg(ServerKeyExchange, i.bodies(ServerKeyExchange)))
  }

  function SendHelloDone(c: Config, i: Input): (mv: Move<State>)
    ensures Leads(mv, ReadClientCertificate, []) && JustSends(mv, Flush)
    ensures mv.Move? ==>
              OutEntries(true, 0, mv.out) == If(c.requestsCert, Says(true, 0, CertificateRequest)) + [Says(true, 0, ServerHelloDone)]
    ensures mv.Move? ==> OutsGenuine(c, true, mv.out)
  {
    var request := SendMessage(Msg(CertificateRequest, i.bodies(CertificateRequest)));
    var done := SendMessage(Msg(ServerHelloDone, []));
    OneOut(true, 0, done);
    MoreOut(true, 0, request, [done]);
    if !i.ok then Fail(Internal)
    else
      var mv := Then(Goto(ReadClientCertificate), Flush);
      mv.(out := if c.requestsCert then [request] + [done] else [done])
  }

  function ReadCertificate(c: Config, p: Peeked, i: Input): (mv: Move<State>)
    ensures Leads(mv, VerifyClientCertificate, []) && (mv.Move? && mv.took ==> p.Got?)
    ensures mv.Move? ==> mv.out == [] && mv.wait == Ok && !mv.restart
  {
    if !c.requestsCert then Goto(VerifyClientCertificate)
    else if !p.Got? then NoMessage(p)
    else if p.msg.typ != Certificate then Fail(UnexpectedMessage)
    else if !i.ok || (EmptyChain(p.msg) && c.requiresCert) then Fail(Internal)
    else Note(Take(VerifyClientCertificate), false, !EmptyChain(p.msg))
  }

  function VerifyCertificate(peerCert: bool, i: Input): (mv: Move<State>)
    ensures Leads(mv, ReadClientKeyExchange, if peerCert then [VerifiedCert] else [])
    ensures mv.Move? ==> mv.out == [] && mv.wait == Ok && !mv.took
  {
    if !peerCert then Goto(ReadClientKeyExchange)
    else match i.callback
      case Refuse => Fail(Internal)
      case Later => Stop(Retry)
      case Proceed => Mark(Goto(ReadClientKeyExchange), VerifiedCert)
  }

  /** The decryption of an RSA premaster may be asked for again; the message is hashed only after it. */
  function ReadKeyExchange(c: Config, p: Peeked, i: Input): (mv: Move<State>)
    ensures Leads(mv, ReadClientCertificateVerify, [KeyExchanged]) && (mv.Move? ==> mv.took && p.Got?)
    ensures mv.Move? ==> mv.out == [] && mv.wait == Ok && !mv.restart
  {
    if !p.Got? then NoMessage(p)
    else if p.msg.typ != ClientKeyExchange then Fail(UnexpectedMessage)
    else if c.kx.Rsa? && i.callback.Later? then Stop(Retry)
    else if !i.ok || (c.kx.Rsa? && i.callback.Refuse?) then Fail(Internal)
    else Mark(Take(ReadClientCertificateVerify), KeyExchanged)
  }

  function ReadVerify(peerCert: bool, p: Peeked, i: Input): (mv: Move<State>)
    ensures Leads(mv, ReadChangeCipherSpec, []) && (mv.Move? && mv.took ==> p.Got?)
    ensures mv.Move? ==> mv.out == [] && mv.wait == Ok && !mv.restart
  {
    if !peerCert then Goto(ReadChangeCipherSpec) else Expect(p, CertificateVerify, i.ok, ReadChangeCipherSpec)
  }

  function SendLastFlight(c: Config, i: Input): (mv: Move<State>)
    ensures Leads(mv, if c.resume then ReadChangeCipherSpec else FinishServerHandshake, [SwitchedWrite, Milestone.SentFinished])
    ensures JustSends(mv, Flush)
    ensures mv.Move? ==>
              OutEntries(true, 0, mv.out) ==
              If(c.ticket, Says(true, 0, NewSessionTicket)) + [Entry(true, 0, KCcs), Says(true, 1, Finished)]
    ensures mv.Move? ==> OutsGenuine(c, true, mv.out)
  {
    var ticket := SendMessage(Msg(NewSessionTicket, i.bodies(NewSessionTicket)));
    LastFlightOut(c, ticket);
    hide OutMilestones, OutEntries, OutsGenuine, LastFlight;
    if !i.ok then Fail(Internal)
    else
      var mv := Then(Goto(if c.resume then ReadChangeCipherSpec else FinishServerHandshake), Flush);
      mv.(out := LastFlight(c, ticket))
  }

  function LastFlight(c: Config, ticket: Out): seq<Out> {
    If(c.ticket, ticket) + ([SendCcs] + [Out.SendFinished])
  }

  lemma {:induction false} LastFlightOut(c: Config, ticket: Out)
    requires ticket.SendMessage? && ticket.msg.typ == NewSessionTicket
    ensures OutMilestones(LastFlight(c, ticket)) == [SwitchedWrite, Milestone.SentFinished]
    ensures OutEntries(true, 0, LastFlight(c, ticket)) ==
            If(c.ticket, Says(true, 0, NewSessionTicket)) + [Entry(true, 0, KCcs), Says(true, 1, Finished)]
    ensures OutsGenuine(c, true, LastFlight(c, ticket))
  {
    hide OutMilestones, OutEntries;
    var last := [SendCcs] + [Out.SendFinished];
    OneOut(true, 1, Out.SendFinished);
    MoreOut(true, 0, SendCcs, [Out.SendFinished]);
    MoreOut(true, 0, ticket, last);
    assert [] + last == last;
  }

  /** What one turn of the loop of `ssl_server_handshake` decides. */
  function Decide(c: Config, s: State, peerCert: bool, p: Peeked, i: Input, expected: seq<byte>): Move<State> {
    match s
    case StartAccept => Goto(ReadClientHello)
    case ReadClientHello => ReadHello(p, i)
    case SelectCertificate => LookAtHello(p, SelectParameters, i)
    case SelectParameters => Select(p, i)
    case SendServerHello =>
      if !i.ok then Fail(Internal)
      else Send(if c.resume then SendServerFinished else SendServerCertificate, Msg(ServerHello, i.bodies(ServerHello)))
    case SendServerCertificate => SendCertificates(c, i)
    case SendServerKeyExchange => SendKeyExchange(c, i)
    case SendServerHelloDone => SendHelloDone(c, i)
    case ReadClientCertificate => ReadCertificate(c, p, i)
    case VerifyClientCertificate => VerifyCertificate(peerCert, i)
    case ReadClientKeyExchange => ReadKeyExchange(c, p, i)
    case ReadClientCertificateVerify => ReadVerify(peerCert, p, i)
    case ReadChangeCipherSpec => Then(Goto(ProcessChangeCipherSpec), ReadCcs)
    case ProcessChangeCipherSpec => if !i.ok then Fail(Internal) else SwitchKeys(ReadNextProto)
    case ReadNextProto => if !c.npn then Goto(ReadChannelId) else Expect(p, NextProto, i.ok, ReadChannelId)
    case ReadChannelId => if !c.channelId then Goto(ReadClientFinished) else Expect(p, ChannelId, i.ok, ReadClientFinished)
    case ReadClientFinished => GetFinished(p, expected, if c.resume then FinishServerHandshake else SendServerFinished)
    case SendServerFinished => SendLastFlight(c, i)
    case FinishServerHandshake => Goto(Done)
    case Done => Stop(Ok)
  }

  function Plan(c: Config, e: Server, inbox: seq<Wire>, i: Input, mac: Mac): (mv: Move<State>)
    ensures mv.Move? && mv.took ==> Peek(e.readEpoch, inbox).Got?
  {
    Decide(c, e.state, e.peerCert, Peek(e.readEpoch, inbox), i, mac(e.transcript, false))
  }

  /** One turn of the loop of `ssl_server_handshake`. */
  function Step(c: Config, e: Server, inbox: seq<Wire>, i: Input, mac: Mac): Server {
    e.Apply(Plan(c, e, inbox, i, mac), inbox, mac, true)
  }

  const Start: Server := End(StartAccept, Ok, [], 0, 0, false, false, [], [])

  // ---- Properties of every step, whatever the client sends ------------------------------------

  /** The only state a step can lead to. */
  function Next(c: Config, s: State): State {
    match s
    case StartAccept => ReadClientHello
    case ReadClientHello => SelectCertificate
    case SelectCertificate => SelectParameters
    case SelectParameters => SendServerHello
    case SendServerHello => if c.resume then SendServerFinished else SendServerCertificate
    case SendServerCertificate => SendServerKeyExchange
    case SendServerKeyExchange => SendServerHelloDone
    case SendServerHelloDone => ReadClientCertificate
    case ReadClientCertificate => VerifyClientCertificate
    case VerifyClientCertificate => ReadClientKeyExchange
    case ReadClientKeyExchange => ReadClientCertificateVerify
    case ReadClientCertificateVerify => ReadChangeCipherSpec
    case ReadChangeCipherSpec => ProcessChangeCipherSpec
    case ProcessChangeCipherSpec => ReadNextProto
    case ReadNextProto => ReadChannelId
    case ReadChannelId => ReadClientFinished
    case ReadClientFinished => if c.resume then FinishServerHandshake else SendServerFinished
    case SendServerFinished => if c.resume then ReadChangeCipherSpec else FinishServerHandshake
    case FinishServerHandshake => Done
    case Done => Done
  }

  /** What the step of a state does that cannot be taken back. */
  function Passes(s: State, peerCert: bool): seq<Milestone> {
    match s
    case VerifyClientCertificate => if peerCert then [VerifiedCert] else []
    case ReadClientKeyExchange => [KeyExchanged]
    case ProcessChangeCipherSpec => [SwitchedRead]
    case ReadClientFinished => [CheckedFinished]
    case SendServerFinished => [SwitchedWrite, Milestone.SentFinished]
    case _ => []
  }

  lemma {:induction false} DecideLeads(c: Config, s: State, peerCert: bool, p: Peeked, i: Input, expected: seq<byte>)
    requires s != Done
    ensures Leads(Decide(c, s, peerCert, p, i, expected), Next(c, s), Passes(s, peerCert))
  {
    hide PlainMark, Expect, GetFinished, LookAtHello, ReadHello, Select, SendCertificates, SendKeyExchange, SendHelloDone,
         ReadCertificate, VerifyCertificate, ReadKeyExchange, ReadVerify, SendLastFlight, MoveMilestones;
  }

  /** The states of the path taken: a resumption goes from the ServerHello to the server's Finished. */
  predicate OnPath(c: Config, s: State) {
    c.resume ==> Rank(c, s) >= 15 || Rank(c, s) <= 7
  }

  lemma {:induction false} RankFalls(c: Config, s: State)
    requires OnPath(c, s) && s != Done
    ensures OnPath(c, Next(c, s)) && Rank(c, Next(c, s)) < Rank(c, s)
  {
  }

  // ---- What has been done at a state, exactly -------------------------------------------------

  /** How many of the steps that cannot be taken back lie behind a state. */
  function Stage(c: Config, s: State): nat {
    var r := Rank(c, s);
    if c.resume then if r >= 7 then 0 else if r >= 5 then 1 else if r >= 2 then 2 else 3
    else if r >= 10 then 0 else if r >= 9 then 1 else if r >= 6 then 2 else if r >= 3 then 3 else if r == 2 then 4 else 5
  }

  function Passed(c: Config, peerCert: bool, k: nat): seq<Milestone> {
    if c.resume then
      if k == 0 then [SwitchedWrite, Milestone.SentFinished] else if k == 1 then [SwitchedRead] else if k == 2 then [CheckedFinished] else []
    else
      if k == 0 then (if peerCert then [VerifiedCert] else [])
      else if k == 1 then [KeyExchanged]
      else if k == 2 then [SwitchedRead]
      else if k == 3 then [CheckedFinished]
      else if k == 4 then [SwitchedWrite, Milestone.SentFinished]
      else []
  }

  /** The steps that cannot be taken back, once each and in order, up to stage `k`. */
  function Milestones(c: Config, peerCert: bool, k: nat): seq<Milestone> {
    if k == 0 then [] else Milestones(c, peerCert, k - 1) + Passed(c, peerCert, k - 1)
  }

  lemma {:induction false} StageStep(c: Config, s: State, peerCert: bool)
    requires OnPath(c, s) && s != Done
    ensures Milestones(c, peerCert, Stage(c, Next(c, s))) == Milestones(c, peerCert, Stage(c, s)) + Passes(s, peerCert)
  {
    assert Milestones(c, peerCert, Stage(c, s)) + [] == Milestones(c, peerCert, Stage(c, s));
    if Stage(c, Next(c, s)) != Stage(c, s) {
      assert Stage(c, Next(c, s)) == Stage(c, s) + 1 && Passes(s, peerCert) == Passed(c, peerCert, Stage(c, s));
    } else {
      assert Passes(s, peerCert) == [];
    }
  }

  /** At `Done`, in full: both keys switched once, each Finished after its switch, a client certificate verified first. */
  lemma {:induction false} MilestonesAtDone(c: Config, peerCert: bool)
    ensures Milestones(c, peerCert, Stage(c, Done))
         == if c.resume then [SwitchedWrite, Milestone.SentFinished, SwitchedRead, CheckedFinished]
            else (if peerCert then [VerifiedCert] else [])
                 + [KeyExchanged, SwitchedRead, CheckedFinished, SwitchedWrite, Milestone.SentFinished]
  {
    if c.resume {
      assert Milestones(c, peerCert, 1) == [SwitchedWrite, Milestone.SentFinished];
      assert Milestones(c, peerCert, 2) == [SwitchedWrite, Milestone.SentFinished, SwitchedRead];
    } else {
      var v := if peerCert then [VerifiedCert] else [];
      assert Milestones(c, peerCert, 1) == v;
      assert Milestones(c, peerCert, 2) == v + [KeyExchanged];
      assert Milestones(c, peerCert, 3) == v + [KeyExchanged, SwitchedRead];
      assert Milestones(c, peerCert, 4) == v + [KeyExchanged, SwitchedRead, CheckedFinished];
    }
  }

  /** What holds of a server whatever it receives. */
  predicate Inv(c: Config, e: Server) {
    OnPath(c, e.state) && Sound(e) && e.milestones == Milestones(c, e.peerCert, Stage(c, e.state))
  }

  /** Only the client's certificate, before anything that cannot be taken back, says whether there is one. */
  lemma {:induction false} PeerCertKnownEarly(c: Config, s: State, peerCert: bool, p: Peeked, i: Input, expected: seq<byte>)
    ensures var mv := Decide(c, s, peerCert, p, i, expected);
            mv.Move? && mv.peerCert ==> s == ReadClientCertificate
  {
    hide Leads, MoveMilestones, OutEntries;
  }

  lemma {:induction false} StepInv(c: Config, e: Server, inbox: seq<Wire>, i: Input, mac: Mac)
    requires Inv(c, e)
    ensures Inv(c, Step(c, e, inbox, i, mac))
    ensures var mv := Plan(c, e, inbox, i, mac);
            e.state == Done || (if mv.Blocks() then Step(c, e, inbox, i, mac) == e.(wait := mv.wait)
                                else mv.Move? && Rank(c, Step(c, e, inbox, i, mac).state) < Rank(c, e.state))
  {
    hide Decide, Sound, Milestones, Stage, Passes, Next, Rank, MoveMilestones, End.AddAll, End.Prepare;
    var mv := Plan(c, e, inbox, i, mac);
    if e.state == Done {
      DoneStays(c, e, inbox, i, mac);
      WaitKeeps(e, Ok);
    } else {
      DecideLeads(c, e.state, e.peerCert, Peek(e.readEpoch, inbox), i, mac(e.transcript, false));
      PeerCertKnownEarly(c, e.state, e.peerCert, Peek(e.readEpoch, inbox), i, mac(e.transcript, false));
      RankFalls(c, e.state);
      StageStep(c, e.state, e.peerCert);
      ApplyKeeps(e, mv, inbox, mac, true);
      if mv.Move? && mv.peerCert { NothingYet(c, e.peerCert); }
    }
  }

  lemma {:induction false} NothingYet(c: Config, peerCert: bool)
    requires OnPath(c, ReadClientCertificate)
    ensures Passes(ReadClientCertificate, peerCert) == []
    ensures forall b: bool :: Milestones(c, b, Stage(c, ReadClientCertificate)) == []
    ensures forall b: bool :: Milestones(c, b, Stage(c, Next(c, ReadClientCertificate))) == []
  {
  }

  lemma {:induction false} DoneStays(c: Config, e: Server, inbox: seq<Wire>, i: Input, mac: Mac)
    requires e.state == Done
    ensures Step(c, e, inbox, i, mac) == e.(wait := Ok)
  {
  }

  // ---- The server's part of the script --------------------------------------------------------

  function ReadEpochAt(c: Config, s: State): nat { if Rank(c, s) <= (if c.resume then 4 else 5) then 1 else 0 }

  function WriteEpochAt(c: Config, s: State): nat { if Rank(c, s) <= (if c.resume then 6 else 1) then 1 else 0 }

  /** The epochs are those of the milestones passed. */
  lemma {:induction false} EpochsAt(c: Config, e: Server)
    requires Inv(c, e)
    ensures e.readEpoch == ReadEpochAt(c, e.state) && e.writeEpoch == WriteEpochAt(c, e.state)
  {
    hide Milestones, Count;
    CountMilestones(c, e.peerCert, Stage(c, e.state));
  }

  lemma {:induction false} CountMilestones(c: Config, peerCert: bool, k: nat)
    requires k <= if c.resume then 3 else 5
    ensures Count(Milestones(c, peerCert, k), SwitchedRead) == if k >= (if c.resume then 2 else 3) then 1 else 0
    ensures Count(Milestones(c, peerCert, k), SwitchedWrite) == if k >= (if c.resume then 1 else 5) then 1 else 0
  {
    if k > 0 {
      hide Count;
      var before := Milestones(c, peerCert, k - 1);
      CountMilestones(c, peerCert, k - 1);
      CountPassed(before, Passed(c, peerCert, k - 1), SwitchedRead);
      CountPassed(before, Passed(c, peerCert, k - 1), SwitchedWrite);
    }
  }

  /** The records the step of a state accounts for. */
  function Segment(c: Config, s: State): seq<Entry> {
    match s
    case SelectParameters => [Says(false, 0, ClientHello)]
    case SendServerHello => [Says(true, 0, ServerHello)]
    case SendServerCertificate => If(c.CertAuth(), Says(true, 0, Certificate)) + If(c.ocsp && c.CertAuth(), Says(true, 0, CertificateStatus))
    case SendServerKeyExchange => If(c.SendsSke(), Says(true, 0, ServerKeyExchange))
    case SendServerHelloDone => If(c.requestsCert, Says(true, 0, CertificateRequest)) + [Says(true, 0, ServerHelloDone)]
    case ReadClientCertificate => If(c.requestsCert, Says(false, 0, Certificate))
    case ReadClientKeyExchange => [Says(false, 0, ClientKeyExchange)]
    case ReadClientCertificateVerify => If(c.requestsCert && c.hasClientCert, Says(false, 0, CertificateVerify))
    case ReadChangeCipherSpec => []
    case ReadNextProto => If(c.npn, Says(false, 1, NextProto))
    case ReadChannelId => If(c.channelId, Says(false, 1, ChannelId))
    case ReadClientFinished => [Says(false, 1, Finished)]
    case SendServerFinished => If(c.ticket, Says(true, 0, NewSessionTicket)) + [Entry(true, 0, KCcs), Says(true, 1, Finished)]
    case _ => []
  }

  /** The records the run-handshake loop reads between the steps: the ChangeCipherSpec. */
  function Between(s: State): seq<Entry> {
    if s == ReadChangeCipherSpec then [Entry(false, 0, KCcs)] else []
  }

  /** What is left of the handshake for a server in a state. */
  function Rest(c: Config, s: State): seq<Entry>
    decreases Rank(c, s)
  {
    if s == Done || !OnPath(c, s) then []
    else
      RankFalls(c, s);
      Segment(c, s) + Between(s) + Rest(c, Next(c, s))
  }

  /** The type of the next message, in the states that look at one. */
  function Expects(c: Config, s: State): Option<MsgType> {
    match s
    case ReadClientHello => Some(ClientHello)
    case SelectCertificate => Some(ClientHello)
    case SelectParameters => Some(ClientHello)
    case ReadClientCertificate => if c.requestsCert then Some(Certificate) else None
    case ReadClientKeyExchange => Some(ClientKeyExchange)
    case ReadClientCertificateVerify => if c.requestsCert && c.hasClientCert then Some(CertificateVerify) else None
    case ReadNextProto => if c.npn then Some(NextProto) else None
    case ReadChannelId => if c.channelId then Some(ChannelId) else None
    case ReadClientFinished => Some(Finished)
    case _ => None
  }

  lemma {:induction false} ExpectsHead(c: Config, s: State)
    requires OnPath(c, s) && Expects(c, s).Some?
    ensures Rest(c, s) != [] && Rest(c, s)[0] == Says(false, ReadEpochAt(c, s), Expects(c, s).value)
  {
    if s == ReadClientHello || s == SelectCertificate {
      assert Rest(c, SelectParameters)[0] == Says(false, 0, ClientHello);
      assert Rest(c, SelectCertificate) == Rest(c, SelectParameters);
      assert Rest(c, ReadClientHello) == Rest(c, SelectCertificate);
    }
  }

  /** What the server knows of a client certificate when the client follows the script. */
  predicate Knows(c: Config, s: State, peerCert: bool) {
    peerCert == (c.requestsCert && c.hasClientCert && !c.resume && Rank(c, s) <= 10)
  }

  /** What a server waits for after the step of a state. */
  function WaitAfter(s: State): Wait {
    if s == ReadChangeCipherSpec then ReadCcs
    else if s == SendServerHelloDone || s == SendServerFinished then Flush
    else Ok
  }

  lemma {:induction false} HelloFollows(c: Config, s: State, peerCert: bool, p: Peeked, i: Input, expected: seq<byte>)
    requires c.Valid() && OnPath(c, s) && s != Done && Knows(c, s, peerCert)
    requires Expects(c, s).Some? ==> p.Nothing? || (p.Got? && p.msg.typ == Expects(c, s).value)
    requires p.Got? && p.msg.typ == Finished ==> p.msg.body == expected
    requires p.Got? && p.msg.typ == Certificate ==> (EmptyChain(p.msg) <==> !c.hasClientCert)
    requires Rank(c, s) >= 14
    ensures Plays(Decide(c, s, peerCert, p, i, expected), Segment(c, s), true, p, ReadEpochAt(c, s), WriteEpochAt(c, s))
  {
    hide Leads, MoveMilestones, OutMilestones, PlainMark, SendCertificates, SendKeyExchange, SendHelloDone, SendLastFlight;
    OneOut(true, 0, SendMessage(Msg(ServerHello, i.bodies(ServerHello))));
  }

  lemma {:induction false} KeyExchangeFollows(c: Config, s: State, peerCert: bool, p: Peeked, i: Input, expected: seq<byte>)
    requires c.Valid() && OnPath(c, s) && s != Done && Knows(c, s, peerCert)
    requires Expects(c, s).Some? ==> p.Nothing? || (p.Got? && p.msg.typ == Expects(c, s).value)
    requires p.Got? && p.msg.typ == Finished ==> p.msg.body == expected
    requires p.Got? && p.msg.typ == Certificate ==> (EmptyChain(p.msg) <==> !c.hasClientCert)
    requires 8 <= Rank(c, s) < 14
    ensures Plays(Decide(c, s, peerCert, p, i, expected), Segment(c, s), true, p, ReadEpochAt(c, s), WriteEpochAt(c, s))
  {
    hide Leads, MoveMilestones, OutMilestones, PlainMark, SendCertificates, SendKeyExchange, SendHelloDone, SendLastFlight;
  }

  lemma {:induction false} FinishFollows(c: Config, s: State, peerCert: bool, p: Peeked, i: Input, expected: seq<byte>)
    requires c.Valid() && OnPath(c, s) && s != Done && Knows(c, s, peerCert)
    requires Expects(c, s).Some? ==> p.Nothing? || (p.Got? && p.msg.typ == Expects(c, s).value)
    requires p.Got? && p.msg.typ == Finished ==> p.msg.body == expected
    requires p.Got? && p.msg.typ == Certificate ==> (EmptyChain(p.msg) <==> !c.hasClientCert)
    requires Rank(c, s) < 8
    ensures Plays(Decide(c, s, peerCert, p, i, expected), Segment(c, s), true, p, ReadEpochAt(c, s), WriteEpochAt(c, s))
  {
    hide Leads, MoveMilestones, OutMilestones, PlainMark, SendCertificates, SendKeyExchange, SendHelloDone, SendLastFlight;
  }

  lemma {:induction false} CertificateLearnt(c: Config, s: State, peerCert: bool, p: Peeked, i: Input, expected: seq<byte>)
    requires c.Valid() && OnPath(c, s) && s != Done && Knows(c, s, peerCert)
    requires Expects(c, s).Some? ==> p.Nothing? || (p.Got? && p.msg.typ == Expects(c, s).value)
    requires p.Got? && p.msg.typ == Finished ==> p.msg.body == expected
    requires p.Got? && p.msg.typ == Certificate ==> (EmptyChain(p.msg) <==> !c.hasClientCert)
    requires s == ReadClientCertificate
    ensures var mv := Decide(c, s, peerCert, p, i, expected);
            mv.Move? ==> (peerCert || mv.peerCert) == (c.requestsCert && c.hasClientCert && !c.resume)
  {
    hide Leads, MoveMilestones, OutEntries;
  }

  lemma {:induction false} RankPasses(c: Config, s: State)
    requires OnPath(c, s) && s != ReadClientCertificate && !c.resume
    ensures Rank(c, s) <= 10 <==> Rank(c, Next(c, s)) <= 10
  {
  }

  /** What a step learns. */
  lemma {:induction false} LearnsFollow(c: Config, s: State, peerCert: bool, p: Peeked, i: Input, expected: seq<byte>)
    requires c.Valid() && OnPath(c, s) && s != Done && Knows(c, s, peerCert)
    requires Expects(c, s).Some? ==> p.Nothing? || (p.Got? && p.msg.typ == Expects(c, s).value)
    requires p.Got? && p.msg.typ == Finished ==> p.msg.body == expected
    requires p.Got? && p.msg.typ == Certificate ==> (EmptyChain(p.msg) <==> !c.hasClientCert)
    ensures var mv := Decide(c, s, peerCert, p, i, expected);
            mv.Move? ==> Knows(c, Next(c, s), peerCert || mv.peerCert)
  {
    hide Decide, OnPath;
    PeerCertKnownEarly(c, s, peerCert, p, i, expected);
    if s == ReadClientCertificate { CertificateLearnt(c, s, peerCert, p, i, expected); }
    else if !c.resume { RankPasses(c, s); }
  }

  /** What a step waits for, and that it takes only a message it looks at. */
  lemma {:induction false} WaitsFollow(c: Config, s: State, peerCert: bool, p: Peeked, i: Input, expected: seq<byte>)
    requires c.Valid() && OnPath(c, s) && s != Done && Knows(c, s, peerCert)
    requires Expects(c, s).Some? ==> p.Nothing? || (p.Got? && p.msg.typ == Expects(c, s).value)
    requires p.Got? && p.msg.typ == Finished ==> p.msg.body == expected
    requires p.Got? && p.msg.typ == Certificate ==> (EmptyChain(p.msg) <==> !c.hasClientCert)
    ensures var mv := Decide(c, s, peerCert, p, i, expected);
            mv.Move? ==> mv.wait == WaitAfter(s) && (mv.took ==> Expects(c, s).Some?)
  {
    hide Leads, MoveMilestones, OutMilestones, PlainMark, SendCertificates, SendKeyExchange, SendHelloDone, SendLastFlight;
  }

  /**
   * On a message that is the next one of the script, with the client's MAC and its announced certificate, the
   * step of a state takes and sends exactly its segment, or waits, or fails for a reason of its own.
   */
  lemma {:induction false} DecideFollows(c: Config, s: State, peerCert: bool, p: Peeked, i: Input, expected: seq<byte>)
    requires c.Valid() && OnPath(c, s) && s != Done && Knows(c, s, peerCert)
    requires Expects(c, s).Some? ==> p.Nothing? || (p.Got? && p.msg.typ == Expects(c, s).value)
    requires p.Got? && p.msg.typ == Finished ==> p.msg.body == expected
    requires p.Got? && p.msg.typ == Certificate ==> (EmptyChain(p.msg) <==> !c.hasClientCert)
    ensures var mv := Decide(c, s, peerCert, p, i, expected);
            && Plays(mv, Segment(c, s), true, p, ReadEpochAt(c, s), WriteEpochAt(c, s))
            && (mv.Move? ==> Knows(c, Next(c, s), peerCert || mv.peerCert) && mv.wait == WaitAfter(s)
                             && (mv.took ==> Expects(c, s).Some?))
  {
    hide Decide, Plays, Knows;
    LearnsFollow(c, s, peerCert, p, i, expected);
    WaitsFollow(c, s, peerCert, p, i, expected);
    if Rank(c, s) >= 14 { HelloFollows(c, s, peerCert, p, i, expected); }
    else if Rank(c, s) >= 8 { KeyExchangeFollows(c, s, peerCert, p, i, expected); }
    else { FinishFollows(c, s, peerCert, p, i, expected); }
  }

  lemma {:induction false} DecideGenuine(c: Config, s: State, peerCert: bool, p: Peeked, i: Input, expected: seq<byte>)
    ensures var mv := Decide(c, s, peerCert, p, i, expected);
            mv.Move? ==> OutsGenuine(c, true, mv.out)
  {
    hide Leads, MoveMilestones, OutMilestones, OutEntries, SendLastFlight, SendCertificates, SendHelloDone, SendKeyExchange;
  }

  /** The head of the input is the next record of the script, and a Finished there is the client's, as is its certificate. */
  predicate Conforms(c: Config, e: Server, inbox: seq<Wire>, mac: Mac) {
    inbox != [] ==>
      && Rest(c, e.state) != [] && EntryOf(false, inbox[0]) == Rest(c, e.state)[0]
      && (inbox[0].item.Message? && inbox[0].item.msg.typ == Finished ==> inbox[0].item.msg.body == mac(e.transcript, false))
      && (inbox[0].item.Message? && inbox[0].item.msg.typ == Certificate ==> (EmptyChain(inbox[0].item.msg) <==> !c.hasClientCert))
  }

  lemma {:induction false} PeekFollows(c: Config, e: Server, inbox: seq<Wire>, mac: Mac)
    requires c.Valid() && Inv(c, e) && Conforms(c, e, inbox, mac)
    ensures var p := Peek(e.readEpoch, inbox);
            && (Expects(c, e.state).Some? ==> p.Nothing? || (p.Got? && p.msg.typ == Expects(c, e.state).value))
            && (p.Got? && p.msg.typ == Finished ==> p.msg.body == mac(e.transcript, false))
            && (p.Got? && p.msg.typ == Certificate ==> (EmptyChain(p.msg) <==> !c.hasClientCert))
            && (p.Nothing? <==> inbox == [])
  {
    hide Rest, Sound, Milestones;
    EpochsAt(c, e);
    if Expects(c, e.state).Some? { ExpectsHead(c, e.state); }
  }

  /** What a step takes from the input and queues for the client is exactly its segment of the script. */
  lemma {:induction false} StepFollows(c: Config, e: Server, inbox: seq<Wire>, i: Input, mac: Mac) returns (ws: seq<Wire>)
    requires c.Valid() && Inv(c, e) && Knows(c, e.state, e.peerCert) && e.state != Done && Conforms(c, e, inbox, mac)
    ensures var mv, e' := Plan(c, e, inbox, i, mac), Step(c, e, inbox, i, mac);
            if mv.Stop? then e' == e.(wait := mv.wait) && ws == []
                             && ((mv.wait.ReadMessage? && inbox == []) || mv.wait.Retry? || mv.wait == Failed(Internal))
            else
              && e'.state == Next(c, e.state) && e'.wait == WaitAfter(e.state) && Knows(c, e'.state, e'.peerCert)
              && (mv.took ==> inbox != [] && inbox[0].item.Message? && Expects(c, e.state).Some?)
              && Segment(c, e.state) == (if mv.took then [EntryOf(false, inbox[0])] else []) + Entries(true, ws)
              && e'.pending == e.pending + ws
              && e'.transcript == e.transcript + (if mv.took then [inbox[0].item.msg] else []) + Msgs(ws)
              && Genuine(c, true, ws, e.transcript + (if mv.took then [inbox[0].item.msg] else []), mac)
  {
    hide Decide, Rest, Segment, Expects, Sound, Milestones, Stage, Knows, Genuine, Msgs, OutEntries, OutsGenuine, PlainMark, Rank, Next;
    var p := Peek(e.readEpoch, inbox);
    var expected := mac(e.transcript, false);
    PeekFollows(c, e, inbox, mac);
    EpochsAt(c, e);
    DecideFollows(c, e.state, e.peerCert, p, i, expected);
    DecideLeads(c, e.state, e.peerCert, p, i, expected);
    DecideGenuine(c, e.state, e.peerCert, p, i, expected);
    var mv := Plan(c, e, inbox, i, mac);
    ws := [];
    if mv.Move? {
      StepInv(c, e, inbox, i, mac);
      ApplyKeeps(e, mv, inbox, mac, true);
      var e0 := e.Prepare(mv, inbox);
      ws := AddAllSends(c, e0, mv.out, mac, true);
      assert e.transcript + [] == e.transcript;
    }
  }

  /** The script of a state is its segment, then the ChangeCipherSpec after it if any, then that of the next state. */
  lemma {:induction false} RestStep(c: Config, s: State)
    requires OnPath(c, s) && s != Done
    ensures OnPath(c, Next(c, s)) && Rest(c, s) == Segment(c, s) + (Between(s) + Rest(c, Next(c, s)))
    ensures Between(s) == [] ==> Rest(c, s) == Segment(c, s) + Rest(c, Next(c, s))
    ensures Between(s) == [] && Segment(c, s) == [] ==> Rest(c, s) == Rest(c, Next(c, s))
  {
    hide Segment, Between, Next, Rank;
    RankFalls(c, s);
    Regroup(Segment(c, s), Between(s), Rest(c, Next(c, s)));
  }

  /** The server's whole script: the same as the client's. */
  lemma {:induction false} ScriptOfServer(c: Config)
    ensures Rest(c, StartAccept) == Script(c)
  {
    hide Rest, ServerKeyFlight, ClientKeyFlight, ClientFlight, ServerFlight;
    RestStep(c, StartAccept);
    RestStep(c, ReadClientHello);
    RestStep(c, SelectCertificate);
    RestStep(c, SelectParameters);
    RestStep(c, SendServerHello);
    if !c.resume {
      ServerKeyRest(c);
      ClientKeyRest(c);
    }
    FinalRest(c);
  }

  lemma {:induction false} ServerKeyRest(c: Config)
    requires !c.resume
    ensures Rest(c, SendServerCertificate) == ServerKeyFlight(c, Rest(c, ReadClientCertificate))
  {
    hide Rest, If;
    RestStep(c, SendServerCertificate);
    RestStep(c, SendServerKeyExchange);
    RestStep(c, SendServerHelloDone);
    Regroup(If(c.CertAuth(), Says(true, 0, Certificate)), If(c.ocsp && c.CertAuth(), Says(true, 0, CertificateStatus)),
            Rest(c, SendServerKeyExchange));
    Regroup(If(c.requestsCert, Says(true, 0, CertificateRequest)), [Says(true, 0, ServerHelloDone)], Rest(c, ReadClientCertificate));
  }

  lemma {:induction false} ClientKeyRest(c: Config)
    requires !c.resume
    ensures Rest(c, ReadClientCertificate) == ClientKeyFlight(c, Rest(c, ReadChangeCipherSpec))
  {
    hide Rest, If;
    RestStep(c, ReadClientCertificate);
    RestStep(c, VerifyClientCertificate);
    RestStep(c, ReadClientKeyExchange);
    RestStep(c, ReadClientCertificateVerify);
  }

  lemma {:induction false} ClientFlightRest(c: Config)
    ensures Rest(c, ReadChangeCipherSpec) == ClientFlight(c, Rest(c, Next(c, ReadClientFinished)))
  {
    hide Rest, If;
    RestStep(c, ReadChangeCipherSpec);
    RestStep(c, ProcessChangeCipherSpec);
    RestStep(c, ReadNextProto);
    RestStep(c, ReadChannelId);
    RestStep(c, ReadClientFinished);
    var rest := Between(ReadChangeCipherSpec) + Rest(c, ProcessChangeCipherSpec);
    assert [] + rest == rest;
  }

  lemma {:induction false} FinalRest(c: Config)
    ensures if c.resume then Rest(c, SendServerFinished) == ServerFlight(c, ClientFlight(c, []))
            else Rest(c, ReadChangeCipherSpec) == ClientFlight(c, ServerFlight(c, []))
  {
    hide Rest, If, ClientFlight, ServerFlight;
    DoneRest(c);
    RestStep(c, FinishServerHandshake);
    LastFlightRest(c);
    ClientFlightRest(c);
  }

  lemma {:induction false} LastFlightRest(c: Config)
    ensures Rest(c, SendServerFinished) == ServerFlight(c, Rest(c, Next(c, SendServerFinished)))
  {
    hide Rest, If;
    RestStep(c, SendServerFinished);
    var rest := Rest(c, Next(c, SendServerFinished));
    assert [Entry(true, 0, KCcs), Says(true, 1, Finished)] + rest == [Entry(true, 0, KCcs)] + ([Says(true, 1, Finished)] + rest);
    Regroup(If(c.ticket, Says(true, 0, NewSessionTicket)), [Entry(true, 0, KCcs), Says(true, 1, Finished)], rest);
  }

  lemma {:induction false} DoneRest(c: Config)
    ensures Rest(c, Done) == []
  {
  }

  // ---- Never waiting with something unsent ----------------------------------------------------

  /** The states between queueing messages and flushing them. */
  predicate Unflushed(s: State) {
    s.SendServerCertificate? || s.SendServerKeyExchange? || s.SendServerHelloDone? || s.SendServerFinished?
  }

  /** A step that waits for a message has none queued; what a step queues is flushed before the next read. */
  lemma {:induction false} DecideFlushes(c: Config, s: State, peerCert: bool, p: Peeked, i: Input, expected: seq<byte>)
    requires c.Valid() && OnPath(c, s) && Knows(c, s, peerCert)
    ensures var mv := Decide(c, s, peerCert, p, i, expected);
            if mv.Stop? then mv.wait.ReadMessage? ==> Expects(c, s).Some? && !Unflushed(s)
            else
              && (mv.out != [] || Unflushed(s) ==> mv.wait.Flush? || (Unflushed(mv.next) && mv.wait.Ok?))
              && (mv.wait.ReadMessage? ==> false)
  {
    hide Leads, MoveMilestones, OutMilestones, OutEntries, OutsGenuine;
  }

  predicate Live(c: Config, e: Server) {
    && (e.wait.ReadMessage? ==> Expects(c, e.state).Some?)
    && (e.pending != [] ==> e.wait.Flush? || (Unflushed(e.state) && !e.wait.ReadMessage? && !e.wait.ReadCcs?))
  }

  /** With good luck a step moves on unless its message has not come. */
  lemma {:induction false} GoodDecides(c: Config, s: State, peerCert: bool, p: Peeked, i: Input, expected: seq<byte>)
    requires c.Valid() && s != Done && i.Good()
    requires p.Got? && p.msg.typ == Certificate ==> (EmptyChain(p.msg) <==> !c.hasClientCert)
    ensures var mv := Decide(c, s, peerCert, p, i, expected);
            mv.Stop? ==> !mv.wait.Retry? && mv.wait != Failed(Internal)
  {
    hide Leads, MoveMilestones, OutMilestones, OutEntries, OutsGenuine;
  }

  lemma {:induction false} StepLive(c: Config, e: Server, inbox: seq<Wire>, i: Input, mac: Mac)
    requires c.Valid() && Inv(c, e) && Knows(c, e.state, e.peerCert) && e.state != Done && e.wait.Ok? && Live(c, e)
    ensures Live(c, Step(c, e, inbox, i, mac))
  {
    hide Decide, Rest, Segment, Expects, Sound, Milestones, Stage, Knows, OutsGenuine, Rank, Next;
    DecideFlushes(c, e.state, e.peerCert, Peek(e.readEpoch, inbox), i, mac(e.transcript, false));
    DecideLeads(c, e.state, e.peerCert, Peek(e.readEpoch, inbox), i, mac(e.transcript, false));
    var mv := Plan(c, e, inbox, i, mac);
    StepInv(c, e, inbox, i, mac);
    ApplyKeeps(e, mv, inbox, mac, true);
  }

  /** With good luck, a step over the next record of the script moves on, or finds that it has not come. */
  lemma {:induction false} GoodStep(c: Config, e: Server, inbox: seq<Wire>, i: Input, mac: Mac)
    requires c.Valid() && Inv(c, e) && Knows(c, e.state, e.peerCert) && e.state != Done && Conforms(c, e, inbox, mac) && i.Good()
    ensures var mv := Plan(c, e, inbox, i, mac);
            if mv.Stop? then mv.wait.ReadMessage? && inbox == [] && Expects(c, e.state).Some? && !Unflushed(e.state)
            else Rank(c, Step(c, e, inbox, i, mac).state) < Rank(c, e.state)
  {
    hide Decide, Rest, Segment, Expects, Sound, Milestones, Stage, Knows, Genuine, Msgs, Rank, Next, EmptyChain;
    var p, expected := Peek(e.readEpoch, inbox), mac(e.transcript, false);
    var ws := StepFollows(c, e, inbox, i, mac);
    PeekFollows(c, e, inbox, mac);
    DecideFlushes(c, e.state, e.peerCert, p, i, expected);
    GoodDecides(c, e.state, e.peerCert, p, i, expected);
    StepInv(c, e, inbox, i, mac);
  }

  /** A step that moves on does not wait for a message or a callback. */
  lemma {:induction false} MovesOn(c: Config, s: State, peerCert: bool, p: Peeked, i: Input, expected: seq<byte>)
    ensures var mv := Decide(c, s, peerCert, p, i, expected);
            mv.Move? ==> !mv.wait.Retry? && !mv.wait.ReadMessage? && !mv.wait.Failed?
  {
    hide Leads, MoveMilestones, OutMilestones, OutEntries, OutsGenuine;
  }

  /** A step that ends in such a wait, or fails, has changed nothing else. */
  lemma {:induction false} WaitsOnly(c: Config, e: Server, inbox: seq<Wire>, i: Input, mac: Mac)
    requires Inv(c, e) && e.wait.Ok?
    ensures var e' := Step(c, e, inbox, i, mac);
            e'.wait.Retry? || e'.wait.ReadMessage? || e'.wait.Failed? ==> e' == e.(wait := e'.wait)
  {
    hide Decide, Sound, Milestones, Stage, Rank, Next;
    MovesOn(c, e.state, e.peerCert, Peek(e.readEpoch, inbox), i, mac(e.transcript, false));
    if e.state != Done { DecideLeads(c, e.state, e.peerCert, Peek(e.readEpoch, inbox), i, mac(e.transcript, false)); }
    if e.state == Done { DoneStays(c, e, inbox, i, mac); } else { ApplyKeeps(e, Plan(c, e, inbox, i, mac), inbox, mac, true); }
  }

  /**
   * A Finished is taken in one state only, with the MAC the client must have made, and is then noted as checked; the
   * hello is taken by a step that does not look at its type, two steps after that was checked.
   */
  lemma {:induction false} FinishedIsChecked(c: Config, s: State, peerCert: bool, p: Peeked, i: Input, expected: seq<byte>)
    requires s == SelectParameters && p.Got? ==> p.msg.typ == ClientHello
    ensures var mv := Decide(c, s, peerCert, p, i, expected);
            && Checks(mv, p, expected)
            && (mv.Move? && mv.took && p.Got? && p.msg.typ == Finished ==> s == ReadClientFinished && p.msg.body == expected)
  {
    hide Leads, MoveMilestones, OutMilestones, OutEntries, PlainMark;
    DecideGenuine(c, s, peerCert, p, i, expected);
  }

  /** The server never starts the transcript again. */
  lemma {:induction false} NeverRestarts(c: Config, s: State, peerCert: bool, p: Peeked, i: Input, expected: seq<byte>)
    ensures var mv := Decide(c, s, peerCert, p, i, expected);
            mv.Move? ==> !mv.restart && (mv.took ==> p.Got?)
  {
    hide Leads, MoveMilestones, OutMilestones, OutEntries, OutsGenuine;
  }

  /** Nor does it take a HelloVerifyRequest. */
  lemma {:induction false} NoVerifyTaken(c: Config, s: State, peerCert: bool, p: Peeked, i: Input, expected: seq<byte>)
    requires s == SelectParameters && p.Got? ==> p.msg.typ == ClientHello
    ensures var mv := Decide(c, s, peerCert, p, i, expected);
            mv.Move? && mv.took && p.Got? ==> p.msg.typ != HelloVerifyRequest
  {
    hide Leads, MoveMilestones, OutMilestones, OutEntries, OutsGenuine;
  }

  /** Between the first look at the ClientHello and its taking, it stays at the head of the input. */
  predicate HelloAtHand(e: Server, inbox: seq<Wire>) {
    e.state == SelectCertificate || e.state == SelectParameters ==>
      var p := Peek(e.readEpoch, inbox);
      p.Got? && p.msg.typ == ClientHello && !e.wait.ReadCcs?
  }

  lemma {:induction false} HelloStaysAtHand(c: Config, e: Server, inbox: seq<Wire>, i: Input, mac: Mac)
    requires Inv(c, e) && HelloAtHand(e, inbox) && e.state != Done
    ensures HelloAtHand(Step(c, e, inbox, i, mac), AfterMove(inbox, Plan(c, e, inbox, i, mac)))
  {
    hide Decide, Sound, Milestones, Stage, Peek, End.AddAll, End.Prepare, MoveMilestones;
    var p, expected, mv := Peek(e.readEpoch, inbox), mac(e.transcript, false), Plan(c, e, inbox, i, mac);
    DecideLeads(c, e.state, e.peerCert, p, i, expected);
    ApplyKeeps(e, mv, inbox, mac, true);
    if mv.Move? && (mv.next == SelectCertificate || mv.next == SelectParameters) {
      LooksAtHello(c, e.state, e.peerCert, p, i, expected);
      GotoKeeps(e, inbox, mv.next, mac, true);
    }
  }

  lemma {:induction false} LooksAtHello(c: Config, s: State, peerCert: bool, p: Peeked, i: Input, expected: seq<byte>)
    ensures var mv := Decide(c, s, peerCert, p, i, expected);
            && (mv.Move? && s == ReadClientHello ==> mv == Goto(SelectCertificate) && p.Got? && p.msg.typ == ClientHello)
            && (mv.Move? && s == SelectCertificate ==> mv == Goto(SelectParameters))
  {
    hide Leads, MoveMilestones, OutMilestones, OutEntries, OutsGenuine;
  }

  lemma {:induction false} GotoKeeps(e: Server, inbox: seq<Wire>, next: State, mac: Mac, server: bool)
    ensures var e' := e.Apply(Goto(next), inbox, mac, server);
            e'.readEpoch == e.readEpoch && e'.wait.Ok?
  {
    hide Leads;
  }
}

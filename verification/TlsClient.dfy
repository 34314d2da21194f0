/** The client's handshake (`handshake_client.cc`), for TLS 1.0 to 1.2. */
module TlsClient {
  import opened Common
  import opened TlsHandshake

  datatype State =
    | StartConnect | EnterEarlyData | ReadHelloVerifyRequest | ReadServerHello | ReadServerCertificate
    | ReadCertificateStatus | VerifyServerCertificate | ReadServerKeyExchange | ReadCertificateRequest
    | ReadServerHelloDone | SendClientCertificate | SendClientKeyExchange | SendClientCertificateVerify
    | SendClientFinished | FinishFlight | ReadSessionTicket | ProcessChangeCipherSpec | ReadServerFinished
    | FinishClientHandshake | Done

  type Client = End<State>

  /** What has to be gone through on the way to `Done`; the resumption path visits the end of it in another order. */
  function Rank(c: Config, s: State): nat {
    match s
    case StartConnect => 19
    case EnterEarlyData => 18
    case ReadHelloVerifyRequest => 17
    case ReadServerHello => 16
    case ReadServerCertificate => 15
    case ReadCertificateStatus => 14
    case VerifyServerCertificate => 13
    case ReadServerKeyExchange => 12
    case ReadCertificateRequest => 11
    case ReadServerHelloDone => 10
    case SendClientCertificate => 9
    case SendClientKeyExchange => 8
    case SendClientCertificateVerify => 7
    case SendClientFinished => if c.resume then 3 else 6
    case FinishFlight => if c.resume then 2 else 5
    case ReadSessionTicket => if c.resume then 6 else 4
    case ProcessChangeCipherSpec => if c.resume then 5 else 3
    case ReadServerFinished => if c.resume then 4 else 2
    case FinishClientHandshake => 1
    case Done => 0
  }

  /** Sending a ClientHello and flushing it. */
  function Hello(next: State, i: Input): (mv: Move<State>)
    ensures mv.Move? && mv.next == next && Leads(mv, next, [])
  {
    Then(Send(next, Msg(ClientHello, i.bodies(ClientHello))), Flush)
  }

  function ReadHelloVerify(p: Peeked, i: Input): (mv: Move<State>)
    ensures Leads(mv, ReadServerHello, []) && (mv.Move? && mv.took ==> p.Got?)
  {
    if !p.Got? then NoMessage(p)
    else if p.msg.typ != HelloVerifyRequest then Goto(ReadServerHello)
    else if !i.ok then Fail(Internal)
    else Restart(Hello(ReadServerHello, i))
  }

  function ReadStatus(c: Config, p: Peeked, i: Input): (mv: Move<State>)
    ensures Leads(mv, VerifyServerCertificate, []) && (mv.Move? && mv.took ==> p.Got?)
  {
    if !c.ocsp then Goto(VerifyServerCertificate)
    else if !p.Got? then NoMessage(p)
    else if p.msg.typ != CertificateStatus then Goto(VerifyServerCertificate)
    else if !i.ok then Fail(Internal)
    else Take(VerifyServerCertificate)
  }

  function VerifyCertificate(c: Config, i: Input): (mv: Move<State>)
    ensures Leads(mv, ReadServerKeyExchange, if c.CertAuth() then [VerifiedCert] else []) && (mv.Move? ==> !mv.took)
  {
    if !c.CertAuth() then Goto(ReadServerKeyExchange)
    else match i.callback
      case Refuse => Fail(Internal)
      case Later => Stop(Retry)
      case Proceed => Mark(Goto(ReadServerKeyExchange), VerifiedCert)
  }

  function ReadKeyExchange(c: Config, p: Peeked, i: Input): (mv: Move<State>)
    ensures Leads(mv, ReadCertificateRequest, []) && (mv.Move? && mv.took ==> p.Got?)
  {
    if !p.Got? then NoMessage(p)
    else if p.msg.typ != ServerKeyExchange then
      if c.RequiresSke() then Fail(UnexpectedMessage) else Goto(ReadCertificateRequest)
    else if c.kx.Rsa? then Fail(UnexpectedMessage)
    else if !i.ok then Fail(Internal)
    else Take(ReadCertificateRequest)
  }

  function ReadRequest(c: Config, p: Peeked, i: Input): (mv: Move<State>)
    ensures Leads(mv, ReadServerHelloDone, []) && (mv.Move? && mv.took ==> p.Got?)
  {
    if !c.CertAuth() then Goto(ReadServerHelloDone)
    else if !p.Got? then NoMessage(p)
    else if p.msg.typ == ServerHelloDone then Goto(ReadServerHelloDone)
    else if p.msg.typ != CertificateRequest then Fail(UnexpectedMessage)
    else if !i.ok then Fail(Internal)
    else Note(Take(ReadServerHelloDone), true, false)
  }

  /** The client's Certificate message: an empty chain exactly when it has no certificate. */
  function SendCertificate(c: Config, certRequest: bool, i: Input): (mv: Move<State>)
    ensures Leads(mv, SendClientKeyExchange, []) && JustSends(mv, Ok) && (mv.Move? ==> OutsGenuine(c, false, mv.out))
    ensures mv.Move? ==> OutEntries(false, 0, mv.out) == If(certRequest, Says(false, 0, Certificate))
  {
    var m := Msg(Certificate, if c.hasClientCert then i.bodies(Certificate) else [0, 0, 0]);
    OneOut(false, 0, SendMessage(m));
    if !certRequest then Goto(SendClientKeyExchange)
    else match i.callback
      case Refuse => Fail(Internal)
      case Later => Stop(Retry)
      case Proceed =>
        if !i.ok || (c.hasClientCert && EmptyChain(m)) then Fail(Internal) else Send(SendClientKeyExchange, m)
  }

  function SendVerify(c: Config, certRequest: bool, i: Input): (mv: Move<State>)
    ensures Leads(mv, SendClientFinished, []) && JustSends(mv, Ok)
    ensures mv.Move? ==> OutEntries(false, 0, mv.out) == If(certRequest && c.hasClientCert, Says(false, 0, CertificateVerify))
  {
    OneOut(false, 0, SendMessage(Msg(CertificateVerify, i.bodies(CertificateVerify))));
    if !certRequest || !c.hasClientCert then Goto(SendClientFinished)
    else match i.callback
      case Refuse => Fail(Internal)
      case Later => Stop(Retry)
      case Proceed => Send(SendClientFinished, Msg(CertificateVerify, i.bodies(CertificateVerify)))
  }

  /** Channel ID is resolved before anything that cannot be repeated. */
  function SendLastFlight(c: Config, i: Input): (mv: Move<State>)
    ensures Leads(mv, FinishFlight, [SwitchedWrite, Milestone.SentFinished]) && JustSends(mv, Flush)
    ensures mv.Move? ==> OutsGenuine(c, false, mv.out)
    ensures mv.Move? ==>
              OutEntries(false, 0, mv.out) ==
              [Entry(false, 0, KCcs)] + If(c.npn, Says(false, 1, NextProto)) + If(c.channelId, Says(false, 1, ChannelId))
              + [Says(false, 1, Finished)]
  {
    var npn := SendMessage(Msg(NextProto, i.bodies(NextProto)));
    var id := SendMessage(Msg(ChannelId, i.bodies(ChannelId)));
    LastFlightOut(c, npn, id);
    hide OutMilestones, OutEntries, OutsGenuine, LastFlight;
    if c.channelId && i.callback.Later? then Stop(Retry)
    else if !i.ok || (c.channelId && i.callback.Refuse?) then Fail(Internal)
    else
      var mv := Then(Goto(FinishFlight), Flush);
      mv.(out := LastFlight(c, npn, id))
  }

  function LastFlight(c: Config, npn: Out, id: Out): seq<Out> {
    [SendCcs] + (If(c.npn, npn) + (If(c.channelId, id) + [Out.SendFinished]))
  }

  lemma {:induction false} LastFlightOut(c: Config, npn: Out, id: Out)
    requires npn.SendMessage? && npn.msg.typ == NextProto && id.SendMessage? && id.msg.typ == ChannelId
    ensures OutMilestones(LastFlight(c, npn, id)) == [SwitchedWrite, Milestone.SentFinished]
    ensures OutEntries(false, 0, LastFlight(c, npn, id)) ==
            [Entry(false, 0, KCcs)] + If(c.npn, Says(false, 1, NextProto)) + If(c.channelId, Says(false, 1, ChannelId))
            + [Says(false, 1, Finished)]
    ensures OutsGenuine(c, false, LastFlight(c, npn, id))
  {
    hide OutMilestones, OutEntries;
    var last := [Out.SendFinished];
    var afterNpn := If(c.channelId, id) + last;
    var afterCcs := If(c.npn, npn) + afterNpn;
    OneOut(false, 1, Out.SendFinished);
    MoreOut(false, 1, id, last);
    MoreOut(false, 1, npn, afterNpn);
    MoreOut(false, 0, SendCcs, afterCcs);
    assert [] + last == last && [] + afterNpn == afterNpn;
  }

  function ReadTicket(c: Config, p: Peeked, i: Input): (mv: Move<State>)
    ensures Leads(mv, ProcessChangeCipherSpec, []) && (mv.Move? && mv.took ==> p.Got?)
  {
    if !c.ticket then Then(Goto(ProcessChangeCipherSpec), ReadCcs)
    else
      var mv := Expect(p, NewSessionTicket, i.ok, ProcessChangeCipherSpec);
      if mv.Move? then Then(mv, ReadCcs) else mv
  }

  /** What one turn of the loop of `ssl_client_handshake` decides. */
  function Decide(c: Config, s: State, certRequest: bool, p: Peeked, i: Input, expected: seq<byte>): Move<State> {
    match s
    case StartConnect => if !i.ok then Fail(Internal) else Hello(EnterEarlyData, i)
    case EnterEarlyData => Goto(if c.dtls then ReadHelloVerifyRequest else ReadServerHello)
    case ReadHelloVerifyRequest => ReadHelloVerify(p, i)
    case ReadServerHello => Expect(p, ServerHello, i.ok, if c.resume then ReadSessionTicket else ReadServerCertificate)
    case ReadServerCertificate =>
      if !c.CertAuth() then Goto(ReadCertificateStatus) else Expect(p, Certificate, i.ok, ReadCertificateStatus)
    case ReadCertificateStatus => ReadStatus(c, p, i)
    case VerifyServerCertificate => VerifyCertificate(c, i)
    case ReadServerKeyExchange => ReadKeyExchange(c, p, i)
    case ReadCertificateRequest => ReadRequest(c, p, i)
    case ReadServerHelloDone => Expect(p, ServerHelloDone, i.ok, SendClientCertificate)
    case SendClientCertificate => SendCertificate(c, certRequest, i)
    case SendClientKeyExchange =>
      if !i.ok then Fail(Internal)
      else Mark(Send(SendClientCertificateVerify, Msg(ClientKeyExchange, i.bodies(ClientKeyExchange))), KeyExchanged)
    case SendClientCertificateVerify => SendVerify(c, certRequest, i)
    case SendClientFinished => SendLastFlight(c, i)
    case FinishFlight =>
      if c.resume then Goto(FinishClientHandshake)
      else Then(Goto(ReadSessionTicket), if c.falseStart then EarlyReturn else Ok)
    case ReadSessionTicket => ReadTicket(c, p, i)
    case ProcessChangeCipherSpec => if !i.ok then Fail(Internal) else SwitchKeys(ReadServerFinished)
    case ReadServerFinished => GetFinished(p, expected, if c.resume then SendClientFinished else FinishClientHandshake)
    case FinishClientHandshake => Goto(Done)
    case Done => Stop(Ok)
  }

  function Plan(c: Config, e: Client, inbox: seq<Wire>, i: Input, mac: Mac): (mv: Move<State>)
    ensures mv.Move? && mv.took ==> Peek(e.readEpoch, inbox).Got?
  {
    Decide(c, e.state, e.certRequest, Peek(e.readEpoch, inbox), i, mac(e.transcript, true))
  }

  /** One turn of the loop of `ssl_client_handshake`. */
  function Step(c: Config, e: Client, inbox: seq<Wire>, i: Input, mac: Mac): Client {
    e.Apply(Plan(c, e, inbox, i, mac), inbox, mac, false)
  }

  const Start: Client := End(StartConnect, Ok, [], 0, 0, false, false, [], [])

  // ---- Properties of every step, whatever the server sends ------------------------------------

  /** The only state a step can lead to. */
  function Next(c: Config, s: State): State {
    match s
    case StartConnect => EnterEarlyData
    case EnterEarlyData => if c.dtls then ReadHelloVerifyRequest else ReadServerHello
    case ReadHelloVerifyRequest => ReadServerHello
    case ReadServerHello => if c.resume then ReadSessionTicket else ReadServerCertificate
    case ReadServerCertificate => ReadCertificateStatus
    case ReadCertificateStatus => VerifyServerCertificate
    case VerifyServerCertificate => ReadServerKeyExchange
    case ReadServerKeyExchange => ReadCertificateRequest
    case ReadCertificateRequest => ReadServerHelloDone
    case ReadServerHelloDone => SendClientCertificate
    case SendClientCertificate => SendClientKeyExchange
    case SendClientKeyExchange => SendClientCertificateVerify
    case SendClientCertificateVerify => SendClientFinished
    case SendClientFinished => FinishFlight
    case FinishFlight => if c.resume then FinishClientHandshake else ReadSessionTicket
    case ReadSessionTicket => ProcessChangeCipherSpec
    case ProcessChangeCipherSpec => ReadServerFinished
    case ReadServerFinished => if c.resume then SendClientFinished else FinishClientHandshake
    case FinishClientHandshake => Done
    case Done => Done
  }

  /** What the step of a state does that cannot be taken back. */
  function Passes(c: Config, s: State): seq<Milestone> {
    match s
    case VerifyServerCertificate => if c.CertAuth() then [VerifiedCert] else []
    case SendClientKeyExchange => [KeyExchanged]
    case SendClientFinished => [SwitchedWrite, Milestone.SentFinished]
    case ProcessChangeCipherSpec => [SwitchedRead]
    case ReadServerFinished => [CheckedFinished]
    case _ => []
  }

  lemma {:induction false} DecideLeads(c: Config, s: State, certRequest: bool, p: Peeked, i: Input, expected: seq<byte>)
    requires s != Done
    ensures Leads(Decide(c, s, certRequest, p, i, expected), Next(c, s), Passes(c, s))
  {
    hide PlainMark, Expect, GetFinished, ReadHelloVerify, ReadStatus, VerifyCertificate, ReadKeyExchange, ReadRequest,
         SendCertificate, SendVerify, SendLastFlight, ReadTicket, MoveMilestones;
  }

  /** The states of the path taken: resumption skips the server's flight and the client's key exchange. */
  predicate OnPath(c: Config, s: State) {
    c.resume ==> Rank(c, s) >= 16 || Rank(c, s) <= 6
  }

  lemma {:induction false} RankFalls(c: Config, s: State)
    requires OnPath(c, s) && s != Done
    ensures OnPath(c, Next(c, s)) && Rank(c, Next(c, s)) < Rank(c, s)
  {
  }

  // ---- What has been done at a state, exactly -------------------------------------------------

  /** How many of the steps that cannot be taken back lie behind a state. */
  function Stage(c: Config, s: State): nat {
    var r := Rank(c, s);
    if c.resume then if r >= 5 then 0 else if r == 4 then 1 else if r == 3 then 2 else 3
    else if r >= 13 then 0 else if r >= 8 then 1 else if r >= 6 then 2 else if r >= 3 then 3 else if r == 2 then 4 else 5
  }

  /** What the `k`th such step does: the order differs between a full handshake and a resumption. */
  function Passed(c: Config, k: nat): seq<Milestone> {
    if c.resume then
      if k == 0 then [SwitchedRead] else if k == 1 then [CheckedFinished] else if k == 2 then [SwitchedWrite, Milestone.SentFinished] else []
    else
      if k == 0 then (if c.CertAuth() then [VerifiedCert] else [])
      else if k == 1 then [KeyExchanged]
      else if k == 2 then [SwitchedWrite, Milestone.SentFinished]
      else if k == 3 then [SwitchedRead]
      else if k == 4 then [CheckedFinished]
      else []
  }

  /** The steps that cannot be taken back, once each and in order, up to stage `k`. */
  function Milestones(c: Config, k: nat): seq<Milestone> {
    if k == 0 then [] else Milestones(c, k - 1) + Passed(c, k - 1)
  }

  lemma {:induction false} StageStep(c: Config, s: State)
    requires OnPath(c, s) && s != Done
    ensures Milestones(c, Stage(c, Next(c, s))) == Milestones(c, Stage(c, s)) + Passes(c, s)
  {
    assert Milestones(c, Stage(c, s)) + [] == Milestones(c, Stage(c, s));
    if Stage(c, Next(c, s)) != Stage(c, s) {
      assert Stage(c, Next(c, s)) == Stage(c, s) + 1 && Passes(c, s) == Passed(c, Stage(c, s));
    } else {
      assert Passes(c, s) == [];
    }
  }

  /** At `Done`, in full: both keys switched once, each Finished after its switch, the certificate verified first. */
  lemma {:induction false} MilestonesAtDone(c: Config)
    ensures Milestones(c, Stage(c, Done))
         == if c.resume then [SwitchedRead, CheckedFinished, SwitchedWrite, Milestone.SentFinished]
            else (if c.CertAuth() then [VerifiedCert] else [])
                 + [KeyExchanged, SwitchedWrite, Milestone.SentFinished, SwitchedRead, CheckedFinished]
  {
    if c.resume {
      assert Milestones(c, 1) == [SwitchedRead];
      assert Milestones(c, 2) == [SwitchedRead, CheckedFinished];
    } else {
      var v := if c.CertAuth() then [VerifiedCert] else [];
      assert Milestones(c, 1) == v;
      assert Milestones(c, 2) == v + [KeyExchanged];
      assert Milestones(c, 3) == v + [KeyExchanged, SwitchedWrite, Milestone.SentFinished];
      assert Milestones(c, 4) == v + [KeyExchanged, SwitchedWrite, Milestone.SentFinished, SwitchedRead];
    }
  }

  /** What holds of a client whatever it receives. */
  predicate Inv(c: Config, e: Client) {
    OnPath(c, e.state) && Sound(e) && e.milestones == Milestones(c, Stage(c, e.state))
  }

  lemma {:induction false} StepInv(c: Config, e: Client, inbox: seq<Wire>, i: Input, mac: Mac)
    requires Inv(c, e)
    ensures Inv(c, Step(c, e, inbox, i, mac))
    ensures var mv := Plan(c, e, inbox, i, mac);
            e.state == Done || (if mv.Blocks() then Step(c, e, inbox, i, mac) == e.(wait := mv.wait)
                                else mv.Move? && Rank(c, Step(c, e, inbox, i, mac).state) < Rank(c, e.state))
  {
    hide Decide, Sound, Milestones, Stage, Passes, Next, Rank, MoveMilestones, End.AddAll, End.Prepare;
    var mv := Plan(c, e, inbox, i, mac);
    if e.state != Done {
      DecideLeads(c, e.state, e.certRequest, Peek(e.readEpoch, inbox), i, mac(e.transcript, true));
      RankFalls(c, e.state);
      StageStep(c, e.state);
      ApplyKeeps(e, mv, inbox, mac, false);
    } else {
      DoneStays(c, e, inbox, i, mac);
      WaitKeeps(e, Ok);
    }
  }

  lemma {:induction false} DoneStays(c: Config, e: Client, inbox: seq<Wire>, i: Input, mac: Mac)
    requires e.state == Done
    ensures Step(c, e, inbox, i, mac) == e.(wait := Ok)
  {
  }

  // ---- The client's part of the script --------------------------------------------------------

  function ReadEpochAt(c: Config, s: State): nat { if Rank(c, s) <= (if c.resume then 4 else 2) then 1 else 0 }

  function WriteEpochAt(c: Config, s: State): nat { if Rank(c, s) <= (if c.resume then 2 else 5) then 1 else 0 }

  /** The epochs are those of the milestones passed. */
  lemma {:induction false} EpochsAt(c: Config, e: Client)
    requires Inv(c, e)
    ensures e.readEpoch == ReadEpochAt(c, e.state) && e.writeEpoch == WriteEpochAt(c, e.state)
  {
    hide Count, Milestones;
    CountMilestones(c, Stage(c, e.state));
  }

  lemma {:induction false} CountMilestones(c: Config, k: nat)
    requires k <= if c.resume then 3 else 5
    ensures Count(Milestones(c, k), SwitchedRead) == if k >= (if c.resume then 1 else 4) then 1 else 0
    ensures Count(Milestones(c, k), SwitchedWrite) == if k >= 3 then 1 else 0
  {
    if k > 0 {
      hide Count;
      var before := Milestones(c, k - 1);
      CountMilestones(c, k - 1);
      CountPassed(before, Passed(c, k - 1), SwitchedRead);
      CountPassed(before, Passed(c, k - 1), SwitchedWrite);
    }
  }

  /** The records the step of a state accounts for. */
  function Segment(c: Config, s: State): seq<Entry> {
    match s
    case StartConnect => [Says(false, 0, ClientHello)]
    case ReadServerHello => [Says(true, 0, ServerHello)]
    case ReadServerCertificate => If(c.CertAuth(), Says(true, 0, Certificate))
    case ReadCertificateStatus => If(c.ocsp && c.CertAuth(), Says(true, 0, CertificateStatus))
    case ReadServerKeyExchange => If(c.SendsSke(), Says(true, 0, ServerKeyExchange))
    case ReadCertificateRequest => If(c.requestsCert, Says(true, 0, CertificateRequest))
    case ReadServerHelloDone => [Says(true, 0, ServerHelloDone)]
    case SendClientCertificate => If(c.requestsCert, Says(false, 0, Certificate))
    case SendClientKeyExchange => [Says(false, 0, ClientKeyExchange)]
    case SendClientCertificateVerify => If(c.requestsCert && c.hasClientCert, Says(false, 0, CertificateVerify))
    case SendClientFinished =>
      [Entry(false, 0, KCcs)] + If(c.npn, Says(false, 1, NextProto)) + If(c.channelId, Says(false, 1, ChannelId))
      + [Says(false, 1, Finished)]
    case ReadSessionTicket => If(c.ticket, Says(true, 0, NewSessionTicket))
    case ReadServerFinished => [Says(true, 1, Finished)]
    case _ => []
  }

  /** The records the run-handshake loop reads between the steps: the ChangeCipherSpec. */
  function Between(s: State): seq<Entry> {
    if s == ReadSessionTicket then [Entry(true, 0, KCcs)] else []
  }

  /** What is left of the handshake for a client in a state. */
  function Rest(c: Config, s: State): seq<Entry>
    decreases Rank(c, s)
  {
    if s == Done || !OnPath(c, s) then []
    else
      RankFalls(c, s);
      Segment(c, s) + Between(s) + Rest(c, Next(c, s))
  }

  /** The type of the next message, in the states that look at one. */
  function Expects(c: Config, s: State): Option<MsgType> {
    match s
    case ReadHelloVerifyRequest => Some(ServerHello)
    case ReadServerHello => Some(ServerHello)
    case ReadServerCertificate => if c.CertAuth() then Some(Certificate) else None
    case ReadCertificateStatus => if c.ocsp then Some(CertificateStatus) else None
    case ReadServerKeyExchange =>
      Some(if c.SendsSke() then ServerKeyExchange else if c.requestsCert then CertificateRequest else ServerHelloDone)
    case ReadCertificateRequest =>
      if c.CertAuth() then Some(if c.requestsCert then CertificateRequest else ServerHelloDone) else None
    case ReadServerHelloDone => Some(ServerHelloDone)
    case ReadSessionTicket => if c.ticket then Some(NewSessionTicket) else None
    case ReadServerFinished => Some(Finished)
    case _ => None
  }

  /** The script begins with the segment of the state, or with that of the next one when it has none. */
  lemma {:induction false} RestHead(c: Config, s: State)
    requires OnPath(c, s) && s != Done
    ensures OnPath(c, Next(c, s))
    ensures Segment(c, s) != [] ==> Rest(c, s) != [] && Rest(c, s)[0] == Segment(c, s)[0]
    ensures Segment(c, s) == [] && Between(s) == [] ==> Rest(c, s) == Rest(c, Next(c, s))
  {
    hide Segment, Between, Next, Rank;
    RankFalls(c, s);
  }

  lemma {:induction false} ExpectsHead(c: Config, s: State)
    requires c.Valid() && OnPath(c, s) && Expects(c, s).Some?
    ensures Rest(c, s) != [] && Rest(c, s)[0] == Says(true, ReadEpochAt(c, s), Expects(c, s).value)
  {
    hide Rest;
    RestHead(c, s);
    if s == ReadHelloVerifyRequest {
      RestHead(c, ReadServerHello);
    } else if s == ReadServerKeyExchange && !c.SendsSke() {
      RestHead(c, ReadCertificateRequest);
      RestHead(c, ReadServerHelloDone);
    } else if s == ReadCertificateRequest {
      RestHead(c, ReadServerHelloDone);
    }
  }

  /** What the client knows of the server's wish for a certificate when the server follows the script. */
  predicate Knows(c: Config, s: State, certRequest: bool) {
    certRequest == (c.requestsCert && !c.resume && Rank(c, s) <= 10)
  }

  /** What a client waits for after the step of a state. */
  function WaitAfter(c: Config, s: State): Wait {
    if s == ReadSessionTicket then ReadCcs
    else if s == StartConnect || s == SendClientFinished then Flush
    else if s == FinishFlight && !c.resume && c.falseStart then EarlyReturn
    else Ok
  }

  lemma {:induction false} HelloFollows(c: Config, s: State, certRequest: bool, p: Peeked, i: Input, expected: seq<byte>)
    requires c.Valid() && OnPath(c, s) && s != Done && Knows(c, s, certRequest)
    requires Expects(c, s).Some? ==> p.Nothing? || (p.Got? && p.msg.typ == Expects(c, s).value)
    requires p.Got? && p.msg.typ == Finished ==> p.msg.body == expected
    requires Rank(c, s) >= 14
    ensures Plays(Decide(c, s, certRequest, p, i, expected), Segment(c, s), false, p, ReadEpochAt(c, s), WriteEpochAt(c, s))
  {
    hide Leads, MoveMilestones, OutMilestones, PlainMark, SendLastFlight;
    OneOut(false, 0, SendMessage(Msg(ClientHello, i.bodies(ClientHello))));
  }

  lemma {:induction false} ServerFlightFollows(c: Config, s: State, certRequest: bool, p: Peeked, i: Input, expected: seq<byte>)
    requires c.Valid() && OnPath(c, s) && s != Done && Knows(c, s, certRequest)
    requires Expects(c, s).Some? ==> p.Nothing? || (p.Got? && p.msg.typ == Expects(c, s).value)
    requires p.Got? && p.msg.typ == Finished ==> p.msg.body == expected
    requires 10 <= Rank(c, s) < 14
    ensures Plays(Decide(c, s, certRequest, p, i, expected), Segment(c, s), false, p, ReadEpochAt(c, s), WriteEpochAt(c, s))
  {
    hide Leads, MoveMilestones, OutMilestones, PlainMark, SendLastFlight;
  }

  lemma {:induction false} ClientKeysFollow(c: Config, s: State, certRequest: bool, p: Peeked, i: Input, expected: seq<byte>)
    requires c.Valid() && OnPath(c, s) && s != Done && Knows(c, s, certRequest)
    requires Expects(c, s).Some? ==> p.Nothing? || (p.Got? && p.msg.typ == Expects(c, s).value)
    requires p.Got? && p.msg.typ == Finished ==> p.msg.body == expected
    requires 7 <= Rank(c, s) < 10
    ensures Plays(Decide(c, s, certRequest, p, i, expected), Segment(c, s), false, p, ReadEpochAt(c, s), WriteEpochAt(c, s))
  {
    hide Leads, MoveMilestones, OutMilestones, PlainMark, SendLastFlight, SendCertificate, SendVerify;
    OneOut(false, 0, SendMessage(Msg(ClientKeyExchange, i.bodies(ClientKeyExchange))));
  }

  lemma {:induction false} FinishFollows(c: Config, s: State, certRequest: bool, p: Peeked, i: Input, expected: seq<byte>)
    requires c.Valid() && OnPath(c, s) && s != Done && Knows(c, s, certRequest)
    requires Expects(c, s).Some? ==> p.Nothing? || (p.Got? && p.msg.typ == Expects(c, s).value)
    requires p.Got? && p.msg.typ == Finished ==> p.msg.body == expected
    requires Rank(c, s) < 7
    ensures Plays(Decide(c, s, certRequest, p, i, expected), Segment(c, s), false, p, ReadEpochAt(c, s), WriteEpochAt(c, s))
  {
    hide Leads, MoveMilestones, OutMilestones, PlainMark, SendLastFlight;
  }

  /** Only the CertificateRequest says that a certificate is wanted. */
  lemma {:induction false} RequestKnownThere(c: Config, s: State, certRequest: bool, p: Peeked, i: Input, expected: seq<byte>)
    ensures var mv := Decide(c, s, certRequest, p, i, expected);
            mv.Move? && mv.request ==> s == ReadCertificateRequest
  {
    hide Leads, MoveMilestones, OutEntries;
  }

  lemma {:induction false} RequestLearnt(c: Config, s: State, certRequest: bool, p: Peeked, i: Input, expected: seq<byte>)
    requires c.Valid() && OnPath(c, s) && s != Done && Knows(c, s, certRequest)
    requires Expects(c, s).Some? ==> p.Nothing? || (p.Got? && p.msg.typ == Expects(c, s).value)
    requires p.Got? && p.msg.typ == Finished ==> p.msg.body == expected
    requires s == ReadCertificateRequest
    ensures var mv := Decide(c, s, certRequest, p, i, expected);
            mv.Move? ==> (certRequest || mv.request) == (c.requestsCert && !c.resume)
  {
    hide Leads, MoveMilestones, OutEntries;
  }

  lemma {:induction false} RankPasses(c: Config, s: State)
    requires OnPath(c, s) && s != ReadCertificateRequest && !c.resume
    ensures Rank(c, s) <= 10 <==> Rank(c, Next(c, s)) <= 10
  {
  }

  /** What a step learns. */
  lemma {:induction false} LearnsFollow(c: Config, s: State, certRequest: bool, p: Peeked, i: Input, expected: seq<byte>)
    requires c.Valid() && OnPath(c, s) && s != Done && Knows(c, s, certRequest)
    requires Expects(c, s).Some? ==> p.Nothing? || (p.Got? && p.msg.typ == Expects(c, s).value)
    requires p.Got? && p.msg.typ == Finished ==> p.msg.body == expected
    ensures var mv := Decide(c, s, certRequest, p, i, expected);
            mv.Move? ==> Knows(c, Next(c, s), certRequest || mv.request)
  {
    hide Decide, OnPath;
    RequestKnownThere(c, s, certRequest, p, i, expected);
    if s == ReadCertificateRequest { RequestLearnt(c, s, certRequest, p, i, expected); }
    else if !c.resume { RankPasses(c, s); }
  }

  /** What a step waits for, and that it takes only a message it looks at. */
  lemma {:induction false} WaitsFollow(c: Config, s: State, certRequest: bool, p: Peeked, i: Input, expected: seq<byte>)
    requires c.Valid() && OnPath(c, s) && s != Done && Knows(c, s, certRequest)
    requires Expects(c, s).Some? ==> p.Nothing? || (p.Got? && p.msg.typ == Expects(c, s).value)
    requires p.Got? && p.msg.typ == Finished ==> p.msg.body == expected
    ensures var mv := Decide(c, s, certRequest, p, i, expected);
            mv.Move? ==> mv.wait == WaitAfter(c, s) && (mv.took ==> Expects(c, s).Some?)
  {
    hide Leads, MoveMilestones, OutMilestones, PlainMark, SendLastFlight;
  }

  /**
   * On a message that is the next one of the script, with the server's MAC, the step of a state takes and sends
   * exactly its segment, or waits, or fails for a reason of its own.
   */
  lemma {:induction false} DecideFollows(c: Config, s: State, certRequest: bool, p: Peeked, i: Input, expected: seq<byte>)
    requires c.Valid() && OnPath(c, s) && s != Done && Knows(c, s, certRequest)
    requires Expects(c, s).Some? ==> p.Nothing? || (p.Got? && p.msg.typ == Expects(c, s).value)
    requires p.Got? && p.msg.typ == Finished ==> p.msg.body == expected
    ensures var mv := Decide(c, s, certRequest, p, i, expected);
            && Plays(mv, Segment(c, s), false, p, ReadEpochAt(c, s), WriteEpochAt(c, s))
            && (mv.Move? ==> Knows(c, Next(c, s), certRequest || mv.request) && mv.wait == WaitAfter(c, s)
                             && (mv.took ==> Expects(c, s).Some?))
  {
    hide Decide, Plays, Knows;
    LearnsFollow(c, s, certRequest, p, i, expected);
    WaitsFollow(c, s, certRequest, p, i, expected);
    if Rank(c, s) >= 14 { HelloFollows(c, s, certRequest, p, i, expected); }
    else if Rank(c, s) >= 10 { ServerFlightFollows(c, s, certRequest, p, i, expected); }
    else if Rank(c, s) >= 7 { ClientKeysFollow(c, s, certRequest, p, i, expected); }
    else { FinishFollows(c, s, certRequest, p, i, expected); }
  }

  lemma {:induction false} DecideGenuine(c: Config, s: State, certRequest: bool, p: Peeked, i: Input, expected: seq<byte>)
    ensures var mv := Decide(c, s, certRequest, p, i, expected);
            mv.Move? ==> OutsGenuine(c, false, mv.out)
  {
    hide Leads, MoveMilestones, OutMilestones, OutEntries, SendLastFlight, SendCertificate;
  }

  /** The head of the input is the next record of the script, and a Finished there is the server's. */
  predicate Conforms(c: Config, e: Client, inbox: seq<Wire>, mac: Mac) {
    inbox != [] ==>
      && Rest(c, e.state) != [] && EntryOf(true, inbox[0]) == Rest(c, e.state)[0]
      && (inbox[0].item.Message? && inbox[0].item.msg.typ == Finished ==> inbox[0].item.msg.body == mac(e.transcript, true))
  }

  lemma {:induction false} PeekFollows(c: Config, e: Client, inbox: seq<Wire>, mac: Mac)
    requires c.Valid() && Inv(c, e) && Conforms(c, e, inbox, mac)
    ensures var p := Peek(e.readEpoch, inbox);
            && (Expects(c, e.state).Some? ==> p.Nothing? || (p.Got? && p.msg.typ == Expects(c, e.state).value))
            && (p.Got? && p.msg.typ == Finished ==> p.msg.body == mac(e.transcript, true))
            && (p.Nothing? <==> inbox == [])
  {
    hide Rest, Sound, Milestones;
    EpochsAt(c, e);
    if Expects(c, e.state).Some? { ExpectsHead(c, e.state); }
  }

  /** What a step takes from the input and queues for the server is exactly its segment of the script. */
  lemma {:induction false} StepFollows(c: Config, e: Client, inbox: seq<Wire>, i: Input, mac: Mac) returns (ws: seq<Wire>)
    requires c.Valid() && Inv(c, e) && Knows(c, e.state, e.certRequest) && e.state != Done && Conforms(c, e, inbox, mac)
    ensures var mv, e' := Plan(c, e, inbox, i, mac), Step(c, e, inbox, i, mac);
            if mv.Stop? then e' == e.(wait := mv.wait) && ws == []
                             && ((mv.wait.ReadMessage? && inbox == []) || mv.wait.Retry? || mv.wait == Failed(Internal))
            else
              && e'.state == Next(c, e.state) && e'.wait == WaitAfter(c, e.state) && Knows(c, e'.state, e'.certRequest)
              && (mv.took ==> inbox != [] && inbox[0].item.Message? && Expects(c, e.state).Some?)
              && Segment(c, e.state) == (if mv.took then [EntryOf(true, inbox[0])] else []) + Entries(false, ws)
              && e'.pending == e.pending + ws
              && e'.transcript == e.transcript + (if mv.took then [inbox[0].item.msg] else []) + Msgs(ws)
              && Genuine(c, false, ws, e.transcript + (if mv.took then [inbox[0].item.msg] else []), mac)
  {
    hide Decide, Rest, Segment, Expects, Sound, Milestones, Stage, Knows, Genuine, Msgs, OutEntries, OutsGenuine, PlainMark, Rank, Next;
    var p := Peek(e.readEpoch, inbox);
    var expected := mac(e.transcript, true);
    PeekFollows(c, e, inbox, mac);
    EpochsAt(c, e);
    DecideFollows(c, e.state, e.certRequest, p, i, expected);
    DecideLeads(c, e.state, e.certRequest, p, i, expected);
    DecideGenuine(c, e.state, e.certRequest, p, i, expected);
    var mv := Plan(c, e, inbox, i, mac);
    ws := [];
    if mv.Move? {
      StepInv(c, e, inbox, i, mac);
      ApplyKeeps(e, mv, inbox, mac, false);
      var e0 := e.Prepare(mv, inbox);
      ws := AddAllSends(c, e0, mv.out, mac, false);
      assert e.transcript + [] == e.transcript;
    }
  }

  /** The script of a state is its segment, then the ChangeCipherSpec after it if any, then that of the next state. */
  lemma {:induction false} RestStep(c: Config, s: State)
    requires OnPath(c, s) && s != Done
    ensures OnPath(c, Next(c, s)) && Rest(c, s) == Segment(c, s) + (Between(s) + Rest(c, Next(c, s)))
    ensures Between(s) == [] ==> Rest(c, s) == Segment(c, s) + Rest(c, Next(c, s))
    ensures Between(s) == [] && Segment(c, s) == [] ==> Rest(c, s) == Rest(c, Next(c, s))
  {
    hide Segment, Between, Next, Rank;
    RankFalls(c, s);
    Regroup(Segment(c, s), Between(s), Rest(c, Next(c, s)));
  }

  /** The client's whole script. */
  lemma {:induction false} ScriptOfClient(c: Config)
    ensures Rest(c, StartConnect) == Script(c)
  {
    hide Rest, ServerKeyFlight, ClientKeyFlight, ClientFlight, ServerFlight;
    RestStep(c, StartConnect);
    RestStep(c, EnterEarlyData);
    if c.dtls { RestStep(c, ReadHelloVerifyRequest); }
    RestStep(c, ReadServerHello);
    if !c.resume {
      ServerKeyRest(c);
      ClientKeyRest(c);
    }
    FinalRest(c);
  }

  lemma {:induction false} ServerKeyRest(c: Config)
    requires !c.resume
    ensures Rest(c, ReadServerCertificate) == ServerKeyFlight(c, Rest(c, SendClientCertificate))
  {
    hide Rest, If;
    RestStep(c, ReadServerCertificate);
    RestStep(c, ReadCertificateStatus);
    RestStep(c, VerifyServerCertificate);
    RestStep(c, ReadServerKeyExchange);
    RestStep(c, ReadCertificateRequest);
    RestStep(c, ReadServerHelloDone);
  }

  lemma {:induction false} ClientKeyRest(c: Config)
    requires !c.resume
    ensures Rest(c, SendClientCertificate) == ClientKeyFlight(c, Rest(c, SendClientFinished))
  {
    hide Rest, If;
    RestStep(c, SendClientCertificate);
    RestStep(c, SendClientKeyExchange);
    RestStep(c, SendClientCertificateVerify);
  }

  lemma {:induction false} ServerFlightRest(c: Config)
    ensures Rest(c, ReadSessionTicket) == ServerFlight(c, Rest(c, Next(c, ReadServerFinished)))
  {
    hide Rest, If;
    RestStep(c, ReadSessionTicket);
    RestStep(c, ProcessChangeCipherSpec);
    RestStep(c, ReadServerFinished);
  }

  lemma {:induction false} FinalRest(c: Config)
    ensures if c.resume then Rest(c, ReadSessionTicket) == ServerFlight(c, ClientFlight(c, []))
            else Rest(c, SendClientFinished) == ClientFlight(c, ServerFlight(c, []))
  {
    hide Rest, If, ClientFlight, ServerFlight;
    DoneRest(c);
    RestStep(c, FinishClientHandshake);
    RestStep(c, FinishFlight);
    LastFlightRest(c);
    ServerFlightRest(c);
  }

  lemma {:induction false} LastFlightRest(c: Config)
    ensures Rest(c, SendClientFinished) == ClientFlight(c, Rest(c, FinishFlight))
  {
    hide Rest, If;
    RestStep(c, SendClientFinished);
    var ccs, npn, id, fin := [Entry(false, 0, KCcs)], If(c.npn, Says(false, 1, NextProto)),
                             If(c.channelId, Says(false, 1, ChannelId)), [Says(false, 1, Finished)];
    var rest := Rest(c, FinishFlight);
    Regroup(ccs + npn + id, fin, rest);
    Regroup(ccs + npn, id, fin + rest);
    Regroup(ccs, npn, id + (fin + rest));
  }

  lemma {:induction false} DoneRest(c: Config)
    ensures Rest(c, Done) == []
  {
  }

  // ---- Never waiting with something unsent ----------------------------------------------------

  /** The states between queueing messages and flushing them. */
  predicate Unflushed(s: State) {
    s.SendClientKeyExchange? || s.SendClientCertificateVerify? || s.SendClientFinished?
  }

  /** A step that waits for a message has none queued; what a step queues is flushed before the next read. */
  lemma {:induction false} DecideFlushes(c: Config, s: State, certRequest: bool, p: Peeked, i: Input, expected: seq<byte>)
    requires c.Valid() && OnPath(c, s) && Knows(c, s, certRequest)
    ensures var mv := Decide(c, s, certRequest, p, i, expected);
            if mv.Stop? then mv.wait.ReadMessage? ==> Expects(c, s).Some? && !Unflushed(s)
            else
              && (mv.out != [] || Unflushed(s) ==> mv.wait.Flush? || (Unflushed(mv.next) && mv.wait.Ok?))
              && (mv.wait.ReadMessage? ==> false)
  {
    hide Leads, MoveMilestones, OutMilestones, OutEntries, OutsGenuine;
  }

  predicate Live(c: Config, e: Client) {
    && (e.wait.ReadMessage? ==> Expects(c, e.state).Some?)
    && (e.pending != [] ==> e.wait.Flush? || (Unflushed(e.state) && !e.wait.ReadMessage? && !e.wait.ReadCcs?))
  }

  /** With good luck a step moves on unless its message has not come. */
  lemma {:induction false} GoodDecides(c: Config, s: State, certRequest: bool, p: Peeked, i: Input, expected: seq<byte>)
    requires c.Valid() && s != Done && i.Good()
    ensures var mv := Decide(c, s, certRequest, p, i, expected);
            mv.Stop? ==> !mv.wait.Retry? && mv.wait != Failed(Internal)
  {
    hide Leads, MoveMilestones, OutMilestones, OutEntries, OutsGenuine;
  }

  lemma {:induction false} StepLive(c: Config, e: Client, inbox: seq<Wire>, i: Input, mac: Mac)
    requires c.Valid() && Inv(c, e) && Knows(c, e.state, e.certRequest) && e.state != Done && e.wait.Ok? && Live(c, e)
    ensures Live(c, Step(c, e, inbox, i, mac))
  {
    hide Decide, Rest, Segment, Expects, Sound, Milestones, Stage, Knows, OutsGenuine, Rank, Next;
    DecideFlushes(c, e.state, e.certRequest, Peek(e.readEpoch, inbox), i, mac(e.transcript, true));
    DecideLeads(c, e.state, e.certRequest, Peek(e.readEpoch, inbox), i, mac(e.transcript, true));
    var mv := Plan(c, e, inbox, i, mac);
    StepInv(c, e, inbox, i, mac);
    ApplyKeeps(e, mv, inbox, mac, false);
  }

  /** With good luck, a step over the next record of the script moves on, or finds that it has not come. */
  lemma {:induction false} GoodStep(c: Config, e: Client, inbox: seq<Wire>, i: Input, mac: Mac)
    requires c.Valid() && Inv(c, e) && Knows(c, e.state, e.certRequest) && e.state != Done && Conforms(c, e, inbox, mac) && i.Good()
    ensures var mv := Plan(c, e, inbox, i, mac);
            if mv.Stop? then mv.wait.ReadMessage? && inbox == [] && Expects(c, e.state).Some? && !Unflushed(e.state)
            else Rank(c, Step(c, e, inbox, i, mac).state) < Rank(c, e.state)
  {
    hide Decide, Rest, Segment, Expects, Sound, Milestones, Stage, Knows, Genuine, Msgs, Rank, Next, EmptyChain;
    var p, expected := Peek(e.readEpoch, inbox), mac(e.transcript, true);
    var ws := StepFollows(c, e, inbox, i, mac);
    PeekFollows(c, e, inbox, mac);
    DecideFlushes(c, e.state, e.certRequest, p, i, expected);
    GoodDecides(c, e.state, e.certRequest, p, i, expected);
    StepInv(c, e, inbox, i, mac);
  }

  /** A step that moves on does not wait for a message or a callback. */
  lemma {:induction false} MovesOn(c: Config, s: State, certRequest: bool, p: Peeked, i: Input, expected: seq<byte>)
    ensures var mv := Decide(c, s, certRequest, p, i, expected);
            mv.Move? ==> !mv.wait.Retry? && !mv.wait.ReadMessage? && !mv.wait.Failed?
  {
    hide Leads, MoveMilestones, OutMilestones, OutEntries, OutsGenuine;
  }

  /** A step that ends in such a wait, or fails, has changed nothing else. */
  lemma {:induction false} WaitsOnly(c: Config, e: Client, inbox: seq<Wire>, i: Input, mac: Mac)
    requires Inv(c, e) && e.wait.Ok?
    ensures var e' := Step(c, e, inbox, i, mac);
            e'.wait.Retry? || e'.wait.ReadMessage? || e'.wait.Failed? ==> e' == e.(wait := e'.wait)
  {
    hide Decide, Sound, Milestones, Stage, Rank, Next;
    MovesOn(c, e.state, e.certRequest, Peek(e.readEpoch, inbox), i, mac(e.transcript, true));
    if e.state != Done { DecideLeads(c, e.state, e.certRequest, Peek(e.readEpoch, inbox), i, mac(e.transcript, true)); }
    if e.state == Done { DoneStays(c, e, inbox, i, mac); } else { ApplyKeeps(e, Plan(c, e, inbox, i, mac), inbox, mac, false); }
  }

  /** A Finished is taken in one state only, with the MAC the server must have made, and is then noted as checked. */
  lemma {:induction false} FinishedIsChecked(c: Config, s: State, certRequest: bool, p: Peeked, i: Input, expected: seq<byte>)
    ensures var mv := Decide(c, s, certRequest, p, i, expected);
            && Checks(mv, p, expected)
            && (mv.Move? && mv.took && p.Got? && p.msg.typ == Finished ==> s == ReadServerFinished && p.msg.body == expected)
  {
    hide Leads, MoveMilestones, OutMilestones, OutEntries, PlainMark;
    DecideGenuine(c, s, certRequest, p, i, expected);
  }

  /** Taking a HelloVerifyRequest starts the transcript again, and nothing else does. */
  lemma {:induction false} RestartsOn(c: Config, s: State, certRequest: bool, p: Peeked, i: Input, expected: seq<byte>)
    ensures var mv := Decide(c, s, certRequest, p, i, expected);
            && (mv.Move? && mv.took ==> p.Got? && (mv.restart <==> p.msg.typ == HelloVerifyRequest))
            && (mv.Move? && mv.took && mv.restart ==> s == ReadHelloVerifyRequest)
  {
    hide Leads, MoveMilestones, OutMilestones, OutEntries, OutsGenuine, SendCertificate, SendVerify, SendLastFlight, VerifyCertificate;
  }
}

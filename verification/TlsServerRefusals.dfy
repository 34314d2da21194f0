/**
 * What a server refuses, told from its inputs alone, whatever the client sends: when a step goes on and when it fails,
 * that nothing makes up for a failure, and that a server that is done has been through every check of its path.
 */
module TlsServerRefusals {
  import opened Common
  import opened TlsHandshake
  import opened TlsAlone
  import S = TlsServer

  // ---- What each state asks for ---------------------------------------------------------------

  predicate Looks(c: Config, s: S.State, peerCert: bool) {
    match s
    case ReadClientHello | SelectCertificate | SelectParameters | ReadClientKeyExchange | ReadClientFinished => true
    case ReadClientCertificate => c.requestsCert
    case ReadClientCertificateVerify => peerCert
    case ReadNextProto => c.npn
    case ReadChannelId => c.channelId
    case _ => false
  }

  /** The message a state is there for; the ClientHello is looked at three times and taken the last time. */
  function Wants(s: S.State): MsgType {
    match s
    case ReadClientCertificate => Certificate
    case ReadClientKeyExchange => ClientKeyExchange
    case ReadClientCertificateVerify => CertificateVerify
    case ReadNextProto => NextProto
    case ReadChannelId => ChannelId
    case ReadClientFinished => Finished
    case _ => ClientHello
  }

  /** The type is checked where the message is first looked at. */
  predicate Admits(s: S.State, typ: MsgType) {
    s == S.SelectCertificate || s == S.SelectParameters || typ == Wants(s)
  }

  predicate Asks(c: Config, s: S.State, peerCert: bool) {
    match s
    case ReadClientHello | SelectCertificate | SelectParameters => true
    case SendServerKeyExchange => c.SendsSke() && c.CertAuth()
    case VerifyClientCertificate => peerCert
    case ReadClientKeyExchange => c.kx.Rsa?
    case _ => false
  }

  predicate MayFail(c: Config, s: S.State, peerCert: bool) {
    if Looks(c, s, peerCert) then s != S.ReadClientFinished
    else match s
      case SendServerHello | SendServerCertificate | SendServerHelloDone | ProcessChangeCipherSpec | SendServerFinished => true
      case SendServerKeyExchange => c.SendsSke()
      case _ => false
  }

  /** Nothing stands in the way of the step of a state; an empty client chain does where a certificate is required. */
  predicate Approves(c: Config, s: S.State, peerCert: bool, p: Peeked, i: Input, expected: seq<byte>) {
    && (Looks(c, s, peerCert) ==> p.Got? && Admits(s, p.msg.typ))
    && (Asks(c, s, peerCert) ==> i.callback.Proceed?)
    && (MayFail(c, s, peerCert) ==> i.ok)
    && (s == S.ReadClientFinished ==> p.msg.body == expected)
    && (s == S.ReadClientCertificate && c.requestsCert && c.requiresCert ==> p.msg.body != [0, 0, 0])
    && (s == S.SendServerCertificate && c.CertAuth() ==> i.bodies(Certificate) != [0, 0, 0])
  }

  function Verdict(c: Config, s: S.State, peerCert: bool, p: Peeked, i: Input): Wait {
    if Looks(c, s, peerCert) && p.Nothing? then ReadMessage
    else if Looks(c, s, peerCert) && p.BadRecord? then Failed(UnexpectedRecord)
    else if Looks(c, s, peerCert) && !Admits(s, p.msg.typ) then Failed(Why.UnexpectedMessage)
    else if s == S.ReadClientFinished then Failed(BadFinished)
    else if Asks(c, s, peerCert) && i.callback.Later? then Retry
    else Failed(Internal)
  }

  /** A server's step goes on exactly when it is approved; otherwise it waits or fails as the verdict says. */
  lemma {:induction false} Decides(c: Config, s: S.State, peerCert: bool, p: Peeked, i: Input, expected: seq<byte>)
    requires s != S.Done
    ensures var mv := S.Decide(c, s, peerCert, p, i, expected);
            && (mv.Move? <==> Approves(c, s, peerCert, p, i, expected))
            && (mv.Stop? ==> mv.wait == Verdict(c, s, peerCert, p, i))
            && (mv.Move? ==> (mv.took <==> Looks(c, s, peerCert) && s != S.ReadClientHello && s != S.SelectCertificate))
            && (mv.Move? ==> mv.peerCert == (s == S.ReadClientCertificate && c.requestsCert && p.msg.body != [0, 0, 0]))
  {
    hide S.Decide, Approves, Verdict;
    if Looks(c, s, peerCert) { LooksDecide(c, s, peerCert, p, i, expected); } else { OwnDecide(c, s, peerCert, p, i, expected); }
  }

  lemma {:induction false} LooksDecide(c: Config, s: S.State, peerCert: bool, p: Peeked, i: Input, expected: seq<byte>)
    requires Looks(c, s, peerCert)
    ensures var mv := S.Decide(c, s, peerCert, p, i, expected);
            && (mv.Move? <==> Approves(c, s, peerCert, p, i, expected))
            && (mv.Stop? ==> mv.wait == Verdict(c, s, peerCert, p, i))
            && (mv.Move? ==> (mv.took <==> s != S.ReadClientHello && s != S.SelectCertificate))
            && (mv.Move? ==> mv.peerCert == (s == S.ReadClientCertificate && p.msg.body != [0, 0, 0]))
  {
    hide Leads, JustSends, MoveMilestones, OutMilestones, OutEntries, OutsGenuine, S.SendCertificates, S.SendKeyExchange, S.SendHelloDone,
         S.SendLastFlight, S.VerifyCertificate, PlainMark, Config.SendsSke;
  }

  lemma {:induction false} OwnDecide(c: Config, s: S.State, peerCert: bool, p: Peeked, i: Input, expected: seq<byte>)
    requires s != S.Done && !Looks(c, s, peerCert)
    ensures var mv := S.Decide(c, s, peerCert, p, i, expected);
            && (mv.Move? <==> Approves(c, s, peerCert, p, i, expected))
            && (mv.Stop? ==> mv.wait == Verdict(c, s, peerCert, p, i)) && (mv.Move? ==> !mv.took && !mv.peerCert)
  {
    hide Leads, JustSends, MoveMilestones, OutMilestones, OutEntries, OutsGenuine, S.LastFlight, S.ReadHello, S.LookAtHello, S.Select,
         S.ReadKeyExchange, GetFinished, Expect;
  }

  // ---- Every run -----------------------------------------------------------------------------

  lemma {:induction false} RunAppend(c: Config, s: Station<S.State>, a: seq<Event>, b: seq<Event>, mac: Mac)
    ensures ServerRun(c, s, a + b, mac) == ServerRun(c, ServerRun(c, s, a, mac), b, mac)
    decreases |a|
  {
    hide ServerReacts;
    if a == [] {
      assert a + b == b;
    } else {
      assert (a + b)[0] == a[0] && (a + b)[1..] == a[1..] + b;
      RunAppend(c, ServerReacts(c, s, a[0], mac), a[1..], b, mac);
    }
  }

  /** A server that has failed stays as it is, whatever happens. */
  lemma {:induction false} FailedForever(c: Config, s: Station<S.State>, evs: seq<Event>, mac: Mac)
    requires s.end.wait.Failed?
    ensures ServerRun(c, s, evs, mac).end == s.end
    decreases |evs|
  {
    if evs != [] {
      hide S.Step, S.Plan;
      FailedForever(c, ServerReacts(c, s, evs[0], mac), evs[1..], mac);
    }
  }

  /** The server after the first `k` events. */
  function StationAt(c: Config, evs: seq<Event>, k: nat, mac: Mac): Station<S.State>
    requires k <= |evs|
  {
    ServerRun(c, ServerStart, evs[..k], mac)
  }

  /** Event `k` is a turn of a server that is in a state and ready to go on. */
  predicate Turns(c: Config, evs: seq<Event>, k: nat, s: S.State, mac: Mac) {
    k < |evs| && evs[k].Turn? && StationAt(c, evs, k, mac).end.state == s && StationAt(c, evs, k, mac).end.wait.Ok?
  }

  /** Whether that turn is approved. */
  predicate ApprovedAt(c: Config, evs: seq<Event>, k: nat, mac: Mac)
    requires k < |evs| && evs[k].Turn?
  {
    var st := StationAt(c, evs, k, mac);
    Approves(c, st.end.state, st.end.peerCert, Peek(st.end.readEpoch, st.inbox), evs[k].i, mac(st.end.transcript, false))
  }

  lemma {:induction false} OneMore(c: Config, evs: seq<Event>, k: nat, mac: Mac)
    requires k < |evs|
    ensures StationAt(c, evs, k + 1, mac) == ServerReacts(c, StationAt(c, evs, k, mac), evs[k], mac)
  {
    hide ServerReacts;
    assert evs[..k + 1] == evs[..k] + [evs[k]];
    RunAppend(c, ServerStart, evs[..k], [evs[k]], mac);
    assert [evs[k]][1..] == [];
  }

  lemma {:induction false} AtInv(c: Config, evs: seq<Event>, k: nat, mac: Mac)
    requires k <= |evs|
    ensures S.Inv(c, StationAt(c, evs, k, mac).end)
  {
    hide S.Inv, ServerRun, ServerTraffic;
    StartInv(c, mac);
    ServerHashesTraffic(c, ServerStart, evs[..k], mac);
  }

  lemma {:induction false} Begins(c: Config, evs: seq<Event>, mac: Mac)
    ensures StationAt(c, evs, 0, mac) == ServerStart && forall s: S.State :: S.Rank(c, s) <= S.Rank(c, S.StartAccept)
  {
    assert evs[..0] == [];
  }

  /**
   * Whatever the client sends and whatever happens later, a turn that is not approved, for another reason than that a
   * message or a callback's answer is still to come, is the end of the handshake.
   */
  lemma {:induction false} RefusalIsFinal(c: Config, evs: seq<Event>, k: nat, s: S.State, mac: Mac)
    requires Turns(c, evs, k, s, mac) && s != S.Done && !ApprovedAt(c, evs, k, mac)
    ensures var st := StationAt(c, evs, k, mac);
            var verdict := Verdict(c, s, st.end.peerCert, Peek(st.end.readEpoch, st.inbox), evs[k].i);
            if verdict.Failed? then ServerRun(c, ServerStart, evs, mac).end == st.end.(wait := verdict)
            else StationAt(c, evs, k + 1, mac) == Station(st.end.(wait := verdict), st.inbox)
  {
    hide S.Decide, Approves, Verdict, Peek, ServerRun;
    var st := StationAt(c, evs, k, mac);
    Decides(c, s, st.end.peerCert, Peek(st.end.readEpoch, st.inbox), evs[k].i, mac(st.end.transcript, false));
    OneMore(c, evs, k, mac);
    var next := StationAt(c, evs, k + 1, mac);
    if next.end.wait.Failed? {
      assert evs == evs[..k + 1] + evs[k + 1..];
      RunAppend(c, ServerStart, evs[..k + 1], evs[k + 1..], mac);
      FailedForever(c, next, evs[k + 1..], mac);
    }
  }

  /** A client certificate that the callback refuses is never gone past, and never noted as verified. */
  lemma {:induction false} RefusedCertificate(c: Config, evs: seq<Event>, k: nat, mac: Mac)
    requires Turns(c, evs, k, S.VerifyClientCertificate, mac) && StationAt(c, evs, k, mac).end.peerCert && evs[k].i.callback.Refuse?
    ensures var e := ServerRun(c, ServerStart, evs, mac).end;
            e.wait == Failed(Internal) && e.state == S.VerifyClientCertificate && VerifiedCert !in e.milestones
  {
    hide ServerRun, StationAt;
    RefusalIsFinal(c, evs, k, S.VerifyClientCertificate, mac);
    AtInv(c, evs, k, mac);
  }

  /** The states a server goes through. */
  predicate Visits(c: Config, s: S.State) {
    s != S.Done && S.OnPath(c, s)
  }

  /** A server's step skips no state of its path. */
  lemma {:induction false} SkipsNone(c: Config, s: S.State, t: S.State)
    requires S.OnPath(c, s) && s != S.Done && Visits(c, t) && S.Rank(c, S.Next(c, s)) < S.Rank(c, t) <= S.Rank(c, s)
    ensures s == t
  {
  }

  /** Whatever the client sends, a server gets past a state of its path only in an approved turn there. */
  lemma {:induction false} Passed(c: Config, evs: seq<Event>, n: nat, s: S.State, mac: Mac) returns (k: nat)
    requires n <= |evs| && Visits(c, s) && S.Rank(c, StationAt(c, evs, n, mac).end.state) < S.Rank(c, s)
    ensures k < n && Turns(c, evs, k, s, mac) && ApprovedAt(c, evs, k, mac)
    decreases n
  {
    hide S.Decide, Approves, Peek, S.Inv, S.Next;
    Begins(c, evs, mac);
    if n > 0 {
      var st := StationAt(c, evs, n - 1, mac);
      if S.Rank(c, st.end.state) < S.Rank(c, s) {
        k := Passed(c, evs, n - 1, s, mac);
      } else {
        OneMore(c, evs, n - 1, mac);
        AtInv(c, evs, n - 1, mac);
        k := n - 1;
        LeavesByTurn(c, st, evs[k], mac);
        assert S.OnPath(c, st.end.state) by { InvPath(c, st.end); }
        SkipsNone(c, st.end.state, s);
      }
    }
  }

  lemma {:induction false} InvPath(c: Config, e: S.Server)
    requires S.Inv(c, e)
    ensures S.OnPath(c, e.state)
  {
  }

  /** An event that changes the state of a server is an approved turn. */
  lemma {:induction false} LeavesByTurn(c: Config, st: Station<S.State>, ev: Event, mac: Mac)
    requires S.Inv(c, st.end) && ServerReacts(c, st, ev, mac).end.state != st.end.state
    ensures ev.Turn? && st.end.wait.Ok? && st.end.state != S.Done && ServerReacts(c, st, ev, mac).end.state == S.Next(c, st.end.state)
    ensures Approves(c, st.end.state, st.end.peerCert, Peek(st.end.readEpoch, st.inbox), ev.i, mac(st.end.transcript, false))
  {
    hide S.Decide, Approves, Peek, Sound, S.Milestones, S.Stage, S.OnPath, S.Next, S.Passes;
    if ev.Turn? && st.end.wait.Ok? && st.end.state != S.Done {
      var p, expected := Peek(st.end.readEpoch, st.inbox), mac(st.end.transcript, false);
      Decides(c, st.end.state, st.end.peerCert, p, ev.i, expected);
      S.DecideLeads(c, st.end.state, st.end.peerCert, p, ev.i, expected);
      ApplyKeeps(st.end, S.Plan(c, st.end, st.inbox, ev.i, mac), st.inbox, mac, true);
    } else if ev.Wake? {
      ResumeFrame(st.end, st.inbox, ev.bioOk);
    }
  }

  /** Whatever the client sends, a server that is done has been through an approved turn in every state of its path. */
  lemma {:induction false} DonePassed(c: Config, evs: seq<Event>, mac: Mac)
    requires ServerRun(c, ServerStart, evs, mac).end.state == S.Done
    ensures forall s: S.State :: Visits(c, s) ==>
              exists k :: 0 <= k < |evs| && Turns(c, evs, k, s, mac) && ApprovedAt(c, evs, k, mac)
  {
    hide ServerRun, ApprovedAt, S.OnPath;
    assert evs[..|evs|] == evs;
    assert StationAt(c, evs, |evs|, mac).end.state == S.Done;
    hide StationAt;
    forall s: S.State | Visits(c, s)
      ensures exists k :: 0 <= k < |evs| && Turns(c, evs, k, s, mac) && ApprovedAt(c, evs, k, mac)
    {
      var k := Passed(c, evs, |evs|, s, mac);
    }
  }

  // ---- The client's certificate --------------------------------------------------------------

  /** Once the client's Certificate message is behind the server, it does not change its mind about it. */
  lemma {:induction false} CertificateKept(c: Config, evs: seq<Event>, k: nat, n: nat, mac: Mac)
    requires k <= n <= |evs| && S.Rank(c, StationAt(c, evs, k, mac).end.state) < S.Rank(c, S.ReadClientCertificate)
    ensures S.Rank(c, StationAt(c, evs, n, mac).end.state) < S.Rank(c, S.ReadClientCertificate)
    ensures StationAt(c, evs, n, mac).end.peerCert == StationAt(c, evs, k, mac).end.peerCert
    decreases n
  {
    hide StationAt, S.Inv, S.Rank;
    if k < n {
      CertificateKept(c, evs, k, n - 1, mac);
      OneMore(c, evs, n - 1, mac);
      AtInv(c, evs, n - 1, mac);
      EventKeepsCertificate(c, StationAt(c, evs, n - 1, mac), evs[n - 1], mac);
    }
  }

  lemma {:induction false} EventKeepsCertificate(c: Config, st: Station<S.State>, ev: Event, mac: Mac)
    requires S.Inv(c, st.end) && S.Rank(c, st.end.state) < S.Rank(c, S.ReadClientCertificate)
    ensures var e' := ServerReacts(c, st, ev, mac).end;
            S.Rank(c, e'.state) < S.Rank(c, S.ReadClientCertificate) && e'.peerCert == st.end.peerCert
  {
    hide S.Decide, Peek, Sound, S.Milestones, S.Stage, S.OnPath, S.Next, S.Passes;
    if ev.Turn? && st.end.wait.Ok? && st.end.state != S.Done {
      var p, expected := Peek(st.end.readEpoch, st.inbox), mac(st.end.transcript, false);
      S.DecideLeads(c, st.end.state, st.end.peerCert, p, ev.i, expected);
      S.PeerCertKnownEarly(c, st.end.state, st.end.peerCert, p, ev.i, expected);
      S.StepInv(c, st.end, st.inbox, ev.i, mac);
      ApplyKeeps(st.end, S.Plan(c, st.end, st.inbox, ev.i, mac), st.inbox, mac, true);
    } else if ev.Wake? {
      ResumeFrame(st.end, st.inbox, ev.bioOk);
    }
  }

  /** A client certificate is noted as verified only where the callback has said so of the one the client sent. */
  lemma {:induction false} VerifiedByCallback(c: Config, evs: seq<Event>, mac: Mac) returns (k: nat)
    requires VerifiedCert in ServerRun(c, ServerStart, evs, mac).end.milestones
    ensures Turns(c, evs, k, S.VerifyClientCertificate, mac) && StationAt(c, evs, k, mac).end.peerCert && evs[k].i.callback.Proceed?
  {
    hide ServerRun;
    assert evs[..|evs|] == evs;
    AtInv(c, evs, |evs|, mac);
    VerifiedLate(c, StationAt(c, evs, |evs|, mac).end);
    k := Passed(c, evs, |evs|, S.VerifyClientCertificate, mac);
    CertificateKept(c, evs, k, |evs|, mac);
  }

  lemma {:induction false} VerifiedFirst(c: Config, peerCert: bool, k: nat)
    requires VerifiedCert in S.Milestones(c, peerCert, k)
    ensures !c.resume && peerCert && k >= 1
  {
    if k > 0 && VerifiedCert !in S.Passed(c, peerCert, k - 1) { VerifiedFirst(c, peerCert, k - 1); }
  }

  lemma {:induction false} VerifiedLate(c: Config, e: S.Server)
    requires S.Inv(c, e) && VerifiedCert in e.milestones
    ensures !c.resume && e.peerCert && S.Rank(c, e.state) < S.Rank(c, S.VerifyClientCertificate)
  {
    VerifiedFirst(c, e.peerCert, S.Stage(c, e.state));
  }

  /**
   * Whatever the client sends, a full handshake in which the server asked for a certificate and requires one is done
   * only with a certificate that is not empty and that the callback has accepted.
   */
  lemma {:induction false} RequiredCertificate(c: Config, evs: seq<Event>, mac: Mac)
    requires ServerRun(c, ServerStart, evs, mac).end.state == S.Done && !c.resume && c.requestsCert && c.requiresCert
    ensures var e := ServerRun(c, ServerStart, evs, mac).end; e.peerCert && VerifiedCert in e.milestones
  {
    hide ServerRun, ServerTraffic, ServerReacts, Finishes, FinishedOrder, Approves, Peek, S.Inv;
    assert evs[..|evs|] == evs;
    var k := Passed(c, evs, |evs|, S.ReadClientCertificate, mac);
    AtInv(c, evs, k, mac);
    OneMore(c, evs, k, mac);
    CertificateNoted(c, StationAt(c, evs, k, mac), evs[k].i, mac);
    ApprovedBody(c, StationAt(c, evs, k, mac).end.peerCert, Peek(StationAt(c, evs, k, mac).end.readEpoch, StationAt(c, evs, k, mac).inbox),
                 evs[k].i, mac(StationAt(c, evs, k, mac).end.transcript, false));
    CertificateKept(c, evs, k + 1, |evs|, mac);
    ServerDone(c, evs, mac);
  }

  lemma {:induction false} ApprovedBody(c: Config, peerCert: bool, p: Peeked, i: Input, expected: seq<byte>)
    requires Approves(c, S.ReadClientCertificate, peerCert, p, i, expected) && c.requestsCert && c.requiresCert
    ensures p.Got? && p.msg.body != [0, 0, 0]
  {
  }

  /** An approved turn on the client's Certificate message notes whether it holds one. */
  lemma {:induction false} CertificateNoted(c: Config, st: Station<S.State>, i: Input, mac: Mac)
    requires st.end.state == S.ReadClientCertificate && st.end.wait.Ok? && c.requestsCert
    requires var p := Peek(st.end.readEpoch, st.inbox);
             Approves(c, st.end.state, st.end.peerCert, p, i, mac(st.end.transcript, false))
    requires S.Inv(c, st.end)
    ensures var e' := ServerReacts(c, st, Turn(i), mac).end;
            && e'.state == S.VerifyClientCertificate
            && e'.peerCert == (st.end.peerCert || Peek(st.end.readEpoch, st.inbox).msg.body != [0, 0, 0])
  {
    hide S.Decide, Peek, Sound, S.Milestones, S.Stage, S.OnPath, S.Passes, Approves;
    var p, expected := Peek(st.end.readEpoch, st.inbox), mac(st.end.transcript, false);
    Decides(c, st.end.state, st.end.peerCert, p, i, expected);
    S.DecideLeads(c, st.end.state, st.end.peerCert, p, i, expected);
    ApplyKeeps(st.end, S.Plan(c, st.end, st.inbox, i, mac), st.inbox, mac, true);
    assert p.Got?;
  }

  // ---- The cipher change ---------------------------------------------------------------------

  /** Event `k` takes the ChangeCipherSpec of the first epoch from the head of the input. */
  predicate ChangeTaken(c: Config, evs: seq<Event>, k: nat, mac: Mac) {
    && k < |evs| && evs[k].Wake?
    && var st := StationAt(c, evs, k, mac);
       st.end.wait.ReadCcs? && st.inbox != [] && st.inbox[0] == Wire(0, Ccs) && StationAt(c, evs, k + 1, mac).inbox == st.inbox[1..]
  }

  /** A server about to switch its read keys waits for the ChangeCipherSpec, has taken it, or has failed. */
  predicate AwaitsChange(e: S.Server) {
    e.state == S.ProcessChangeCipherSpec ==> e.wait.ReadCcs? || e.wait.Ok? || e.wait.Failed?
  }

  lemma {:induction false} WaitsForChange(c: Config, s: S.State, peerCert: bool, p: Peeked, i: Input, expected: seq<byte>)
    ensures var mv := S.Decide(c, s, peerCert, p, i, expected);
            mv.Move? && mv.next == S.ProcessChangeCipherSpec ==> mv.wait == ReadCcs
  {
    hide Leads, JustSends, MoveMilestones, OutMilestones, OutEntries, OutsGenuine, S.LastFlight;
  }

  lemma {:induction false} ChangeEvent(c: Config, st: Station<S.State>, ev: Event, mac: Mac)
    requires S.Inv(c, st.end) && AwaitsChange(st.end)
    ensures var st' := ServerReacts(c, st, ev, mac);
            && AwaitsChange(st'.end)
            && (st'.end.state == S.ProcessChangeCipherSpec && st'.end.wait.Ok? ==>
                 && st.end.state == S.ProcessChangeCipherSpec
                 && (st.end.wait.Ok?
                     || (ev.Wake? && st.end.wait.ReadCcs? && st.inbox != [] && st.inbox[0] == Wire(0, Ccs) && st'.inbox == st.inbox[1..])))
  {
    hide S.Decide, Peek, Sound, S.Milestones, S.Stage, S.OnPath, S.Next, S.Passes, S.Inv, Approves, Verdict;
    if ev.Turn? && st.end.wait.Ok? && st.end.state != S.Done {
      var p, expected := Peek(st.end.readEpoch, st.inbox), mac(st.end.transcript, false);
      WaitsForChange(c, st.end.state, st.end.peerCert, p, ev.i, expected);
      ChangeNeverAsks(c, st.end.peerCert, p, ev.i);
      Decides(c, st.end.state, st.end.peerCert, p, ev.i, expected);
      LeavesOrStays(c, st, ev.i, mac);
    } else if ev.Wake? {
      S.EpochsAt(c, st.end);
    }
  }

  lemma {:induction false} ChangeNeverAsks(c: Config, peerCert: bool, p: Peeked, i: Input)
    ensures Verdict(c, S.ProcessChangeCipherSpec, peerCert, p, i).Failed?
  {
  }

  /** A turn goes where its decision says, and waits as it says. */
  lemma {:induction false} LeavesOrStays(c: Config, st: Station<S.State>, i: Input, mac: Mac)
    requires S.Inv(c, st.end) && st.end.wait.Ok? && st.end.state != S.Done
    ensures var mv, e' := S.Plan(c, st.end, st.inbox, i, mac), S.Step(c, st.end, st.inbox, i, mac);
            e'.wait == mv.wait && e'.state == (if mv.Move? then mv.next else st.end.state)
            && (mv.Move? ==> mv.next != st.end.state)
  {
    hide S.Decide, Peek, Sound, S.Milestones, S.Stage, S.Passes;
    S.DecideLeads(c, st.end.state, st.end.peerCert, Peek(st.end.readEpoch, st.inbox), i, mac(st.end.transcript, false));
    ApplyKeeps(st.end, S.Plan(c, st.end, st.inbox, i, mac), st.inbox, mac, true);
  }

  lemma {:induction false} ChangeSeen(c: Config, evs: seq<Event>, n: nat, mac: Mac) returns (k: nat)
    requires n <= |evs|
    ensures AwaitsChange(StationAt(c, evs, n, mac).end)
    ensures StationAt(c, evs, n, mac).end.state == S.ProcessChangeCipherSpec && StationAt(c, evs, n, mac).end.wait.Ok? ==>
              k < n && ChangeTaken(c, evs, k, mac)
    decreases n
  {
    hide StationAt, ServerReacts, S.Inv;
    Begins(c, evs, mac);
    k := 0;
    if n > 0 {
      k := ChangeSeen(c, evs, n - 1, mac);
      OneMore(c, evs, n - 1, mac);
      AtInv(c, evs, n - 1, mac);
      ChangeEvent(c, StationAt(c, evs, n - 1, mac), evs[n - 1], mac);
      if !StationAt(c, evs, n - 1, mac).end.wait.Ok? { k := n - 1; }
    }
  }

  /** Whatever the client sends, a server that is done took a ChangeCipherSpec before it switched its read keys. */
  lemma {:induction false} SwitchedAfterChange(c: Config, evs: seq<Event>, mac: Mac) returns (k: nat, n: nat)
    requires ServerRun(c, ServerStart, evs, mac).end.state == S.Done
    ensures k < n && ChangeTaken(c, evs, k, mac) && Turns(c, evs, n, S.ProcessChangeCipherSpec, mac)
  {
    assert evs[..|evs|] == evs;
    n := Passed(c, evs, |evs|, S.ProcessChangeCipherSpec, mac);
    k := ChangeSeen(c, evs, n, mac);
  }
}

/**
 * What a client refuses, told from its inputs alone, whatever the server sends: when a step goes on and when it fails,
 * that nothing makes up for a failure, and that a client that is done has been through every check of its path.
 */
module TlsClientRefusals {
  import opened Common
  import opened TlsHandshake
  import opened TlsAlone
  import C = TlsClient

  // ---- What each state asks for ---------------------------------------------------------------

  /** The states that look at the next message. */
  predicate Looks(c: Config, s: C.State) {
    match s
    case ReadHelloVerifyRequest | ReadServerHello | ReadServerKeyExchange | ReadServerHelloDone | ReadServerFinished => true
    case ReadServerCertificate | ReadCertificateRequest => c.CertAuth()
    case ReadCertificateStatus => c.ocsp
    case ReadSessionTicket => c.ticket
    case _ => false
  }

  /** The message a state is there to take. */
  function Wants(s: C.State): MsgType {
    match s
    case ReadHelloVerifyRequest => HelloVerifyRequest
    case ReadServerHello => ServerHello
    case ReadServerCertificate => Certificate
    case ReadCertificateStatus => CertificateStatus
    case ReadServerKeyExchange => ServerKeyExchange
    case ReadCertificateRequest => CertificateRequest
    case ReadSessionTicket => NewSessionTicket
    case ReadServerFinished => Finished
    case _ => ServerHelloDone
  }

  /** The messages that are no error in a state: the one it wants, or another where that one may be missing. */
  predicate Admits(c: Config, s: C.State, typ: MsgType) {
    match s
    case ReadHelloVerifyRequest | ReadCertificateStatus => true
    case ReadServerKeyExchange => if typ == ServerKeyExchange then !c.kx.Rsa? else !c.RequiresSke()
    case ReadCertificateRequest => typ == CertificateRequest || typ == ServerHelloDone
    case _ => typ == Wants(s)
  }

  /** The states that ask a callback or the private key. */
  predicate Asks(c: Config, s: C.State, certRequest: bool) {
    match s
    case VerifyServerCertificate => c.CertAuth()
    case SendClientCertificate => certRequest
    case SendClientCertificateVerify => certRequest && c.hasClientCert
    case SendClientFinished => c.channelId
    case _ => false
  }

  /** The states whose step may fail by itself: in parsing or checking the message taken, or in making what is sent. */
  predicate MayFail(c: Config, s: C.State, certRequest: bool, p: Peeked) {
    if Looks(c, s) then s != C.ReadServerFinished && p.Got? && p.msg.typ == Wants(s)
    else match s
      case StartConnect | SendClientKeyExchange | SendClientFinished | ProcessChangeCipherSpec => true
      case SendClientCertificate => certRequest
      case _ => false
  }

  /** Nothing stands in the way of the step of a state. */
  predicate Approves(c: Config, s: C.State, certRequest: bool, p: Peeked, i: Input, expected: seq<byte>) {
    && (Looks(c, s) ==> p.Got? && Admits(c, s, p.msg.typ))
    && (Asks(c, s, certRequest) ==> i.callback.Proceed?)
    && (MayFail(c, s, certRequest, p) ==> i.ok)
    && (s == C.ReadServerFinished ==> p.msg.body == expected)
    && (s == C.SendClientCertificate && certRequest && c.hasClientCert ==> i.bodies(Certificate) != [0, 0, 0])
  }

  /** What comes of a step that is not approved. */
  function Verdict(c: Config, s: C.State, certRequest: bool, p: Peeked, i: Input): Wait {
    if Looks(c, s) && p.Nothing? then ReadMessage
    else if Looks(c, s) && p.BadRecord? then Failed(UnexpectedRecord)
    else if Looks(c, s) && !Admits(c, s, p.msg.typ) then Failed(Why.UnexpectedMessage)
    else if s == C.ReadServerFinished then Failed(BadFinished)
    else if Asks(c, s, certRequest) && i.callback.Later? then Retry
    else Failed(Internal)
  }

  /** A client's step goes on exactly when it is approved; otherwise it waits or fails as the verdict says. */
  lemma {:induction false} Decides(c: Config, s: C.State, certRequest: bool, p: Peeked, i: Input, expected: seq<byte>)
    requires s != C.Done
    ensures var mv := C.Decide(c, s, certRequest, p, i, expected);
            && (mv.Move? <==> Approves(c, s, certRequest, p, i, expected))
            && (mv.Stop? ==> mv.wait == Verdict(c, s, certRequest, p, i))
            && (mv.Move? ==> (mv.took <==> Looks(c, s) && p.msg.typ == Wants(s)))
  {
    hide C.Decide, Approves, Verdict;
    if Looks(c, s) { LooksDecide(c, s, certRequest, p, i, expected); } else { OwnDecide(c, s, certRequest, p, i, expected); }
  }

  lemma {:induction false} OwnDecide(c: Config, s: C.State, certRequest: bool, p: Peeked, i: Input, expected: seq<byte>)
    requires s != C.Done && !Looks(c, s)
    ensures var mv := C.Decide(c, s, certRequest, p, i, expected);
            && (mv.Move? <==> Approves(c, s, certRequest, p, i, expected))
            && (mv.Stop? ==> mv.wait == Verdict(c, s, certRequest, p, i)) && (mv.Move? ==> !mv.took)
  {
    hide Leads, JustSends, MoveMilestones, OutMilestones, OutEntries, OutsGenuine, C.LastFlight, C.ReadHelloVerify, C.ReadKeyExchange,
         GetFinished, Expect;
  }

  lemma {:induction false} LooksDecide(c: Config, s: C.State, certRequest: bool, p: Peeked, i: Input, expected: seq<byte>)
    requires Looks(c, s)
    ensures var mv := C.Decide(c, s, certRequest, p, i, expected);
            && (mv.Move? <==> Approves(c, s, certRequest, p, i, expected))
            && (mv.Stop? ==> mv.wait == Verdict(c, s, certRequest, p, i))
            && (mv.Move? ==> (mv.took <==> p.msg.typ == Wants(s)))
  {
    hide Leads, JustSends, MoveMilestones, OutMilestones, OutEntries, OutsGenuine, C.SendCertificate, C.SendVerify, C.SendLastFlight;
  }

  // ---- Every run -----------------------------------------------------------------------------

  lemma {:induction false} RunAppend(c: Config, s: Station<C.State>, a: seq<Event>, b: seq<Event>, mac: Mac)
    ensures ClientRun(c, s, a + b, mac) == ClientRun(c, ClientRun(c, s, a, mac), b, mac)
    decreases |a|
  {
    hide ClientReacts;
    if a == [] {
      assert a + b == b;
    } else {
      assert (a + b)[0] == a[0] && (a + b)[1..] == a[1..] + b;
      RunAppend(c, ClientReacts(c, s, a[0], mac), a[1..], b, mac);
    }
  }

  /** A client that has failed stays as it is, whatever happens. */
  lemma {:induction false} FailedForever(c: Config, s: Station<C.State>, evs: seq<Event>, mac: Mac)
    requires s.end.wait.Failed?
    ensures ClientRun(c, s, evs, mac).end == s.end
    decreases |evs|
  {
    if evs != [] {
      hide C.Step, C.Plan;
      FailedForever(c, ClientReacts(c, s, evs[0], mac), evs[1..], mac);
    }
  }

  /** The client after the first `k` events. */
  function StationAt(c: Config, evs: seq<Event>, k: nat, mac: Mac): Station<C.State>
    requires k <= |evs|
  {
    ClientRun(c, ClientStart, evs[..k], mac)
  }

  /** Event `k` is a turn of a client that is in a state and ready to go on. */
  predicate Turns(c: Config, evs: seq<Event>, k: nat, s: C.State, mac: Mac) {
    k < |evs| && evs[k].Turn? && StationAt(c, evs, k, mac).end.state == s && StationAt(c, evs, k, mac).end.wait.Ok?
  }

  /** Whether that turn is approved. */
  predicate ApprovedAt(c: Config, evs: seq<Event>, k: nat, mac: Mac)
    requires k < |evs| && evs[k].Turn?
  {
    var st := StationAt(c, evs, k, mac);
    Approves(c, st.end.state, st.end.certRequest, Peek(st.end.readEpoch, st.inbox), evs[k].i, mac(st.end.transcript, true))
  }

  lemma {:induction false} OneMore(c: Config, evs: seq<Event>, k: nat, mac: Mac)
    requires k < |evs|
    ensures StationAt(c, evs, k + 1, mac) == ClientReacts(c, StationAt(c, evs, k, mac), evs[k], mac)
  {
    hide ClientReacts;
    assert evs[..k + 1] == evs[..k] + [evs[k]];
    RunAppend(c, ClientStart, evs[..k], [evs[k]], mac);
    assert [evs[k]][1..] == [];
  }

  lemma {:induction false} AtInv(c: Config, evs: seq<Event>, k: nat, mac: Mac)
    requires k <= |evs|
    ensures C.Inv(c, StationAt(c, evs, k, mac).end)
  {
    hide C.Inv, ClientRun, ClientTraffic;
    StartInv(c, mac);
    ClientHashesTraffic(c, ClientStart, evs[..k], mac);
  }

  lemma {:induction false} Begins(c: Config, evs: seq<Event>, mac: Mac)
    ensures StationAt(c, evs, 0, mac) == ClientStart && forall s: C.State :: C.Rank(c, s) <= C.Rank(c, C.StartConnect)
  {
    assert evs[..0] == [];
  }

  /**
   * Whatever the server sends and whatever happens later, a turn that is not approved, for another reason than that a
   * message or a callback's answer is still to come, is the end of the handshake.
   */
  lemma {:induction false} RefusalIsFinal(c: Config, evs: seq<Event>, k: nat, s: C.State, mac: Mac)
    requires Turns(c, evs, k, s, mac) && s != C.Done && !ApprovedAt(c, evs, k, mac)
    ensures var st := StationAt(c, evs, k, mac);
            var verdict := Verdict(c, s, st.end.certRequest, Peek(st.end.readEpoch, st.inbox), evs[k].i);
            if verdict.Failed? then ClientRun(c, ClientStart, evs, mac).end == st.end.(wait := verdict)
            else StationAt(c, evs, k + 1, mac) == Station(st.end.(wait := verdict), st.inbox)
  {
    hide C.Decide, Approves, Verdict, Peek, ClientRun;
    var st := StationAt(c, evs, k, mac);
    Decides(c, s, st.end.certRequest, Peek(st.end.readEpoch, st.inbox), evs[k].i, mac(st.end.transcript, true));
    OneMore(c, evs, k, mac);
    var next := StationAt(c, evs, k + 1, mac);
    if next.end.wait.Failed? {
      assert evs == evs[..k + 1] + evs[k + 1..];
      RunAppend(c, ClientStart, evs[..k + 1], evs[k + 1..], mac);
      FailedForever(c, next, evs[k + 1..], mac);
    }
  }

  /** A server certificate that the callback refuses is never gone past, and never noted as verified. */
  lemma {:induction false} RefusedCertificate(c: Config, evs: seq<Event>, k: nat, mac: Mac)
    requires Turns(c, evs, k, C.VerifyServerCertificate, mac) && c.CertAuth() && evs[k].i.callback.Refuse?
    ensures var e := ClientRun(c, ClientStart, evs, mac).end;
            e.wait == Failed(Internal) && e.state == C.VerifyServerCertificate && VerifiedCert !in e.milestones
  {
    hide ClientRun, StationAt;
    RefusalIsFinal(c, evs, k, C.VerifyServerCertificate, mac);
    AtInv(c, evs, k, mac);
  }

  /** The states a client goes through. */
  predicate Visits(c: Config, s: C.State) {
    s != C.Done && C.OnPath(c, s) && (s == C.ReadHelloVerifyRequest ==> c.dtls)
  }

  /** A client's step skips no state of its path. */
  lemma {:induction false} SkipsNone(c: Config, s: C.State, t: C.State)
    requires C.OnPath(c, s) && s != C.Done && Visits(c, t) && C.Rank(c, C.Next(c, s)) < C.Rank(c, t) <= C.Rank(c, s)
    ensures s == t
  {
  }

  /** Whatever the server sends, a client gets past a state of its path only in an approved turn there. */
  lemma {:induction false} Passed(c: Config, evs: seq<Event>, n: nat, s: C.State, mac: Mac) returns (k: nat)
    requires n <= |evs| && Visits(c, s) && C.Rank(c, StationAt(c, evs, n, mac).end.state) < C.Rank(c, s)
    ensures k < n && Turns(c, evs, k, s, mac) && ApprovedAt(c, evs, k, mac)
    decreases n
  {
    hide C.Decide, Approves, Peek, C.Inv, C.Next;
    Begins(c, evs, mac);
    if n > 0 {
      var st := StationAt(c, evs, n - 1, mac);
      if C.Rank(c, st.end.state) < C.Rank(c, s) {
        k := Passed(c, evs, n - 1, s, mac);
      } else {
        OneMore(c, evs, n - 1, mac);
        AtInv(c, evs, n - 1, mac);
        k := n - 1;
        LeavesByTurn(c, st, evs[k], mac);
        assert C.OnPath(c, st.end.state) by { InvPath(c, st.end); }
        SkipsNone(c, st.end.state, s);
      }
    }
  }

  lemma {:induction false} InvPath(c: Config, e: C.Client)
    requires C.Inv(c, e)
    ensures C.OnPath(c, e.state)
  {
  }

  /** An event that changes the state of a client is an approved turn. */
  lemma {:induction false} LeavesByTurn(c: Config, st: Station<C.State>, ev: Event, mac: Mac)
    requires C.Inv(c, st.end) && ClientReacts(c, st, ev, mac).end.state != st.end.state
    ensures ev.Turn? && st.end.wait.Ok? && st.end.state != C.Done && ClientReacts(c, st, ev, mac).end.state == C.Next(c, st.end.state)
    ensures Approves(c, st.end.state, st.end.certRequest, Peek(st.end.readEpoch, st.inbox), ev.i, mac(st.end.transcript, true))
  {
    hide C.Decide, Approves, Peek, Sound, C.Milestones, C.Stage, C.OnPath, C.Next, C.Passes;
    if ev.Turn? && st.end.wait.Ok? && st.end.state != C.Done {
      var p, expected := Peek(st.end.readEpoch, st.inbox), mac(st.end.transcript, true);
      Decides(c, st.end.state, st.end.certRequest, p, ev.i, expected);
      C.DecideLeads(c, st.end.state, st.end.certRequest, p, ev.i, expected);
      ApplyKeeps(st.end, C.Plan(c, st.end, st.inbox, ev.i, mac), st.inbox, mac, false);
    } else if ev.Wake? {
      ResumeFrame(st.end, st.inbox, ev.bioOk);
    }
  }

  /** Whatever the server sends, a client that is done has been through an approved turn in every state of its path. */
  lemma {:induction false} DonePassed(c: Config, evs: seq<Event>, mac: Mac)
    requires ClientRun(c, ClientStart, evs, mac).end.state == C.Done
    ensures forall s: C.State :: Visits(c, s) ==>
              exists k :: 0 <= k < |evs| && Turns(c, evs, k, s, mac) && ApprovedAt(c, evs, k, mac)
  {
    hide ClientRun, ApprovedAt, C.OnPath;
    assert evs[..|evs|] == evs;
    assert StationAt(c, evs, |evs|, mac).end.state == C.Done;
    hide StationAt;
    forall s: C.State | Visits(c, s)
      ensures exists k :: 0 <= k < |evs| && Turns(c, evs, k, s, mac) && ApprovedAt(c, evs, k, mac)
    {
      var k := Passed(c, evs, |evs|, s, mac);
    }
  }

  /** A server certificate is noted as verified only where the callback has said so. */
  lemma {:induction false} VerifiedByCallback(c: Config, evs: seq<Event>, mac: Mac) returns (k: nat)
    requires VerifiedCert in ClientRun(c, ClientStart, evs, mac).end.milestones
    ensures Turns(c, evs, k, C.VerifyServerCertificate, mac) && c.CertAuth() && evs[k].i.callback.Proceed?
  {
    hide ClientRun;
    assert evs[..|evs|] == evs;
    AtInv(c, evs, |evs|, mac);
    VerifiedLate(c, StationAt(c, evs, |evs|, mac).end);
    k := Passed(c, evs, |evs|, C.VerifyServerCertificate, mac);
  }

  lemma {:induction false} VerifiedFirst(c: Config, k: nat)
    requires VerifiedCert in C.Milestones(c, k)
    ensures !c.resume && c.CertAuth() && k >= 1
  {
    if k > 0 && VerifiedCert !in C.Passed(c, k - 1) { VerifiedFirst(c, k - 1); }
  }

  lemma {:induction false} VerifiedLate(c: Config, e: C.Client)
    requires C.Inv(c, e) && VerifiedCert in e.milestones
    ensures !c.resume && c.CertAuth() && C.Rank(c, e.state) < C.Rank(c, C.VerifyServerCertificate)
  {
    VerifiedFirst(c, C.Stage(c, e.state));
  }

  // ---- The cipher change ---------------------------------------------------------------------

  /** Event `k` takes the ChangeCipherSpec of the first epoch from the head of the input. */
  predicate ChangeTaken(c: Config, evs: seq<Event>, k: nat, mac: Mac) {
    && k < |evs| && evs[k].Wake?
    && var st := StationAt(c, evs, k, mac);
       st.end.wait.ReadCcs? && st.inbox != [] && st.inbox[0] == Wire(0, Ccs) && StationAt(c, evs, k + 1, mac).inbox == st.inbox[1..]
  }

  /** A client about to switch its read keys waits for the ChangeCipherSpec, has taken it, or has failed. */
  predicate AwaitsChange(e: C.Client) {
    e.state == C.ProcessChangeCipherSpec ==> e.wait.ReadCcs? || e.wait.Ok? || e.wait.Failed?
  }

  lemma {:induction false} WaitsForChange(c: Config, s: C.State, certRequest: bool, p: Peeked, i: Input, expected: seq<byte>)
    ensures var mv := C.Decide(c, s, certRequest, p, i, expected);
            mv.Move? && mv.next == C.ProcessChangeCipherSpec ==> mv.wait == ReadCcs
  {
    hide Leads, JustSends, MoveMilestones, OutMilestones, OutEntries, OutsGenuine, C.LastFlight;
  }

  lemma {:induction false} ChangeEvent(c: Config, st: Station<C.State>, ev: Event, mac: Mac)
    requires C.Inv(c, st.end) && AwaitsChange(st.end)
    ensures var st' := ClientReacts(c, st, ev, mac);
            && AwaitsChange(st'.end)
            && (st'.end.state == C.ProcessChangeCipherSpec && st'.end.wait.Ok? ==>
                 && st.end.state == C.ProcessChangeCipherSpec
                 && (st.end.wait.Ok?
                     || (ev.Wake? && st.end.wait.ReadCcs? && st.inbox != [] && st.inbox[0] == Wire(0, Ccs) && st'.inbox == st.inbox[1..])))
  {
    hide C.Decide, Peek, Sound, C.Milestones, C.Stage, C.OnPath, C.Next, C.Passes, C.Inv, Approves, Verdict;
    if ev.Turn? && st.end.wait.Ok? && st.end.state != C.Done {
      var p, expected := Peek(st.end.readEpoch, st.inbox), mac(st.end.transcript, true);
      WaitsForChange(c, st.end.state, st.end.certRequest, p, ev.i, expected);
      ChangeNeverAsks(c, st.end.certRequest, p, ev.i);
      Decides(c, st.end.state, st.end.certRequest, p, ev.i, expected);
      LeavesOrStays(c, st, ev.i, mac);
    } else if ev.Wake? {
      C.EpochsAt(c, st.end);
    }
  }

  lemma {:induction false} ChangeNeverAsks(c: Config, certRequest: bool, p: Peeked, i: Input)
    ensures Verdict(c, C.ProcessChangeCipherSpec, certRequest, p, i).Failed?
  {
  }

  /** A turn goes where its decision says, and waits as it says. */
  lemma {:induction false} LeavesOrStays(c: Config, st: Station<C.State>, i: Input, mac: Mac)
    requires C.Inv(c, st.end) && st.end.wait.Ok? && st.end.state != C.Done
    ensures var mv, e' := C.Plan(c, st.end, st.inbox, i, mac), C.Step(c, st.end, st.inbox, i, mac);
            e'.wait == mv.wait && e'.state == (if mv.Move? then mv.next else st.end.state)
            && (mv.Move? ==> mv.next != st.end.state)
  {
    hide C.Decide, Peek, Sound, C.Milestones, C.Stage, C.Passes;
    C.DecideLeads(c, st.end.state, st.end.certRequest, Peek(st.end.readEpoch, st.inbox), i, mac(st.end.transcript, true));
    ApplyKeeps(st.end, C.Plan(c, st.end, st.inbox, i, mac), st.inbox, mac, false);
  }

  lemma {:induction false} ChangeSeen(c: Config, evs: seq<Event>, n: nat, mac: Mac) returns (k: nat)
    requires n <= |evs|
    ensures AwaitsChange(StationAt(c, evs, n, mac).end)
    ensures StationAt(c, evs, n, mac).end.state == C.ProcessChangeCipherSpec && StationAt(c, evs, n, mac).end.wait.Ok? ==>
              k < n && ChangeTaken(c, evs, k, mac)
    decreases n
  {
    hide StationAt, ClientReacts, C.Inv;
    Begins(c, evs, mac);
    k := 0;
    if n > 0 {
      k := ChangeSeen(c, evs, n - 1, mac);
      OneMore(c, evs, n - 1, mac);
      AtInv(c, evs, n - 1, mac);
      ChangeEvent(c, StationAt(c, evs, n - 1, mac), evs[n - 1], mac);
      if !StationAt(c, evs, n - 1, mac).end.wait.Ok? { k := n - 1; }
    }
  }

  /** Whatever the server sends, a client that is done took a ChangeCipherSpec before it switched its read keys. */
  lemma {:induction false} SwitchedAfterChange(c: Config, evs: seq<Event>, mac: Mac) returns (k: nat, n: nat)
    requires ClientRun(c, ClientStart, evs, mac).end.state == C.Done
    ensures k < n && ChangeTaken(c, evs, k, mac) && Turns(c, evs, n, C.ProcessChangeCipherSpec, mac)
  {
    assert evs[..|evs|] == evs;
    n := Passed(c, evs, |evs|, C.ProcessChangeCipherSpec, mac);
    k := ChangeSeen(c, evs, n, mac);
  }
}

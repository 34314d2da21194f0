/**
 * The messages an end has hashed, type by type, whatever the other end sends: which must be there, which may be
 * missing, and in which order.
 */
module TlsTranscripts {
  import opened Common
  import opened TlsHandshake
  import opened TlsAlone
  import C = TlsClient
  import S = TlsServer
  import CR = TlsClientRefusals
  import SR = TlsServerRefusals

  function Types(ms: seq<Msg>): (ts: seq<MsgType>)
    ensures |ts| == |ms|
  {
    seq(|ms|, k requires 0 <= k < |ms| => ms[k].typ)
  }

  /** The types of the messages that sends make. */
  function OutTypes(outs: seq<Out>): seq<MsgType> {
    if outs == [] then []
    else (match outs[0] case SendMessage(m) => [m.typ] case SendCcs => [] case SendFinished => [Finished]) + OutTypes(outs[1..])
  }

  /** The types of the messages among records of a script. */
  function EntryTypes(es: seq<Entry>): seq<MsgType> {
    if es == [] then [] else (match es[0].kind case KCcs => [] case KMessage(t) => [t]) + EntryTypes(es[1..])
  }

  lemma {:induction false} OutsAreEntries(fromServer: bool, epoch: nat, outs: seq<Out>)
    ensures EntryTypes(OutEntries(fromServer, epoch, outs)) == OutTypes(outs)
    decreases |outs|
  {
    if outs != [] {
      var next := if outs[0].SendCcs? then epoch + 1 else epoch;
      OutsAreEntries(fromServer, next, outs[1..]);
      var e := Entry(fromServer, epoch, match outs[0] case SendMessage(m) => KMessage(m.typ) case SendCcs => KCcs case SendFinished => KMessage(Finished));
      assert OutEntries(fromServer, epoch, outs) == [e] + OutEntries(fromServer, next, outs[1..]);
      assert ([e] + OutEntries(fromServer, next, outs[1..]))[1..] == OutEntries(fromServer, next, outs[1..]);
    }
  }

  lemma {:induction false} AddAllTypes<S>(e: End<S>, outs: seq<Out>, mac: Mac, server: bool)
    ensures Types(e.AddAll(outs, mac, server).transcript) == Types(e.transcript) + OutTypes(outs)
    decreases |outs|
  {
    if outs == [] {
      assert Types(e.transcript) + [] == Types(e.transcript);
    } else {
      var e1 := e.AddOne(outs[0], mac, server);
      AddAllTypes(e1, outs[1..], mac, server);
      var one := match outs[0] case SendMessage(m) => [m.typ] case SendCcs => [] case SendFinished => [Finished];
      assert Types(e1.transcript) == Types(e.transcript) + one;
      assert Types(e.transcript) + one + OutTypes(outs[1..]) == Types(e.transcript) + (one + OutTypes(outs[1..]));
    }
  }

  /** What a move adds to the types hashed. */
  lemma {:induction false} ApplyTypes<S>(e: End<S>, mv: Move<S>, inbox: seq<Wire>, mac: Mac, server: bool)
    requires mv.Move? && (mv.took ==> inbox != [] && inbox[0].item.Message?)
    ensures Types(e.Apply(mv, inbox, mac, server).transcript)
         == (if mv.took && mv.restart then [] else if mv.took then Types(e.transcript) + [inbox[0].item.msg.typ] else Types(e.transcript))
            + OutTypes(mv.out)
  {
    hide End.AddAll;
    AddAllTypes(e.Prepare(mv, inbox), mv.out, mac, server);
    if mv.took && !mv.restart {
      assert Types(e.transcript + [inbox[0].item.msg]) == Types(e.transcript) + [inbox[0].item.msg.typ];
    }
  }

  // ---- The client ----------------------------------------------------------------------------

  /** What a client has learnt that shapes the rest: a stapled status, a ServerKeyExchange, a request for a certificate. */
  datatype Seen = Seen(status: bool, keyExchange: bool, request: bool)

  /** The types a client's step hashes. */
  function ClientPart(c: Config, s: C.State, seen: Seen): seq<MsgType> {
    match s
    case StartConnect => [ClientHello]
    case ReadServerHello => [ServerHello]
    case ReadServerCertificate => If(c.CertAuth(), Certificate)
    case ReadCertificateStatus => If(seen.status, CertificateStatus)
    case ReadServerKeyExchange => If(seen.keyExchange, ServerKeyExchange)
    case ReadCertificateRequest => If(seen.request, CertificateRequest)
    case ReadServerHelloDone => [ServerHelloDone]
    case SendClientCertificate => If(seen.request, Certificate)
    case SendClientKeyExchange => [ClientKeyExchange]
    case SendClientCertificateVerify => If(seen.request && c.hasClientCert, CertificateVerify)
    case SendClientFinished => If(c.npn, NextProto) + If(c.channelId, ChannelId) + [Finished]
    case ReadSessionTicket => If(c.ticket, NewSessionTicket)
    case ReadServerFinished => [Finished]
    case _ => []
  }

  /** The types a client has hashed when it comes to a state, in a full handshake or a resumption. */
  function ClientUpTo(c: Config, s: C.State, seen: Seen): seq<MsgType> {
    var hellos := [ClientHello] + [ServerHello];
    var cert := hellos + If(c.CertAuth(), Certificate);
    var status := cert + If(seen.status, CertificateStatus);
    var key := status + If(seen.keyExchange, ServerKeyExchange);
    var request := key + If(seen.request, CertificateRequest);
    var done := request + [ServerHelloDone];
    var clientCert := done + If(seen.request, Certificate);
    var clientKey := clientCert + [ClientKeyExchange];
    var verify := clientKey + If(seen.request && c.hasClientCert, CertificateVerify);
    var last := If(c.npn, NextProto) + If(c.channelId, ChannelId) + [Finished];
    var finished := verify + last;
    var ticket := (if c.resume then hellos else finished) + If(c.ticket, NewSessionTicket);
    match s
    case StartConnect => []
    case EnterEarlyData | ReadHelloVerifyRequest | ReadServerHello => [ClientHello]
    case ReadServerCertificate => hellos
    case ReadCertificateStatus => cert
    case VerifyServerCertificate | ReadServerKeyExchange => status
    case ReadCertificateRequest => key
    case ReadServerHelloDone => request
    case SendClientCertificate => done
    case SendClientKeyExchange => clientCert
    case SendClientCertificateVerify => clientKey
    case SendClientFinished => if c.resume then ticket + [Finished] else verify
    case FinishFlight => if c.resume then ticket + [Finished] + last else finished
    case ReadSessionTicket => if c.resume then hellos else finished
    case ProcessChangeCipherSpec | ReadServerFinished => ticket
    case FinishClientHandshake | Done => if c.resume then ticket + [Finished] + last else ticket + [Finished]
  }

  lemma {:induction false} ClientUpToStep(c: Config, s: C.State, seen: Seen)
    requires C.OnPath(c, s) && s != C.Done
    ensures ClientUpTo(c, C.Next(c, s), seen) == ClientUpTo(c, s, seen) + ClientPart(c, s, seen)
  {
    assert ClientUpTo(c, s, seen) + [] == ClientUpTo(c, s, seen);
    if c.resume {
    } else if C.Rank(c, s) >= 10 {
    }
    assert [] + [ClientHello] == [ClientHello];
  }

  /** The types a client's step sends. */
  function ClientSent(c: Config, s: C.State, certRequest: bool, took: bool): seq<MsgType> {
    match s
    case StartConnect => [ClientHello]
    case ReadHelloVerifyRequest => If(took, ClientHello)
    case SendClientCertificate => If(certRequest, Certificate)
    case SendClientKeyExchange => [ClientKeyExchange]
    case SendClientCertificateVerify => If(certRequest && c.hasClientCert, CertificateVerify)
    case SendClientFinished => If(c.npn, NextProto) + If(c.channelId, ChannelId) + [Finished]
    case _ => []
  }

  lemma {:induction false} ClientSends(c: Config, s: C.State, certRequest: bool, p: Peeked, i: Input, expected: seq<byte>)
    requires s != C.Done
    ensures var mv := C.Decide(c, s, certRequest, p, i, expected);
            mv.Move? ==> OutTypes(mv.out) == ClientSent(c, s, certRequest, mv.took)
  {
    hide Leads, JustSends, MoveMilestones, OutMilestones, OutsGenuine, C.LastFlight, OutEntries, OutTypes, EntryTypes, C.SendCertificate,
         C.SendVerify, C.SendLastFlight;
    var mv := C.Decide(c, s, certRequest, p, i, expected);
    if mv.Move? {
      OutsAreEntries(false, 0, mv.out);
      FewEntries(false);
      if s == C.SendClientFinished { LastEntries(c); }
    }
  }

  lemma {:induction false} FewEntries(fromServer: bool)
    ensures EntryTypes([]) == [] && forall epoch: nat, t: MsgType :: EntryTypes([Says(fromServer, epoch, t)]) == [t]
    ensures OutTypes([]) == [] && forall m: Msg :: OutTypes([SendMessage(m)]) == [m.typ]
  {
    forall epoch: nat, t: MsgType ensures EntryTypes([Says(fromServer, epoch, t)]) == [t] {
      assert [Says(fromServer, epoch, t)][1..] == [];
    }
    forall m: Msg ensures OutTypes([SendMessage(m)]) == [m.typ] {
      assert [SendMessage(m)][1..] == [];
    }
  }

  lemma {:induction false} EntryTypesAppend(a: seq<Entry>, b: seq<Entry>)
    ensures EntryTypes(a + b) == EntryTypes(a) + EntryTypes(b)
    decreases |a|
  {
    if a == [] {
      assert a + b == b;
    } else {
      assert (a + b)[1..] == a[1..] + b;
      EntryTypesAppend(a[1..], b);
    }
  }

  lemma {:induction false} LastEntries(c: Config)
    ensures EntryTypes([Entry(false, 0, KCcs)] + If(c.npn, Says(false, 1, NextProto)) + If(c.channelId, Says(false, 1, ChannelId))
                       + [Says(false, 1, Finished)])
         == If(c.npn, NextProto) + If(c.channelId, ChannelId) + [Finished]
  {
    hide EntryTypes;
    FewEntries(false);
    var ccs, npn, id := [Entry(false, 0, KCcs)], If(c.npn, Says(false, 1, NextProto)), If(c.channelId, Says(false, 1, ChannelId));
    EntryTypesAppend(ccs + npn + id, [Says(false, 1, Finished)]);
    EntryTypesAppend(ccs + npn, id);
    EntryTypesAppend(ccs, npn);
    CcsHasNoType(false);
  }

  lemma {:induction false} CcsHasNoType(fromServer: bool)
    ensures EntryTypes([Entry(fromServer, 0, KCcs)]) == []
  {
    assert [Entry(fromServer, 0, KCcs)][1..] == [];
  }

  /** What holds of a client's transcript whatever it receives. */
  predicate ClientOrdered(c: Config, e: C.Client, seen: Seen) {
    && Types(e.transcript) == ClientUpTo(c, e.state, seen)
    && seen.request == e.certRequest && (seen.request ==> c.CertAuth() && !c.resume && C.Rank(c, e.state) < 11)
    && (seen.status ==> c.ocsp) && (seen.keyExchange ==> !c.kx.Rsa?)
    && (!c.resume && C.Rank(c, e.state) < 12 && c.RequiresSke() ==> seen.keyExchange)
  }

  /** What a client's step learns and takes. */
  lemma {:induction false} ClientLearns(c: Config, s: C.State, certRequest: bool, p: Peeked, i: Input, expected: seq<byte>)
    requires s != C.Done
    ensures var mv := C.Decide(c, s, certRequest, p, i, expected);
            mv.Move? ==>
              && mv.request == (s == C.ReadCertificateRequest && mv.took)
              && (mv.took && s == C.ReadCertificateStatus ==> c.ocsp)
              && (mv.took && s == C.ReadCertificateRequest ==> c.CertAuth())
              && (s == C.ReadServerKeyExchange ==> if mv.took then !c.kx.Rsa? else !c.RequiresSke())
              && mv.restart == (s == C.ReadHelloVerifyRequest && mv.took)
  {
    hide Leads, MoveMilestones, OutMilestones, OutEntries, OutsGenuine, C.LastFlight, C.SendCertificate, C.SendVerify, C.SendLastFlight;
  }

  /** What a client has seen after a step. */
  function SeenAfter(s: C.State, seen: Seen, took: bool): Seen {
    match s
    case ReadCertificateStatus => seen.(status := took)
    case ReadServerKeyExchange => seen.(keyExchange := took)
    case ReadCertificateRequest => seen.(request := took)
    case _ => seen
  }

  /** What is still to be learnt makes no difference to what has been hashed. */
  lemma {:induction false} SeenLate(c: Config, s: C.State, seen: Seen, took: bool)
    requires C.OnPath(c, s)
    ensures ClientUpTo(c, s, SeenAfter(s, seen, took)) == ClientUpTo(c, s, seen)
  {
  }

  /** What a client's step takes and sends is its part. */
  lemma {:induction false} ClientHashesPart(c: Config, s: C.State, certRequest: bool, p: Peeked, i: Input, expected: seq<byte>, seen: Seen)
    requires s != C.Done && seen.request == certRequest && C.Decide(c, s, certRequest, p, i, expected).Move?
    ensures var mv := C.Decide(c, s, certRequest, p, i, expected);
            && (mv.took ==> p.Got?)
            && (if mv.took && !mv.restart then [p.msg.typ] else []) + OutTypes(mv.out)
               == if mv.restart then [ClientHello] else ClientPart(c, s, SeenAfter(s, seen, mv.took))
  {
    hide C.Decide, CR.Verdict, OutTypes;
    CR.Decides(c, s, certRequest, p, i, expected);
    ClientLearns(c, s, certRequest, p, i, expected);
    ClientSends(c, s, certRequest, p, i, expected);
    assert forall q: seq<MsgType> :: q + [] == q && [] + q == q;
  }

  /** A turn of the client adds its part to the types hashed. */
  lemma {:induction false} ClientTurnTypes(c: Config, st: Station<C.State>, i: Input, mac: Mac, seen: Seen)
    requires C.Inv(c, st.end) && ClientOrdered(c, st.end, seen) && st.end.state != C.Done && C.Plan(c, st.end, st.inbox, i, mac).Move?
    ensures var mv, e' := C.Plan(c, st.end, st.inbox, i, mac), C.Step(c, st.end, st.inbox, i, mac);
            && e'.state == C.Next(c, st.end.state)
            && Types(e'.transcript) == ClientUpTo(c, C.Next(c, st.end.state), SeenAfter(st.end.state, seen, mv.took))
  {
    hide C.Decide, Sound, C.Milestones, C.Stage, C.Passes, ClientUpTo, ClientPart, Peek, OutTypes, Types, SeenAfter, C.Next, C.Rank, C.OnPath;
    var e, mv := st.end, C.Plan(c, st.end, st.inbox, i, mac);
    var p, expected, s := Peek(e.readEpoch, st.inbox), mac(e.transcript, true), e.state;
    C.DecideLeads(c, s, e.certRequest, p, i, expected);
    ApplyKeeps(e, mv, st.inbox, mac, false);
    var seen' := SeenAfter(s, seen, mv.took);
    ClientLearns(c, s, e.certRequest, p, i, expected);
    ClientHashesPart(c, s, e.certRequest, p, i, expected, seen);
    SeenLate(c, s, seen, mv.took);
    ClientUpToStep(c, s, seen');
    ApplyTypes(e, mv, st.inbox, mac, false);
    if mv.restart {
      assert [] + OutTypes(mv.out) == OutTypes(mv.out);
      RestartUpTo(c, seen');
    } else {
      Joined(Types(e.transcript), mv.took, if mv.took then p.msg.typ else Finished, OutTypes(mv.out), ClientPart(c, s, seen'));
    }
  }

  lemma {:induction false} Joined<T>(t: seq<T>, took: bool, x: T, out: seq<T>, part: seq<T>)
    requires (if took then [x] else []) + out == part
    ensures (if took then t + [x] else t) + out == t + part
  {
  }

  /** A client's turn keeps its transcript in order. */
  lemma {:induction false} ClientTurnOrdered(c: Config, st: Station<C.State>, i: Input, mac: Mac, seen: Seen) returns (seen': Seen)
    requires C.Inv(c, st.end) && ClientOrdered(c, st.end, seen) && st.end.state != C.Done
    ensures ClientOrdered(c, C.Step(c, st.end, st.inbox, i, mac), seen')
  {
    hide C.Decide, Sound, C.Milestones, C.Stage, C.Passes, ClientUpTo, Peek, Types, C.Next, C.Rank, C.OnPath;
    var e, mv := st.end, C.Plan(c, st.end, st.inbox, i, mac);
    var p, expected, s := Peek(e.readEpoch, st.inbox), mac(e.transcript, true), e.state;
    seen' := seen;
    if mv.Move? {
      seen' := SeenAfter(s, seen, mv.took);
      C.DecideLeads(c, s, e.certRequest, p, i, expected);
      ApplyKeeps(e, mv, st.inbox, mac, false);
      ClientLearns(c, s, e.certRequest, p, i, expected);
      ClientTurnTypes(c, st, i, mac, seen);
      C.RankFalls(c, s);
      SeenRanks(c, s);
    }
  }

  lemma {:induction false} RestartUpTo(c: Config, seen: Seen)
    ensures ClientUpTo(c, C.Next(c, C.ReadHelloVerifyRequest), seen) == [ClientHello]
  {
  }

  lemma {:induction false} SeenRanks(c: Config, s: C.State)
    requires C.OnPath(c, s) && s != C.Done
    ensures s == C.ReadCertificateRequest ==> C.Rank(c, s) == 11 && C.Rank(c, C.Next(c, s)) < 11 && !c.resume
    ensures !c.resume && s != C.ReadServerKeyExchange && C.Rank(c, C.Next(c, s)) < 12 ==> C.Rank(c, s) < 12
  {
  }

  /** In every run of the client, whatever the server sends, its transcript is in order. */
  lemma {:induction false} ClientInOrder(c: Config, evs: seq<Event>, n: nat, mac: Mac) returns (seen: Seen)
    requires n <= |evs|
    ensures ClientOrdered(c, CR.StationAt(c, evs, n, mac).end, seen)
    decreases n
  {
    hide CR.StationAt, C.Inv, ClientOrdered, C.Step, C.Plan;
    CR.Begins(c, evs, mac);
    if n == 0 {
      seen := Seen(false, false, false);
      ClientStartOrdered(c);
    } else {
      seen := ClientInOrder(c, evs, n - 1, mac);
      CR.OneMore(c, evs, n - 1, mac);
      CR.AtInv(c, evs, n - 1, mac);
      var st, ev := CR.StationAt(c, evs, n - 1, mac), evs[n - 1];
      if ev.Turn? && st.end.wait.Ok? && st.end.state != C.Done {
        seen := ClientTurnOrdered(c, st, ev.i, mac, seen);
      } else if ev.Wake? {
        ResumeFrame(st.end, st.inbox, ev.bioOk);
        ClientOrderedFrame(c, st.end, Resume(st.end, st.inbox, ev.bioOk).end, seen);
      }
    }
  }

  lemma {:induction false} ClientStartOrdered(c: Config)
    ensures ClientOrdered(c, C.Start, Seen(false, false, false))
  {
  }

  lemma {:induction false} ClientOrderedFrame(c: Config, e: C.Client, e': C.Client, seen: Seen)
    requires ClientOrdered(c, e, seen) && e' == e.(wait := e'.wait, pending := e'.pending)
    ensures ClientOrdered(c, e', seen)
  {
  }

  /** The messages of a full handshake or a resumption, from the client's side: those in `seen` are the server's choice. */
  function ClientMessages(c: Config, seen: Seen): seq<MsgType> {
    var clientLast := If(c.npn, NextProto) + If(c.channelId, ChannelId) + [Finished];
    if c.resume then [ClientHello] + [ServerHello] + If(c.ticket, NewSessionTicket) + [Finished] + clientLast
    else
      [ClientHello] + [ServerHello] + If(c.CertAuth(), Certificate) + If(seen.status, CertificateStatus)
      + If(seen.keyExchange, ServerKeyExchange) + If(seen.request, CertificateRequest) + [ServerHelloDone]
      + If(seen.request, Certificate) + [ClientKeyExchange] + If(seen.request && c.hasClientCert, CertificateVerify)
      + clientLast + If(c.ticket, NewSessionTicket) + [Finished]
  }

  /**
   * Whatever the server sends, a client that is done has hashed exactly these messages in this order. Only a stapled
   * status that was offered, a request for a certificate under a certificate cipher, and a ServerKeyExchange may be
   * there or not, and the last is there where the cipher needs it and never under RSA key exchange.
   */
  lemma {:induction false} ClientHasHashed(c: Config, evs: seq<Event>, mac: Mac) returns (seen: Seen)
    requires ClientRun(c, ClientStart, evs, mac).end.state == C.Done
    ensures var e := ClientRun(c, ClientStart, evs, mac).end;
            && Types(e.transcript) == ClientMessages(c, seen) && seen.request == e.certRequest
            && (seen.status ==> c.ocsp) && (seen.request ==> c.CertAuth())
            && (seen.keyExchange ==> !c.kx.Rsa?) && (!c.resume && c.RequiresSke() ==> seen.keyExchange)
  {
    hide ClientRun;
    assert evs[..|evs|] == evs;
    seen := ClientInOrder(c, evs, |evs|, mac);
  }

  // ---- The server ----------------------------------------------------------------------------

  /** The types a server's step hashes. */
  function ServerPart(c: Config, s: S.State, peerCert: bool): seq<MsgType> {
    match s
    case SelectParameters => [ClientHello]
    case SendServerHello => [ServerHello]
    case SendServerCertificate => If(c.CertAuth(), Certificate) + If(c.ocsp && c.CertAuth(), CertificateStatus)
    case SendServerKeyExchange => If(c.SendsSke(), ServerKeyExchange)
    case SendServerHelloDone => If(c.requestsCert, CertificateRequest) + [ServerHelloDone]
    case ReadClientCertificate => If(c.requestsCert, Certificate)
    case ReadClientKeyExchange => [ClientKeyExchange]
    case ReadClientCertificateVerify => If(peerCert, CertificateVerify)
    case ReadNextProto => If(c.npn, NextProto)
    case ReadChannelId => If(c.channelId, ChannelId)
    case ReadClientFinished => [Finished]
    case SendServerFinished => If(c.ticket, NewSessionTicket) + [Finished]
    case _ => []
  }

  /** The types a server has hashed when it comes to a state, in a full handshake or a resumption. */
  function ServerUpTo(c: Config, s: S.State, peerCert: bool): seq<MsgType> {
    var last := If(c.ticket, NewSessionTicket) + [Finished];
    var hellos := [ClientHello] + [ServerHello];
    var cert := hellos + (If(c.CertAuth(), Certificate) + If(c.ocsp && c.CertAuth(), CertificateStatus));
    var key := cert + If(c.SendsSke(), ServerKeyExchange);
    var done := key + (If(c.requestsCert, CertificateRequest) + [ServerHelloDone]);
    var clientCert := done + If(c.requestsCert, Certificate);
    var clientKey := clientCert + [ClientKeyExchange];
    var verify := clientKey + If(peerCert, CertificateVerify);
    var change := if c.resume then hellos + last else verify;
    var npn := change + If(c.npn, NextProto);
    var id := npn + If(c.channelId, ChannelId);
    var finished := id + [Finished];
    match s
    case StartAccept | ReadClientHello | SelectCertificate | SelectParameters => []
    case SendServerHello => [ClientHello]
    case SendServerCertificate => hellos
    case SendServerKeyExchange => cert
    case SendServerHelloDone => key
    case ReadClientCertificate => done
    case VerifyClientCertificate | ReadClientKeyExchange => clientCert
    case ReadClientCertificateVerify => clientKey
    case ReadChangeCipherSpec | ProcessChangeCipherSpec | ReadNextProto => change
    case ReadChannelId => npn
    case ReadClientFinished => id
    case SendServerFinished => if c.resume then hellos else finished
    case FinishServerHandshake | Done => if c.resume then finished else finished + last
  }

  lemma {:induction false} ServerUpToStep(c: Config, s: S.State, peerCert: bool)
    requires S.OnPath(c, s) && s != S.Done
    ensures ServerUpTo(c, S.Next(c, s), peerCert) == ServerUpTo(c, s, peerCert) + ServerPart(c, s, peerCert)
  {
    assert ServerUpTo(c, s, peerCert) + [] == ServerUpTo(c, s, peerCert);
    assert [] + [ClientHello] == [ClientHello];
  }

  /** The states whose steps send. */
  predicate ServerSpeaks(s: S.State) {
    s == S.SendServerHello || s == S.SendServerCertificate || s == S.SendServerKeyExchange || s == S.SendServerHelloDone || s == S.SendServerFinished
  }

  /** What a server's step sends, by type. */
  lemma {:induction false} ServerSends(c: Config, s: S.State, peerCert: bool, p: Peeked, i: Input, expected: seq<byte>)
    requires s != S.Done
    ensures var mv := S.Decide(c, s, peerCert, p, i, expected);
            mv.Move? ==> OutTypes(mv.out) == if ServerSpeaks(s) then ServerPart(c, s, peerCert) else []
  {
    hide Leads, JustSends, MoveMilestones, OutMilestones, OutsGenuine, S.LastFlight, OutEntries, OutTypes, EntryTypes, S.SendCertificates,
         S.SendKeyExchange, S.SendHelloDone, S.SendLastFlight;
    var mv := S.Decide(c, s, peerCert, p, i, expected);
    if mv.Move? {
      FewEntries(true);
      if ServerSpeaks(s) {
        OutsAreEntries(true, 0, mv.out);
        SpokenTypes(c);
      }
    }
  }

  lemma {:induction false} SpokenTypes(c: Config)
    ensures EntryTypes(If(c.CertAuth(), Says(true, 0, Certificate)) + If(c.ocsp && c.CertAuth(), Says(true, 0, CertificateStatus)))
         == If(c.CertAuth(), Certificate) + If(c.ocsp && c.CertAuth(), CertificateStatus)
    ensures EntryTypes(If(c.requestsCert, Says(true, 0, CertificateRequest)) + [Says(true, 0, ServerHelloDone)])
         == If(c.requestsCert, CertificateRequest) + [ServerHelloDone]
    ensures EntryTypes(If(c.ticket, Says(true, 0, NewSessionTicket)) + [Entry(true, 0, KCcs), Says(true, 1, Finished)])
         == If(c.ticket, NewSessionTicket) + [Finished]
  {
    hide EntryTypes;
    FewEntries(true);
    EntryTypesAppend(If(c.CertAuth(), Says(true, 0, Certificate)), If(c.ocsp && c.CertAuth(), Says(true, 0, CertificateStatus)));
    EntryTypesAppend(If(c.requestsCert, Says(true, 0, CertificateRequest)), [Says(true, 0, ServerHelloDone)]);
    EntryTypesAppend(If(c.ticket, Says(true, 0, NewSessionTicket)), [Entry(true, 0, KCcs), Says(true, 1, Finished)]);
    EntryTypesAppend([Entry(true, 0, KCcs)], [Says(true, 1, Finished)]);
    CcsHasNoType(true);
    assert [Entry(true, 0, KCcs), Says(true, 1, Finished)] == [Entry(true, 0, KCcs)] + [Says(true, 1, Finished)];
  }

  /** What holds of a server's transcript whatever it receives. */
  predicate ServerOrdered(c: Config, e: S.Server) {
    && Types(e.transcript) == ServerUpTo(c, e.state, e.peerCert)
    && (e.peerCert ==> c.requestsCert && !c.resume && S.Rank(c, e.state) < 11)
  }

  /** What a server's step takes and sends is its part. */
  lemma {:induction false} ServerHashesPart(c: Config, s: S.State, peerCert: bool, p: Peeked, i: Input, expected: seq<byte>)
    requires s != S.Done && S.Decide(c, s, peerCert, p, i, expected).Move?
    requires p.Got? && s == S.SelectParameters ==> p.msg.typ == ClientHello
    ensures var mv := S.Decide(c, s, peerCert, p, i, expected);
            && (mv.took ==> p.Got?)
            && (if mv.took then [p.msg.typ] else []) + OutTypes(mv.out) == ServerPart(c, s, peerCert)
  {
    hide S.Decide, SR.Verdict, OutTypes;
    SR.Decides(c, s, peerCert, p, i, expected);
    ServerSends(c, s, peerCert, p, i, expected);
    assert forall q: seq<MsgType> :: q + [] == q && [] + q == q;
  }

  lemma {:induction false} PeerCertLate(c: Config, s: S.State, a: bool, b: bool)
    requires S.OnPath(c, s) && S.Rank(c, s) >= 9 && !c.resume
    ensures ServerUpTo(c, s, a) == ServerUpTo(c, s, b)
  {
  }

  /** A server's turn keeps its transcript in order. */
  lemma {:induction false} ServerTurnOrdered(c: Config, st: Station<S.State>, i: Input, mac: Mac)
    requires S.Inv(c, st.end) && ServerOrdered(c, st.end) && st.end.state != S.Done && S.HelloAtHand(st.end, st.inbox)
    ensures ServerOrdered(c, S.Step(c, st.end, st.inbox, i, mac))
  {
    hide S.Decide, Sound, S.Milestones, S.Stage, S.Passes, ServerUpTo, ServerPart, Peek, OutTypes, Types, S.Rank, S.OnPath, SR.Approves,
         SR.Verdict, S.Next, S.HelloAtHand;
    var e, mv := st.end, S.Plan(c, st.end, st.inbox, i, mac);
    var p, expected, s := Peek(e.readEpoch, st.inbox), mac(e.transcript, false), e.state;
    S.DecideLeads(c, s, e.peerCert, p, i, expected);
    ApplyKeeps(e, mv, st.inbox, mac, true);
    if mv.Move? {
      HelloStillThere(st, st.inbox);
      S.NeverRestarts(c, s, e.peerCert, p, i, expected);
      SR.Decides(c, s, e.peerCert, p, i, expected);
      ServerHashesPart(c, s, e.peerCert, p, i, expected);
      ServerUpToStep(c, s, e.peerCert);
      ApplyTypes(e, mv, st.inbox, mac, true);
      S.RankFalls(c, s);
      if s == S.ReadClientCertificate { PeerCertRanks(c); }
      if mv.peerCert { PeerCertLate(c, S.Next(c, s), e.peerCert, true); }
      Joined(Types(e.transcript), mv.took, if mv.took then p.msg.typ else Finished, OutTypes(mv.out), ServerPart(c, s, e.peerCert));
    }
  }

  lemma {:induction false} PeerCertRanks(c: Config)
    requires S.OnPath(c, S.ReadClientCertificate)
    ensures var next := S.Next(c, S.ReadClientCertificate); !c.resume && 9 <= S.Rank(c, next) < 11 && S.OnPath(c, next)
  {
  }

  /** In every run of the server, whatever the client sends, its transcript is in order. */
  lemma {:induction false} ServerInOrder(c: Config, evs: seq<Event>, n: nat, mac: Mac)
    requires n <= |evs|
    ensures ServerOrdered(c, SR.StationAt(c, evs, n, mac).end) && ServerInv(c, SR.StationAt(c, evs, n, mac), mac)
    decreases n
  {
    hide SR.StationAt, S.Inv, ServerOrdered, S.Step, S.Plan, Checked, S.HelloAtHand;
    SR.Begins(c, evs, mac);
    if n == 0 {
      ServerStartOrdered(c);
      StartInv(c, mac);
    } else {
      ServerInOrder(c, evs, n - 1, mac);
      SR.OneMore(c, evs, n - 1, mac);
      var st, ev := SR.StationAt(c, evs, n - 1, mac), evs[n - 1];
      ServerEvent(c, st, ev, mac);
      if ev.Turn? && st.end.wait.Ok? && st.end.state != S.Done {
        ServerTurnOrdered(c, st, ev.i, mac);
      } else if ev.Wake? {
        ResumeFrame(st.end, st.inbox, ev.bioOk);
        ServerOrderedFrame(c, st.end, Resume(st.end, st.inbox, ev.bioOk).end);
      }
    }
  }

  lemma {:induction false} ServerStartOrdered(c: Config)
    ensures ServerOrdered(c, S.Start)
  {
  }

  lemma {:induction false} ServerOrderedFrame(c: Config, e: S.Server, e': S.Server)
    requires ServerOrdered(c, e) && e' == e.(wait := e'.wait, pending := e'.pending)
    ensures ServerOrdered(c, e')
  {
  }

  /** The messages of a full handshake or a resumption, from the server's side. */
  function ServerMessages(c: Config, peerCert: bool): seq<MsgType> {
    var hellos, last := [ClientHello] + [ServerHello], If(c.ticket, NewSessionTicket) + [Finished];
    if c.resume then hellos + last + If(c.npn, NextProto) + If(c.channelId, ChannelId) + [Finished]
    else
      hellos + (If(c.CertAuth(), Certificate) + If(c.ocsp && c.CertAuth(), CertificateStatus)) + If(c.SendsSke(), ServerKeyExchange)
      + (If(c.requestsCert, CertificateRequest) + [ServerHelloDone]) + If(c.requestsCert, Certificate)
      + [ClientKeyExchange] + If(peerCert, CertificateVerify) + If(c.npn, NextProto) + If(c.channelId, ChannelId) + [Finished] + last
  }

  /**
   * Whatever the client sends, a server that is done has hashed exactly these messages in this order: with a client
   * certificate that is not empty there is a CertificateVerify after the key exchange.
   */
  lemma {:induction false} ServerHasHashed(c: Config, evs: seq<Event>, mac: Mac)
    requires ServerRun(c, ServerStart, evs, mac).end.state == S.Done
    ensures var e := ServerRun(c, ServerStart, evs, mac).end;
            Types(e.transcript) == ServerMessages(c, e.peerCert) && (e.peerCert ==> c.requestsCert && !c.resume)
  {
    hide ServerRun, Types;
    assert evs[..|evs|] == evs;
    ServerInOrder(c, evs, |evs|, mac);
  }
}

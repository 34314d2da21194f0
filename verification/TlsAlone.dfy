/** What every run of one end promises, whatever the other end or the network sends it. */
module TlsAlone {
  import opened TlsHandshake
  import C = TlsClient
  import S = TlsServer

  /** One end with the records that have arrived for it and that it has not taken. */
  datatype Station<S(==)> = Station(end: End<S>, inbox: seq<Wire>)

  /** Something happens to one end: records arrive, its state machine has a turn, or a wait is resolved. */
  datatype Event = Arrive(ws: seq<Wire>) | Turn(i: Input) | Wake(bioOk: bool)

  function Woken<T(==)>(s: Station<T>, bioOk: bool): Station<T> {
    var r := Resume(s.end, s.inbox, bioOk);
    Station(r.end, After(s.inbox, r.took))
  }

  function ClientReacts(c: Config, s: Station<C.State>, ev: Event, mac: Mac): Station<C.State> {
    match ev
    case Arrive(ws) => s.(inbox := s.inbox + ws)
    case Turn(i) =>
      if !s.end.wait.Ok? || s.end.state == C.Done then s
      else Station(C.Step(c, s.end, s.inbox, i, mac), AfterMove(s.inbox, C.Plan(c, s.end, s.inbox, i, mac)))
    case Wake(bioOk) => Woken(s, bioOk)
  }

  function ServerReacts(c: Config, s: Station<S.State>, ev: Event, mac: Mac): Station<S.State> {
    match ev
    case Arrive(ws) => s.(inbox := s.inbox + ws)
    case Turn(i) =>
      if !s.end.wait.Ok? || s.end.state == S.Done then s
      else Station(S.Step(c, s.end, s.inbox, i, mac), AfterMove(s.inbox, S.Plan(c, s.end, s.inbox, i, mac)))
    case Wake(bioOk) => Woken(s, bioOk)
  }

  function ClientRun(c: Config, s: Station<C.State>, evs: seq<Event>, mac: Mac): Station<C.State>
    decreases |evs|
  {
    if evs == [] then s else ClientRun(c, ClientReacts(c, s, evs[0], mac), evs[1..], mac)
  }

  function ServerRun(c: Config, s: Station<S.State>, evs: seq<Event>, mac: Mac): Station<S.State>
    decreases |evs|
  {
    if evs == [] then s else ServerRun(c, ServerReacts(c, s, evs[0], mac), evs[1..], mac)
  }

  const ClientStart: Station<C.State> := Station(C.Start, [])
  const ServerStart: Station<S.State> := Station(S.Start, [])

  // ---- What passes by an end -----------------------------------------------------------------

  /** The records that have left the inbox between two moments. */
  function Gone(before: seq<Wire>, after: seq<Wire>): seq<Wire> {
    if |after| <= |before| then before[..|before| - |after|] else []
  }

  /**
   * The handshake messages seen to pass by an end, told from its inbox and its outgoing flight alone: those that have
   * left the inbox and those added to the flight. A HelloVerifyRequest starts the list again.
   */
  function Passing<T(==)>(log: seq<Msg>, before: Station<T>, after: Station<T>): seq<Msg> {
    var taken, queued := Msgs(Gone(before.inbox, after.inbox)), Msgs(Added(before.end.pending, after.end.pending));
    if taken != [] && taken[0].typ == HelloVerifyRequest then queued else log + taken + queued
  }

  function ClientTraffic(c: Config, s: Station<C.State>, evs: seq<Event>, mac: Mac, log: seq<Msg>): seq<Msg>
    decreases |evs|
  {
    if evs == [] then log
    else
      var s' := ClientReacts(c, s, evs[0], mac);
      ClientTraffic(c, s', evs[1..], mac, Passing(log, s, s'))
  }

  function ServerTraffic(c: Config, s: Station<S.State>, evs: seq<Event>, mac: Mac, log: seq<Msg>): seq<Msg>
    decreases |evs|
  {
    if evs == [] then log
    else
      var s' := ServerReacts(c, s, evs[0], mac);
      ServerTraffic(c, s', evs[1..], mac, Passing(log, s, s'))
  }

  lemma {:induction false} NothingPasses<T>(log: seq<Msg>, before: Station<T>, after: Station<T>)
    requires |before.inbox| <= |after.inbox| && |after.end.pending| <= |before.end.pending|
    ensures Passing(log, before, after) == log
  {
    assert Gone(before.inbox, after.inbox) == [] && Added(before.end.pending, after.end.pending) == [];
    assert log + [] + [] == log;
  }

  /** A move's effect on the transcript is what passes by. */
  lemma {:induction false} TurnPasses<T>(e: End<T>, mv: Move<T>, inbox: seq<Wire>, mac: Mac, server: bool)
    requires mv.Move? && mv.took ==> Peek(e.readEpoch, inbox).Got?
    requires mv.Move? && mv.took ==> (mv.restart <==> Peek(e.readEpoch, inbox).msg.typ == HelloVerifyRequest)
    ensures var e' := e.Apply(mv, inbox, mac, server);
            e'.transcript == Passing(e.transcript, Station(e, inbox), Station(e', AfterMove(inbox, mv)))
  {
    hide End.Apply, Peek;
    PeekedHead(e.readEpoch, inbox);
    ApplyHashes(e, mv, inbox, mac, server);
    var gone := Gone(inbox, AfterMove(inbox, mv));
    if mv.Move? && mv.took {
      assert gone == [inbox[0]] && gone[1..] == [];
      assert Msgs(gone) == [inbox[0].item.msg] + [];
    } else {
      assert gone == [] && e.transcript + [] == e.transcript;
    }
    assert forall q: seq<Msg> :: [] + q == q;
  }

  /** Resolving a wait takes a ChangeCipherSpec at most, and hashes nothing. */
  lemma {:induction false} WakePasses<T>(s: Station<T>, bioOk: bool)
    ensures Woken(s, bioOk).end.transcript == Passing(s.end.transcript, s, Woken(s, bioOk))
  {
    var s', r := Woken(s, bioOk), Resume(s.end, s.inbox, bioOk);
    assert Added(s.end.pending, s'.end.pending) == [];
    if r.took {
      assert Gone(s.inbox, s'.inbox) == [Wire(s.end.readEpoch, Ccs)];
      assert [Wire(s.end.readEpoch, Ccs)][1..] == [];
    } else {
      assert Gone(s.inbox, s'.inbox) == [];
    }
    assert s.end.transcript + [] + [] == s.end.transcript;
  }

  // ---- The invariants ------------------------------------------------------------------------

  predicate ClientInv(c: Config, s: Station<C.State>, mac: Mac) {
    C.Inv(c, s.end) && Checked(s.end, mac, false)
  }

  predicate ServerInv(c: Config, s: Station<S.State>, mac: Mac) {
    S.Inv(c, s.end) && Checked(s.end, mac, true) && S.HelloAtHand(s.end, s.inbox)
  }

  /** Resolving a wait changes nothing but the wait and the flight flushed. */
  lemma {:induction false} ResumeFrame<T>(e: End<T>, inbox: seq<Wire>, bioOk: bool)
    ensures var e' := Resume(e, inbox, bioOk).end;
            e' == e.(wait := e'.wait, pending := e'.pending)
  {
  }

  lemma {:induction false} NothingBeforeHelloVerify(c: Config, e: C.Client)
    requires C.Inv(c, e) && e.state == C.ReadHelloVerifyRequest
    ensures e.milestones == []
  {
  }

  /** An event keeps the client's invariant, and the transcript is what has passed by. */
  lemma {:induction false} ClientEvent(c: Config, s: Station<C.State>, ev: Event, mac: Mac)
    requires ClientInv(c, s, mac)
    ensures var s' := ClientReacts(c, s, ev, mac);
            ClientInv(c, s', mac) && s'.end.transcript == Passing(s.end.transcript, s, s')
  {
    hide C.Decide, C.Milestones, C.Stage, C.OnPath, Sound, Resume, Finishes, Passing, Peek, End.Apply;
    var s' := ClientReacts(c, s, ev, mac);
    match ev {
      case Arrive(ws) => NothingPasses(s.end.transcript, s, s');
      case Turn(i) =>
        if s' == s {
          NothingPasses(s.end.transcript, s, s');
        } else {
          var p, expected := Peek(s.end.readEpoch, s.inbox), mac(s.end.transcript, true);
          C.StepInv(c, s.end, s.inbox, i, mac);
          C.FinishedIsChecked(c, s.end.state, s.end.certRequest, p, i, expected);
          C.RestartsOn(c, s.end.state, s.end.certRequest, p, i, expected);
          if s.end.state == C.ReadHelloVerifyRequest { NothingBeforeHelloVerify(c, s.end); }
          ApplyChecked(s.end, C.Plan(c, s.end, s.inbox, i, mac), s.inbox, mac, false);
          TurnPasses(s.end, C.Plan(c, s.end, s.inbox, i, mac), s.inbox, mac, false);
        }
      case Wake(bioOk) =>
        ResumeFrame(s.end, s.inbox, bioOk);
        SoundFrame(s.end, s'.end.wait, s'.end.pending);
        WakePasses(s, bioOk);
    }
  }

  lemma {:induction false} SoundFrame<T>(e: End<T>, w: Wait, pending: seq<Wire>)
    requires Sound(e)
    ensures Sound(e.(wait := w, pending := pending))
  {
  }

  lemma {:induction false} ServerEvent(c: Config, s: Station<S.State>, ev: Event, mac: Mac)
    requires ServerInv(c, s, mac)
    ensures var s' := ServerReacts(c, s, ev, mac);
            ServerInv(c, s', mac) && s'.end.transcript == Passing(s.end.transcript, s, s')
  {
    hide S.Decide, S.Milestones, S.Stage, S.OnPath, Sound, Resume, Finishes, Passing, End.Apply, S.HelloAtHand;
    var s' := ServerReacts(c, s, ev, mac);
    match ev {
      case Arrive(ws) =>
        NothingPasses(s.end.transcript, s, s');
        HelloStillThere(s, s'.inbox);
      case Turn(i) =>
        if s' == s {
          NothingPasses(s.end.transcript, s, s');
        } else {
          var p, expected := Peek(s.end.readEpoch, s.inbox), mac(s.end.transcript, false);
          S.StepInv(c, s.end, s.inbox, i, mac);
          S.HelloStaysAtHand(c, s.end, s.inbox, i, mac);
          HelloStillThere(s, s.inbox);
          S.FinishedIsChecked(c, s.end.state, s.end.peerCert, p, i, expected);
          S.NeverRestarts(c, s.end.state, s.end.peerCert, p, i, expected);
          S.NoVerifyTaken(c, s.end.state, s.end.peerCert, p, i, expected);
          ApplyChecked(s.end, S.Plan(c, s.end, s.inbox, i, mac), s.inbox, mac, true);
          TurnPasses(s.end, S.Plan(c, s.end, s.inbox, i, mac), s.inbox, mac, true);
        }
      case Wake(bioOk) =>
        ResumeFrame(s.end, s.inbox, bioOk);
        SoundFrame(s.end, s'.end.wait, s'.end.pending);
        WakePasses(s, bioOk);
        HelloAfterWake(s, bioOk);
    }
  }

  lemma {:induction false} HelloStillThere(s: Station<S.State>, inbox: seq<Wire>)
    requires S.HelloAtHand(s.end, s.inbox) && s.inbox <= inbox
    ensures S.HelloAtHand(s.end, inbox)
    ensures var p := Peek(s.end.readEpoch, s.inbox);
            s.end.state == S.SelectParameters ==> p.Got? && p.msg.typ == ClientHello
  {
  }

  lemma {:induction false} HelloAfterWake(s: Station<S.State>, bioOk: bool)
    requires S.HelloAtHand(s.end, s.inbox)
    ensures S.HelloAtHand(Woken(s, bioOk).end, Woken(s, bioOk).inbox)
  {
  }

  /** In every run of the client its transcript is exactly the traffic that has passed by it. */
  lemma {:induction false} ClientHashesTraffic(c: Config, s: Station<C.State>, evs: seq<Event>, mac: Mac)
    requires ClientInv(c, s, mac)
    ensures var r := ClientRun(c, s, evs, mac);
            ClientInv(c, r, mac) && r.end.transcript == ClientTraffic(c, s, evs, mac, s.end.transcript)
    decreases |evs|
  {
    hide ClientInv, ClientReacts, Passing;
    if evs != [] {
      ClientEvent(c, s, evs[0], mac);
      ClientHashesTraffic(c, ClientReacts(c, s, evs[0], mac), evs[1..], mac);
    }
  }

  /** The same for the server. */
  lemma {:induction false} ServerHashesTraffic(c: Config, s: Station<S.State>, evs: seq<Event>, mac: Mac)
    requires ServerInv(c, s, mac)
    ensures var r := ServerRun(c, s, evs, mac);
            ServerInv(c, r, mac) && r.end.transcript == ServerTraffic(c, s, evs, mac, s.end.transcript)
    decreases |evs|
  {
    hide ServerInv, ServerReacts, Passing;
    if evs != [] {
      ServerEvent(c, s, evs[0], mac);
      ServerHashesTraffic(c, ServerReacts(c, s, evs[0], mac), evs[1..], mac);
    }
  }

  lemma {:induction false} StartInv(c: Config, mac: Mac)
    ensures ClientInv(c, ClientStart, mac) && ServerInv(c, ServerStart, mac)
  {
  }

  // ---- At the end ----------------------------------------------------------------------------

  /** Whose Finished comes first: the client's in a full handshake, the server's in a resumption. */
  function FinishedOrder(c: Config): seq<bool> { if c.resume then [true, false] else [false, true] }

  function ClientMilestones(c: Config): seq<Milestone> {
    if c.resume then [SwitchedRead, CheckedFinished, SwitchedWrite, Milestone.SentFinished]
    else (if c.CertAuth() then [VerifiedCert] else [])
         + [KeyExchanged, SwitchedWrite, Milestone.SentFinished, SwitchedRead, CheckedFinished]
  }

  function ServerMilestones(c: Config, peerCert: bool): seq<Milestone> {
    if c.resume then [SwitchedWrite, Milestone.SentFinished, SwitchedRead, CheckedFinished]
    else (if peerCert then [VerifiedCert] else [])
         + [KeyExchanged, SwitchedRead, CheckedFinished, SwitchedWrite, Milestone.SentFinished]
  }

  lemma {:induction false} ClientAtDone(c: Config, s: Station<C.State>, mac: Mac)
    requires ClientInv(c, s, mac) && s.end.state == C.Done
    ensures s.end.milestones == ClientMilestones(c) && s.end.readEpoch == 1 && s.end.writeEpoch == 1
    ensures Finishes(s.end.transcript, FinishedOrder(c), mac)
  {
    hide C.Milestones, Roles, Finishes, C.OnPath, Sound, C.Stage, FinishedOrder;
    C.MilestonesAtDone(c);
    C.EpochsAt(c, s.end);
    RolesInOrder(c, c.CertAuth(), s.end.milestones, false);
  }

  lemma {:induction false} ServerAtDone(c: Config, s: Station<S.State>, mac: Mac)
    requires ServerInv(c, s, mac) && s.end.state == S.Done
    ensures s.end.milestones == ServerMilestones(c, s.end.peerCert) && s.end.readEpoch == 1 && s.end.writeEpoch == 1
    ensures Finishes(s.end.transcript, FinishedOrder(c), mac)
  {
    hide S.Milestones, Roles, Finishes, S.OnPath, Sound, S.Stage, FinishedOrder;
    S.MilestonesAtDone(c, s.end.peerCert);
    S.EpochsAt(c, s.end);
    RolesInOrder(c, s.end.peerCert, s.end.milestones, true);
  }

  /**
   * Whatever the server sends, a client that is done has done exactly these things, once each and in this order:
   * verified the certificate before sending its key exchange, sent its Finished after switching its write keys, and
   * checked the server's after switching its read keys. It has hashed exactly the messages that passed by it, among
   * them two Finished, in the order of the handshake, each with the MAC of all that passed before it.
   */
  lemma {:induction false} ClientDone(c: Config, evs: seq<Event>, mac: Mac)
    requires ClientRun(c, ClientStart, evs, mac).end.state == C.Done
    ensures var e := ClientRun(c, ClientStart, evs, mac).end;
            && e.milestones == ClientMilestones(c) && e.readEpoch == 1 && e.writeEpoch == 1
            && e.transcript == ClientTraffic(c, ClientStart, evs, mac, [])
            && Finishes(e.transcript, FinishedOrder(c), mac)
  {
    hide ClientInv, ClientRun, ClientTraffic, Finishes, FinishedOrder, ClientMilestones;
    StartInv(c, mac);
    ClientHashesTraffic(c, ClientStart, evs, mac);
    ClientAtDone(c, ClientRun(c, ClientStart, evs, mac), mac);
  }

  /** The same for a server and any client; with a client certificate, it was verified before the key exchange was taken. */
  lemma {:induction false} ServerDone(c: Config, evs: seq<Event>, mac: Mac)
    requires ServerRun(c, ServerStart, evs, mac).end.state == S.Done
    ensures var e := ServerRun(c, ServerStart, evs, mac).end;
            && e.milestones == ServerMilestones(c, e.peerCert) && e.readEpoch == 1 && e.writeEpoch == 1
            && e.transcript == ServerTraffic(c, ServerStart, evs, mac, [])
            && Finishes(e.transcript, FinishedOrder(c), mac)
  {
    hide ServerInv, ServerRun, ServerTraffic, Finishes, FinishedOrder, ServerMilestones;
    StartInv(c, mac);
    ServerHashesTraffic(c, ServerStart, evs, mac);
    ServerAtDone(c, ServerRun(c, ServerStart, evs, mac), mac);
  }

  /** What comes before the Finished messages of a full handshake. */
  function Early(verified: bool): seq<Milestone> { (if verified then [VerifiedCert] else []) + [KeyExchanged] }

  lemma {:induction false} NoRolesEarly(verified: bool, server: bool)
    ensures Roles([], server) == [] && Roles(Early(verified), server) == []
  {
    RolesOne([], VerifiedCert, server);
    RolesOne(if verified then [VerifiedCert] else [], KeyExchanged, server);
    assert [] + [VerifiedCert] == [VerifiedCert];
  }

  lemma {:induction false} RolesAtDone(before: seq<Milestone>, a: Milestone, b: Milestone, x: Milestone, y: Milestone, server: bool)
    requires before == [] || before == Early(true) || before == Early(false)
    requires (a.SwitchedRead? || a.SwitchedWrite?) && (x.SwitchedRead? || x.SwitchedWrite?)
    requires (b.SentFinished? && y.CheckedFinished?) || (b.CheckedFinished? && y.SentFinished?)
    ensures before + [a, b, x, y] == before + [a] + [b] + [x] + [y]
    ensures Roles(before + [a] + [b] + [x] + [y], server) == [if b.SentFinished? then server else !server, if y.SentFinished? then server else !server]
  {
    NoRolesEarly(true, server);
    NoRolesEarly(false, server);
    hide Roles, Early;
    RolesOne(before, a, server);
    RolesOne(before + [a], b, server);
    RolesOne(before + [a] + [b], x, server);
    RolesOne(before + [a] + [b] + [x], y, server);
  }

  lemma {:induction false} RolesInOrder(c: Config, verified: bool, ms: seq<Milestone>, server: bool)
    requires ms == if c.resume != server then
                     (if c.resume then [] else (if verified then [VerifiedCert] else []) + [KeyExchanged])
                     + [SwitchedRead, CheckedFinished, SwitchedWrite, Milestone.SentFinished]
                   else
                     (if c.resume then [] else (if verified then [VerifiedCert] else []) + [KeyExchanged])
                     + [SwitchedWrite, Milestone.SentFinished, SwitchedRead, CheckedFinished]
    ensures Roles(ms, server) == FinishedOrder(c)
  {
    hide Roles;
    var before := if c.resume then [] else Early(verified);
    if c.resume != server { RolesAtDone(before, SwitchedRead, CheckedFinished, SwitchedWrite, Milestone.SentFinished, server); }
    else { RolesAtDone(before, SwitchedWrite, Milestone.SentFinished, SwitchedRead, CheckedFinished, server); }
  }

  /** A turn that ends in a request to be tried again has done nothing: trying again starts from the same state. */
  lemma {:induction false} RetryRepeatsNothing(c: Config, e: C.Client, f: S.Server, inbox: seq<Wire>, i: Input, bioOk: bool, mac: Mac)
    requires C.Inv(c, e) && S.Inv(c, f) && e.wait.Ok? && f.wait.Ok?
    ensures var e' := C.Step(c, e, inbox, i, mac);
            e'.wait.Retry? || e'.wait.ReadMessage? ==> e' == e.(wait := e'.wait) && (e'.wait.Retry? ==> Resume(e', inbox, bioOk).end == e)
    ensures var f' := S.Step(c, f, inbox, i, mac);
            f'.wait.Retry? || f'.wait.ReadMessage? ==> f' == f.(wait := f'.wait) && (f'.wait.Retry? ==> Resume(f', inbox, bioOk).end == f)
  {
    hide C.Inv, S.Inv, C.Step, S.Step;
    C.WaitsOnly(c, e, inbox, i, mac);
    S.WaitsOnly(c, f, inbox, i, mac);
  }
}

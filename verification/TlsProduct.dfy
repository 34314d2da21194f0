/** A client and a server of one configuration, joined by two channels that keep their order. */
module TlsProduct {
  import opened TlsHandshake
  import TlsAlone
  import C = TlsClient
  import S = TlsServer

  /** The two ends and the records that have left each of them. */
  datatype Net = Net(client: C.Client, server: S.Server, up: seq<Wire>, down: seq<Wire>)

  /** A turn of one end's state machine, or of the loop around it that resolves what it waits for. */
  datatype Action = ClientRuns(i: Input) | ServerRuns(i: Input) | ClientResumes(bioOk: bool) | ServerResumes(bioOk: bool)

  function Act(c: Config, n: Net, a: Action, mac: Mac): Net {
    match a
    case ClientRuns(i) =>
      if n.client.wait != Ok || n.client.state == C.Done then n
      else
        var mv := C.Plan(c, n.client, n.down, i, mac);
        n.(client := C.Step(c, n.client, n.down, i, mac), down := After(n.down, mv.Move? && mv.took))
    case ServerRuns(i) =>
      if n.server.wait != Ok || n.server.state == S.Done then n
      else
        var mv := S.Plan(c, n.server, n.up, i, mac);
        n.(server := S.Step(c, n.server, n.up, i, mac), up := After(n.up, mv.Move? && mv.took))
    case ClientResumes(bioOk) =>
      var r := Resume(n.client, n.down, bioOk);
      n.(client := r.end, down := After(n.down, r.took), up := n.up + r.flushed)
    case ServerResumes(bioOk) =>
      var r := Resume(n.server, n.up, bioOk);
      n.(server := r.end, up := After(n.up, r.took), down := n.down + r.flushed)
  }

  function ActAll(c: Config, n: Net, actions: seq<Action>, mac: Mac): Net
    decreases |actions|
  {
    if actions == [] then n else ActAll(c, Act(c, n, actions[0], mac), actions[1..], mac)
  }

  const Start: Net := Net(C.Start, S.Start, [], [])

  // ---- The invariant -------------------------------------------------------------------------

  /** What is left of the script for the client, with the ChangeCipherSpec it may be waiting for. */
  function ClientRest(c: Config, e: C.Client): seq<Entry> {
    If(e.wait.ReadCcs?, Entry(true, 0, KCcs)) + C.Rest(c, e.state)
  }

  function ServerRest(c: Config, e: S.Server): seq<Entry> {
    If(e.wait.ReadCcs?, Entry(false, 0, KCcs)) + S.Rest(c, e.state)
  }

  /** A wait that is not a failure over what the other end sent. */
  predicate Fine(w: Wait) {
    w.Failed? ==> w.why == Internal
  }

  predicate ClientOk(c: Config, e: C.Client) {
    C.Inv(c, e) && C.Knows(c, e.state, e.certRequest) && Fine(e.wait) && (e.wait.ReadCcs? ==> e.state == C.ProcessChangeCipherSpec)
  }

  predicate ServerOk(c: Config, e: S.Server) {
    S.Inv(c, e) && S.Knows(c, e.state, e.peerCert) && Fine(e.wait) && (e.wait.ReadCcs? ==> e.state == S.ProcessChangeCipherSpec)
  }

  function FromClient(n: Net): seq<Wire> { n.up + n.client.pending }

  function FromServer(n: Net): seq<Wire> { n.down + n.server.pending }

  predicate ClientAhead(c: Config, n: Net, mac: Mac) {
    FromServer(n) == []
    && Ahead(c, false, FromClient(n), ClientRest(c, n.client), ServerRest(c, n.server), n.client.transcript, n.server.transcript, mac)
  }

  predicate ServerAhead(c: Config, n: Net, mac: Mac) {
    FromClient(n) == []
    && Ahead(c, true, FromServer(n), ServerRest(c, n.server), ClientRest(c, n.client), n.server.transcript, n.client.transcript, mac)
  }

  /** One end is ahead of the other by what is on its way. */
  predicate Inv(c: Config, n: Net, mac: Mac) {
    ClientOk(c, n.client) && ServerOk(c, n.server) && (ClientAhead(c, n, mac) || ServerAhead(c, n, mac))
  }

  // ---- Steps of the client -------------------------------------------------------------------

  lemma {:induction false} ClientRestStep(c: Config, e: C.Client, e': C.Client)
    requires C.OnPath(c, e.state) && e.state != C.Done && e.wait.Ok?
    requires e'.state == C.Next(c, e.state) && e'.wait == C.WaitAfter(c, e.state)
    ensures C.OnPath(c, e'.state) && ClientRest(c, e) == C.Segment(c, e.state) + ClientRest(c, e')
  {
    hide C.Segment, C.Next, C.Rank, C.Rest, C.OnPath;
    C.RestStep(c, e.state);
    assert [] + C.Rest(c, e.state) == C.Rest(c, e.state);
    assert ClientRest(c, e') == C.Between(e.state) + C.Rest(c, e'.state);
  }

  lemma {:induction false} ClientSegmentShort(c: Config, s: C.State)
    requires C.Expects(c, s).Some?
    ensures |C.Segment(c, s)| <= 1
  {
  }

  lemma {:induction false} ClientCcsNext(c: Config, s: C.State)
    ensures C.WaitAfter(c, s).ReadCcs? ==> C.Next(c, s) == C.ProcessChangeCipherSpec
  {
  }

  lemma {:induction false} ClientWaits(c: Config, e: C.Client, w: Wait)
    requires ClientOk(c, e) && e.wait.Ok? && Fine(w) && !w.ReadCcs?
    ensures ClientOk(c, e.(wait := w)) && ClientRest(c, e.(wait := w)) == ClientRest(c, e)
  {
    hide C.Rest, C.Knows;
    WaitKeeps(e, w);
  }

  /** A turn of the client: what it takes and queues comes off the front of its script. */
  lemma {:induction false} ClientTurn(c: Config, e: C.Client, inbox: seq<Wire>, i: Input, mac: Mac) returns (ws: seq<Wire>)
    requires c.Valid() && ClientOk(c, e) && e.wait.Ok? && e.state != C.Done && C.Conforms(c, e, inbox, mac)
    ensures var mv, e' := C.Plan(c, e, inbox, i, mac), C.Step(c, e, inbox, i, mac);
            var took := mv.Move? && mv.took;
            && ClientOk(c, e') && (took ==> inbox != [] && inbox[0].item.Message? && ws == [])
            && ClientRest(c, e) == (if took then [EntryOf(true, inbox[0])] else []) + Entries(false, ws) + ClientRest(c, e')
            && e'.pending == e.pending + ws
            && e'.transcript == e.transcript + (if took then MsgOf(inbox[0]) else []) + Msgs(ws)
            && (!took ==> Genuine(c, false, ws, e.transcript, mac))
  {
    hide Sound, C.Milestones, C.Knows, C.Rest, C.Segment, C.Next, Genuine, Msgs, C.Step, C.Plan, C.Conforms, C.Expects;
    ws := C.StepFollows(c, e, inbox, i, mac);
    C.StepInv(c, e, inbox, i, mac);
    var mv, e' := C.Plan(c, e, inbox, i, mac), C.Step(c, e, inbox, i, mac);
    assert e.transcript + [] == e.transcript;
    if mv.Stop? {
      ClientWaits(c, e, mv.wait);
      NothingSent(c, false, e.transcript, mac);
      NothingSent(c, true, e.transcript, mac);
      assert e.pending + [] == e.pending;
      assert [] + [] + ClientRest(c, e') == ClientRest(c, e');
    } else {
      ClientCcsNext(c, e.state);
      ClientRestStep(c, e, e');
      if mv.took { ClientSegmentShort(c, e.state); }
    }
  }

  /** The client's turn when it is ahead, so that nothing is on its way to it. */
  lemma {:induction false} ClientRunsAhead(c: Config, n: Net, i: Input, mac: Mac)
    requires c.Valid() && Inv(c, n, mac) && ClientAhead(c, n, mac) && n.client.wait.Ok? && n.client.state != C.Done
    ensures Inv(c, Act(c, n, ClientRuns(i), mac), mac)
  {
    hide ClientOk, ServerOk, ClientRest, ServerRest, Genuine, Msgs, C.Step, C.Plan, Ahead;
    var e := n.client;
    assert n.down == [];
    var ws := ClientTurn(c, e, n.down, i, mac);
    var e' := C.Step(c, e, n.down, i, mac);
    assert [] + Entries(false, ws) == Entries(false, ws) && e.transcript + [] == e.transcript;
    AheadSends(c, false, FromClient(n), ClientRest(c, e), ServerRest(c, n.server), e.transcript, n.server.transcript, mac,
               ws, ClientRest(c, e'));
    assert FromClient(n.(client := e')) == FromClient(n) + ws;
  }

  /** The client's turn when it is behind: it takes what is next, or has nothing of its own to do. */
  lemma {:induction false} ClientRunsBehind(c: Config, n: Net, i: Input, mac: Mac)
    requires c.Valid() && Inv(c, n, mac) && ServerAhead(c, n, mac) && FromServer(n) != []
    requires n.client.wait.Ok? && n.client.state != C.Done
    ensures Inv(c, Act(c, n, ClientRuns(i), mac), mac)
  {
    hide ClientOk, ServerOk, ClientRest, ServerRest, Genuine, Msgs, C.Step, C.Plan, Ahead, C.Conforms;
    var e, fly := n.client, FromServer(n);
    BehindTakes(c, true, fly, ServerRest(c, n.server), ClientRest(c, e), n.server.transcript, e.transcript, mac);
    ClientConforms(c, e, n.down, fly, mac);
    var ws := ClientTurn(c, e, n.down, i, mac);
    var mv, e' := C.Plan(c, e, n.down, i, mac), C.Step(c, e, n.down, i, mac);
    var took := mv.Move? && mv.took;
    NothingSent(c, false, e.transcript, mac);
    if took {
      assert n.down[0] == fly[0] && After(n.down, took) + n.server.pending == fly[1..];
      assert ClientRest(c, e)[1..] == ClientRest(c, e');
      assert e'.transcript == e.transcript + MsgOf(fly[0]);
    } else {
      assert [] + Entries(false, ws) == Entries(false, ws);
      NothingFirst(false, ws, ClientRest(c, e'));
      assert ClientRest(c, e') == ClientRest(c, e) && e'.transcript == e.transcript;
    }
    assert e'.pending == e.pending;
  }

  lemma {:induction false} ClientConforms(c: Config, e: C.Client, inbox: seq<Wire>, fly: seq<Wire>, mac: Mac)
    requires ClientOk(c, e) && e.wait.Ok? && fly != [] && (inbox != [] ==> inbox[0] == fly[0])
    requires ClientRest(c, e) != [] && ClientRest(c, e)[0] == EntryOf(true, fly[0])
    requires fly[0].item.Message? && fly[0].item.msg.typ == Finished ==> fly[0].item.msg.body == mac(e.transcript, true)
    ensures C.Conforms(c, e, inbox, mac)
  {
    hide C.Rest;
  }

  /** Taking the ChangeCipherSpec the client waits for. */
  lemma {:induction false} ClientTakesCcs(c: Config, n: Net, bioOk: bool, mac: Mac)
    requires c.Valid() && Inv(c, n, mac) && n.client.wait.ReadCcs? && n.down != []
    ensures Inv(c, Act(c, n, ClientResumes(bioOk), mac), mac)
  {
    hide C.Inv, C.Knows, C.Rest, ServerOk, ServerRest, Genuine, Msgs, Ahead;
    var e, fly := n.client, FromServer(n);
    ClientFrame(c, e);
    BehindTakes(c, true, fly, ServerRest(c, n.server), ClientRest(c, e), n.server.transcript, e.transcript, mac);
    ClientCcsEpoch(c, e);
    assert fly[0] == n.down[0] == Wire(e.readEpoch, Ccs);
    assert After(n.down, true) + n.server.pending == fly[1..] && n.up + [] == n.up;
    assert ClientRest(c, e)[1..] == ClientRest(c, e.(wait := Ok)) && e.transcript + [] == e.transcript;
  }

  /** Resolving what the client waits for. */
  lemma {:induction false} ClientResumesKeeps(c: Config, n: Net, bioOk: bool, mac: Mac)
    requires c.Valid() && Inv(c, n, mac)
    ensures Inv(c, Act(c, n, ClientResumes(bioOk), mac), mac)
  {
    hide C.Inv, C.Knows, C.Rest, ServerOk, ServerRest, Genuine, Msgs, Ahead;
    var e := n.client;
    if e.wait.ReadCcs? && n.down != [] {
      ClientTakesCcs(c, n, bioOk, mac);
    } else {
      ClientFrame(c, e);
      assert n.up + [] == n.up && FromClient(Act(c, n, ClientResumes(bioOk), mac)) == FromClient(n);
    }
  }

  lemma {:induction false} ClientFrame(c: Config, e: C.Client)
    requires C.Inv(c, e)
    ensures C.Inv(c, e.(wait := Ok)) && C.Inv(c, e.(pending := [], wait := Ok))
  {
  }

  lemma {:induction false} ClientCcsEpoch(c: Config, e: C.Client)
    requires C.Inv(c, e) && e.state == C.ProcessChangeCipherSpec
    ensures e.readEpoch == 0
  {
    C.EpochsAt(c, e);
  }

  // ---- Steps of the server -------------------------------------------------------------------

  lemma {:induction false} ServerRestStep(c: Config, e: S.Server, e': S.Server)
    requires S.OnPath(c, e.state) && e.state != S.Done && e.wait.Ok?
    requires e'.state == S.Next(c, e.state) && e'.wait == S.WaitAfter(e.state)
    ensures S.OnPath(c, e'.state) && ServerRest(c, e) == S.Segment(c, e.state) + ServerRest(c, e')
  {
    hide S.Segment, S.Next, S.Rank, S.Rest, S.OnPath;
    S.RestStep(c, e.state);
    assert [] + S.Rest(c, e.state) == S.Rest(c, e.state);
    assert ServerRest(c, e') == S.Between(e.state) + S.Rest(c, e'.state);
  }

  lemma {:induction false} ServerSegmentShort(c: Config, s: S.State)
    requires S.Expects(c, s).Some?
    ensures |S.Segment(c, s)| <= 1
  {
  }

  lemma {:induction false} ServerCcsNext(c: Config, s: S.State)
    ensures S.WaitAfter(s).ReadCcs? ==> S.Next(c, s) == S.ProcessChangeCipherSpec
  {
  }

  lemma {:induction false} ServerWaits(c: Config, e: S.Server, w: Wait)
    requires ServerOk(c, e) && e.wait.Ok? && Fine(w) && !w.ReadCcs?
    ensures ServerOk(c, e.(wait := w)) && ServerRest(c, e.(wait := w)) == ServerRest(c, e)
  {
    hide S.Rest, S.Knows;
    WaitKeeps(e, w);
  }

  /** A turn of the server: what it takes and queues comes off the front of its script. */
  lemma {:induction false} ServerTurn(c: Config, e: S.Server, inbox: seq<Wire>, i: Input, mac: Mac) returns (ws: seq<Wire>)
    requires c.Valid() && ServerOk(c, e) && e.wait.Ok? && e.state != S.Done && S.Conforms(c, e, inbox, mac)
    ensures var mv, e' := S.Plan(c, e, inbox, i, mac), S.Step(c, e, inbox, i, mac);
            var took := mv.Move? && mv.took;
            && ServerOk(c, e') && (took ==> inbox != [] && inbox[0].item.Message? && ws == [])
            && ServerRest(c, e) == (if took then [EntryOf(false, inbox[0])] else []) + Entries(true, ws) + ServerRest(c, e')
            && e'.pending == e.pending + ws
            && e'.transcript == e.transcript + (if took then MsgOf(inbox[0]) else []) + Msgs(ws)
            && (!took ==> Genuine(c, true, ws, e.transcript, mac))
  {
    hide Sound, S.Milestones, S.Knows, S.Rest, S.Segment, S.Next, Genuine, Msgs, S.Step, S.Plan, S.Conforms, S.Expects;
    ws := S.StepFollows(c, e, inbox, i, mac);
    S.StepInv(c, e, inbox, i, mac);
    var mv, e' := S.Plan(c, e, inbox, i, mac), S.Step(c, e, inbox, i, mac);
    assert e.transcript + [] == e.transcript;
    if mv.Stop? {
      ServerWaits(c, e, mv.wait);
      NothingSent(c, false, e.transcript, mac);
      NothingSent(c, true, e.transcript, mac);
      assert e.pending + [] == e.pending;
      assert [] + [] + ServerRest(c, e') == ServerRest(c, e');
    } else {
      ServerCcsNext(c, e.state);
      ServerRestStep(c, e, e');
      if mv.took { ServerSegmentShort(c, e.state); }
    }
  }

  /** The server's turn when it is ahead, so that nothing is on its way to it. */
  lemma {:induction false} ServerRunsAhead(c: Config, n: Net, i: Input, mac: Mac)
    requires c.Valid() && Inv(c, n, mac) && ServerAhead(c, n, mac) && n.server.wait.Ok? && n.server.state != S.Done
    ensures Inv(c, Act(c, n, ServerRuns(i), mac), mac)
  {
    hide ServerOk, ClientOk, ServerRest, ClientRest, Genuine, Msgs, S.Step, S.Plan, Ahead;
    var e := n.server;
    assert n.up == [];
    var ws := ServerTurn(c, e, n.up, i, mac);
    var e' := S.Step(c, e, n.up, i, mac);
    assert [] + Entries(true, ws) == Entries(true, ws) && e.transcript + [] == e.transcript;
    AheadSends(c, true, FromServer(n), ServerRest(c, e), ClientRest(c, n.client), e.transcript, n.client.transcript, mac,
               ws, ServerRest(c, e'));
    assert FromServer(n.(server := e')) == FromServer(n) + ws;
  }

  /** The server's turn when it is behind: it takes what is next, or has nothing of its own to do. */
  lemma {:induction false} ServerRunsBehind(c: Config, n: Net, i: Input, mac: Mac)
    requires c.Valid() && Inv(c, n, mac) && ClientAhead(c, n, mac) && FromClient(n) != []
    requires n.server.wait.Ok? && n.server.state != S.Done
    ensures Inv(c, Act(c, n, ServerRuns(i), mac), mac)
  {
    hide ServerOk, ClientOk, ServerRest, ClientRest, Genuine, Msgs, S.Step, S.Plan, Ahead, S.Conforms;
    var e, fly := n.server, FromClient(n);
    BehindTakes(c, false, fly, ClientRest(c, n.client), ServerRest(c, e), n.client.transcript, e.transcript, mac);
    ServerConforms(c, e, n.up, fly, mac);
    var ws := ServerTurn(c, e, n.up, i, mac);
    var mv, e' := S.Plan(c, e, n.up, i, mac), S.Step(c, e, n.up, i, mac);
    var took := mv.Move? && mv.took;
    NothingSent(c, false, e.transcript, mac);
    if took {
      assert n.up[0] == fly[0] && After(n.up, took) + n.client.pending == fly[1..];
      assert ServerRest(c, e)[1..] == ServerRest(c, e');
      assert e'.transcript == e.transcript + MsgOf(fly[0]);
    } else {
      assert [] + Entries(true, ws) == Entries(true, ws);
      NothingFirst(true, ws, ServerRest(c, e'));
      assert ServerRest(c, e') == ServerRest(c, e) && e'.transcript == e.transcript;
    }
    assert e'.pending == e.pending;
  }

  lemma {:induction false} ServerConforms(c: Config, e: S.Server, inbox: seq<Wire>, fly: seq<Wire>, mac: Mac)
    requires ServerOk(c, e) && e.wait.Ok? && fly != [] && (inbox != [] ==> inbox[0] == fly[0])
    requires ServerRest(c, e) != [] && ServerRest(c, e)[0] == EntryOf(false, fly[0])
    requires fly[0].item.Message? && fly[0].item.msg.typ == Finished ==> fly[0].item.msg.body == mac(e.transcript, false)
    requires fly[0].item.Message? && fly[0].item.msg.typ == Certificate ==> (EmptyChain(fly[0].item.msg) <==> !c.hasClientCert)
    ensures S.Conforms(c, e, inbox, mac)
  {
    hide S.Rest;
  }

  /** Taking the ChangeCipherSpec the server waits for. */
  lemma {:induction false} ServerTakesCcs(c: Config, n: Net, bioOk: bool, mac: Mac)
    requires c.Valid() && Inv(c, n, mac) && n.server.wait.ReadCcs? && n.up != []
    ensures Inv(c, Act(c, n, ServerResumes(bioOk), mac), mac)
  {
    hide S.Inv, S.Knows, S.Rest, ClientOk, ClientRest, Genuine, Msgs, Ahead;
    var e, fly := n.server, FromClient(n);
    ServerFrame(c, e);
    BehindTakes(c, false, fly, ClientRest(c, n.client), ServerRest(c, e), n.client.transcript, e.transcript, mac);
    ServerCcsEpoch(c, e);
    assert fly[0] == n.up[0] == Wire(e.readEpoch, Ccs);
    assert After(n.up, true) + n.client.pending == fly[1..] && n.down + [] == n.down;
    assert ServerRest(c, e)[1..] == ServerRest(c, e.(wait := Ok)) && e.transcript + [] == e.transcript;
  }

  /** Resolving what the server waits for. */
  lemma {:induction false} ServerResumesKeeps(c: Config, n: Net, bioOk: bool, mac: Mac)
    requires c.Valid() && Inv(c, n, mac)
    ensures Inv(c, Act(c, n, ServerResumes(bioOk), mac), mac)
  {
    hide S.Inv, S.Knows, S.Rest, ClientOk, ClientRest, Genuine, Msgs, Ahead;
    var e := n.server;
    if e.wait.ReadCcs? && n.up != [] {
      ServerTakesCcs(c, n, bioOk, mac);
    } else {
      ServerFrame(c, e);
      assert n.down + [] == n.down && FromServer(Act(c, n, ServerResumes(bioOk), mac)) == FromServer(n);
    }
  }

  lemma {:induction false} ServerFrame(c: Config, e: S.Server)
    requires S.Inv(c, e)
    ensures S.Inv(c, e.(wait := Ok)) && S.Inv(c, e.(pending := [], wait := Ok))
  {
  }

  lemma {:induction false} ServerCcsEpoch(c: Config, e: S.Server)
    requires S.Inv(c, e) && e.state == S.ProcessChangeCipherSpec
    ensures e.readEpoch == 0
  {
    S.EpochsAt(c, e);
  }

  // ---- Every run -----------------------------------------------------------------------------

  lemma {:induction false} StartInv(c: Config, mac: Mac)
    ensures Inv(c, Start, mac)
  {
    hide C.Rest, S.Rest, Script;
    C.ScriptOfClient(c);
    S.ScriptOfServer(c);
    NothingSent(c, false, [], mac);
    var script := Script(c);
    assert ServerRest(c, S.Start) == [] + script && ClientRest(c, C.Start) == [] + script;
    assert [] + script == script;
  }

  /** With nothing on its way to one end, that end is ahead, or neither is. */
  lemma {:induction false} Even(c: Config, n: Net, mac: Mac)
    requires Inv(c, n, mac)
    ensures FromServer(n) == [] ==> ClientAhead(c, n, mac)
    ensures FromClient(n) == [] ==> ServerAhead(c, n, mac)
  {
    hide ClientOk, ServerOk, ClientRest, ServerRest;
    NothingSent(c, false, n.server.transcript, mac);
    NothingSent(c, true, n.client.transcript, mac);
    assert n.server.transcript + [] == n.server.transcript && n.client.transcript + [] == n.client.transcript;
    assert [] + ClientRest(c, n.client) == ClientRest(c, n.client) && [] + ServerRest(c, n.server) == ServerRest(c, n.server);
  }

  lemma {:induction false} ActInv(c: Config, n: Net, a: Action, mac: Mac)
    requires c.Valid() && Inv(c, n, mac)
    ensures Inv(c, Act(c, n, a, mac), mac)
  {
    hide ClientOk, ServerOk, ClientRest, ServerRest, Genuine, Msgs, C.Step, C.Plan, S.Step, S.Plan;
    match a {
      case ClientRuns(i) =>
        if n.client.wait.Ok? && n.client.state != C.Done {
          if FromServer(n) == [] {
            Even(c, n, mac);
            ClientRunsAhead(c, n, i, mac);
          } else {
            ClientRunsBehind(c, n, i, mac);
          }
        }
      case ServerRuns(i) =>
        if n.server.wait.Ok? && n.server.state != S.Done {
          if FromClient(n) == [] {
            Even(c, n, mac);
            ServerRunsAhead(c, n, i, mac);
          } else {
            ServerRunsBehind(c, n, i, mac);
          }
        }
      case ClientResumes(bioOk) => ClientResumesKeeps(c, n, bioOk, mac);
      case ServerResumes(bioOk) => ServerResumesKeeps(c, n, bioOk, mac);
    }
  }

  lemma {:induction false} RunInv(c: Config, n: Net, actions: seq<Action>, mac: Mac)
    requires c.Valid() && Inv(c, n, mac)
    ensures Inv(c, ActAll(c, n, actions, mac), mac)
    decreases |actions|
  {
    hide Inv, Act;
    if actions != [] {
      ActInv(c, n, actions[0], mac);
      RunInv(c, Act(c, n, actions[0], mac), actions[1..], mac);
    }
  }

  /** Each end of the pair is an end on its own, with what is on its way to it as its input. */
  predicate Alone(c: Config, n: Net, mac: Mac) {
    TlsAlone.ClientInv(c, TlsAlone.Station(n.client, n.down), mac) && TlsAlone.ServerInv(c, TlsAlone.Station(n.server, n.up), mac)
  }

  lemma {:induction false} ActAlone(c: Config, n: Net, a: Action, mac: Mac)
    requires Alone(c, n, mac)
    ensures Alone(c, Act(c, n, a, mac), mac)
  {
    hide TlsAlone.ClientInv, TlsAlone.ServerInv, C.Step, C.Plan, S.Step, S.Plan, Resume;
    var cl, sv := TlsAlone.Station(n.client, n.down), TlsAlone.Station(n.server, n.up);
    match a {
      case ClientRuns(i) => TlsAlone.ClientEvent(c, cl, TlsAlone.Turn(i), mac);
      case ServerRuns(i) => TlsAlone.ServerEvent(c, sv, TlsAlone.Turn(i), mac);
      case ClientResumes(bioOk) =>
        TlsAlone.ClientEvent(c, cl, TlsAlone.Wake(bioOk), mac);
        TlsAlone.ServerEvent(c, sv, TlsAlone.Arrive(Resume(n.client, n.down, bioOk).flushed), mac);
      case ServerResumes(bioOk) =>
        TlsAlone.ServerEvent(c, sv, TlsAlone.Wake(bioOk), mac);
        TlsAlone.ClientEvent(c, cl, TlsAlone.Arrive(Resume(n.server, n.up, bioOk).flushed), mac);
    }
  }

  lemma {:induction false} RunAlone(c: Config, n: Net, actions: seq<Action>, mac: Mac)
    requires Alone(c, n, mac)
    ensures Alone(c, ActAll(c, n, actions, mac), mac)
    decreases |actions|
  {
    hide Alone, Act;
    if actions != [] {
      ActAlone(c, n, actions[0], mac);
      RunAlone(c, Act(c, n, actions[0], mac), actions[1..], mac);
    }
  }

  /**
   * In every run of an honest client and server of one configuration, an end that is done has hashed two Finished, in
   * the order of the handshake, each with the MAC of all that precedes it.
   */
  lemma {:induction false} FinishedAtDone(c: Config, actions: seq<Action>, mac: Mac)
    ensures var n := ActAll(c, Start, actions, mac);
            && (n.client.state == C.Done ==> Finishes(n.client.transcript, TlsAlone.FinishedOrder(c), mac))
            && (n.server.state == S.Done ==> Finishes(n.server.transcript, TlsAlone.FinishedOrder(c), mac))
  {
    hide TlsAlone.ClientInv, TlsAlone.ServerInv, Finishes, TlsAlone.FinishedOrder;
    TlsAlone.StartInv(c, mac);
    RunAlone(c, Start, actions, mac);
    var n := ActAll(c, Start, actions, mac);
    if n.client.state == C.Done { TlsAlone.ClientAtDone(c, TlsAlone.Station(n.client, n.down), mac); }
    if n.server.state == S.Done { TlsAlone.ServerAtDone(c, TlsAlone.Station(n.server, n.up), mac); }
  }

  /**
   * In every run of an honest client and server of one configuration, neither end ever fails over a message or
   * record of the other: none is unexpected and every Finished checks. Their transcripts differ only by what is on
   * its way; once both are done they are equal. The Finished messages in the transcript of an end that is done carry the
   * MACs of what precedes them there, so each was checked against the transcript it was made from.
   */
  lemma {:induction false} HandshakeIsSafe(c: Config, actions: seq<Action>, mac: Mac)
    requires c.Valid()
    ensures var n := ActAll(c, Start, actions, mac);
            && Fine(n.client.wait) && Fine(n.server.wait)
            && (n.client.transcript == n.server.transcript + Msgs(FromClient(n))
                || n.server.transcript == n.client.transcript + Msgs(FromServer(n)))
            && (n.client.state == C.Done && n.server.state == S.Done ==>
                 n.client.transcript == n.server.transcript && FromClient(n) == [] && FromServer(n) == [])
            && (n.client.state == C.Done ==> Finishes(n.client.transcript, TlsAlone.FinishedOrder(c), mac))
            && (n.server.state == S.Done ==> Finishes(n.server.transcript, TlsAlone.FinishedOrder(c), mac))
  {
    hide Finishes, TlsAlone.FinishedOrder;
    FinishedAtDone(c, actions, mac);
    hide C.Rest, S.Rest, C.Milestones, S.Milestones, C.Stage, S.Stage, Genuine;
    StartInv(c, mac);
    RunInv(c, Start, actions, mac);
    var n := ActAll(c, Start, actions, mac);
    C.DoneRest(c);
    S.DoneRest(c);
    NothingSent(c, false, [], mac);
  }
}

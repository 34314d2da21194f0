/** The handshake of an honest client and server never gets stuck, and can always be completed. */
module TlsProgress {
  import opened TlsHandshake
  import opened TlsProduct

  predicate LiveNet(c: Config, n: Net) {
    C.Live(c, n.client) && S.Live(c, n.server)
  }

  lemma {:induction false} ActLive(c: Config, n: Net, a: Action, mac: Mac)
    requires c.Valid() && Inv(c, n, mac) && LiveNet(c, n)
    ensures LiveNet(c, Act(c, n, a, mac))
  {
    hide ClientAhead, ServerAhead, C.Step, S.Step, C.Plan, S.Plan, C.Knows, S.Knows, C.Inv, S.Inv;
    match a {
      case ClientRuns(i) =>
        if n.client.wait.Ok? && n.client.state != C.Done { C.StepLive(c, n.client, n.down, i, mac); }
      case ServerRuns(i) =>
        if n.server.wait.Ok? && n.server.state != S.Done { S.StepLive(c, n.server, n.up, i, mac); }
      case ClientResumes(_) =>
      case ServerResumes(_) =>
    }
  }

  /** An end that wants a record that has not come, or is done. */
  predicate ClientIdle(c: Config, n: Net) {
    (n.client.state == C.Done && n.client.wait.Ok?)
    || (n.down == [] && (n.client.wait.ReadMessage? || n.client.wait.ReadCcs?
                         || (n.client.wait.Ok? && C.Expects(c, n.client.state).Some?)))
  }

  predicate ServerIdle(c: Config, n: Net) {
    (n.server.state == S.Done && n.server.wait.Ok?)
    || (n.up == [] && (n.server.wait.ReadMessage? || n.server.wait.ReadCcs?
                       || (n.server.wait.Ok? && S.Expects(c, n.server.state).Some?)))
  }

  /** An idle end has flushed everything, and is done or has a record of the other end next in its script. */
  lemma {:induction false} IdleClient(c: Config, n: Net, mac: Mac)
    requires c.Valid() && Inv(c, n, mac) && LiveNet(c, n) && ClientIdle(c, n)
    ensures n.client.pending == []
    ensures if n.client.state == C.Done then ClientRest(c, n.client) == []
            else n.down == [] && ClientRest(c, n.client) != [] && ClientRest(c, n.client)[0].fromServer
  {
    hide ClientAhead, ServerAhead, C.Rest, C.Knows, Sound, C.Milestones;
    var e := n.client;
    if e.state == C.Done { C.DoneRest(c); }
    if C.Expects(c, e.state).Some? { C.ExpectsHead(c, e.state); }
  }

  lemma {:induction false} IdleServer(c: Config, n: Net, mac: Mac)
    requires c.Valid() && Inv(c, n, mac) && LiveNet(c, n) && ServerIdle(c, n)
    ensures n.server.pending == []
    ensures if n.server.state == S.Done then ServerRest(c, n.server) == []
            else n.up == [] && ServerRest(c, n.server) != [] && !ServerRest(c, n.server)[0].fromServer
  {
    hide ClientAhead, ServerAhead, S.Rest, S.Knows, Sound, S.Milestones;
    var e := n.server;
    if e.state == S.Done { S.DoneRest(c); }
    if S.Expects(c, e.state).Some? { S.ExpectsHead(c, e.state); }
  }

  /** There is no deadlock: when both ends are idle, both are done. */
  lemma {:induction false} NoDeadlock(c: Config, n: Net, mac: Mac)
    requires c.Valid() && Inv(c, n, mac) && LiveNet(c, n) && ClientIdle(c, n) && ServerIdle(c, n)
    ensures n.client.state == C.Done && n.server.state == S.Done
  {
    hide ClientOk, ServerOk, ClientRest, ServerRest, Genuine, Msgs, C.Live, S.Live, C.Expects, S.Expects;
    IdleClient(c, n, mac);
    IdleServer(c, n, mac);
    Even(c, n, mac);
  }

  // ---- Completion ----------------------------------------------------------------------------

  function Held(w: Wait): nat { if w.Ok? then 0 else 1 }

  /** The work left: every turn that is taken and every wait that is resolved brings it down. */
  function Left(c: Config, n: Net): nat {
    2 * (C.Rank(c, n.client.state) + S.Rank(c, n.server.state)) + Held(n.client.wait) + Held(n.server.wait)
  }

  predicate Healthy(n: Net) { !n.client.wait.Failed? && !n.server.wait.Failed? }

  /** An end that is not idle can go on: by a turn with good luck, or by resolving its wait. */
  lemma {:induction false} ClientGoesOn(c: Config, n: Net, g: Input, mac: Mac) returns (a: Action)
    requires c.Valid() && Inv(c, n, mac) && LiveNet(c, n) && Healthy(n) && g.Good() && !ClientIdle(c, n)
    ensures Healthy(Act(c, n, a, mac)) && Left(c, Act(c, n, a, mac)) < Left(c, n)
  {
    hide ServerOk, C.Rest, C.Knows, Sound, C.Milestones, C.Step, C.Plan, C.Rank, S.Rank, C.Expects, Genuine, Msgs, C.Conforms;
    var e := n.client;
    if e.wait.Ok? {
      a := ClientRuns(g);
      ClientFollowsScript(c, n, mac);
      C.GoodStep(c, e, n.down, g, mac);
      C.StepInv(c, e, n.down, g, mac);
      var ws := C.StepFollows(c, e, n.down, g, mac);
    } else {
      a := ClientResumes(true);
      if e.wait.ReadCcs? { ClientCcsArrived(c, n, mac); }
    }
  }

  lemma {:induction false} ClientFollowsScript(c: Config, n: Net, mac: Mac)
    requires c.Valid() && Inv(c, n, mac) && n.client.wait.Ok?
    ensures C.Conforms(c, n.client, n.down, mac)
  {
    hide ClientOk, ServerOk, ClientRest, ServerRest, Genuine, Msgs, Ahead, C.Conforms;
    var fly := FromServer(n);
    if n.down == [] {
      NothingToRead(c, n, mac);
    } else {
      BehindTakes(c, true, fly, ServerRest(c, n.server), ClientRest(c, n.client), n.server.transcript, n.client.transcript, mac);
      ClientConforms(c, n.client, n.down, fly, mac);
    }
  }

  lemma {:induction false} NothingToRead(c: Config, n: Net, mac: Mac)
    ensures n.down == [] ==> C.Conforms(c, n.client, n.down, mac)
    ensures n.up == [] ==> S.Conforms(c, n.server, n.up, mac)
  {
  }

  /** What arrives while the client waits for the ChangeCipherSpec is the ChangeCipherSpec. */
  lemma {:induction false} ClientCcsArrived(c: Config, n: Net, mac: Mac)
    requires c.Valid() && Inv(c, n, mac) && n.client.wait.ReadCcs? && n.down != []
    ensures n.down[0] == Wire(n.client.readEpoch, Ccs)
  {
    hide C.Inv, C.Knows, C.Rest, ServerOk, ServerRest, Genuine, Msgs, Ahead;
    var fly := FromServer(n);
    BehindTakes(c, true, fly, ServerRest(c, n.server), ClientRest(c, n.client), n.server.transcript, n.client.transcript, mac);
    ClientCcsEpoch(c, n.client);
    assert fly[0] == n.down[0];
  }

  lemma {:induction false} ServerGoesOn(c: Config, n: Net, g: Input, mac: Mac) returns (a: Action)
    requires c.Valid() && Inv(c, n, mac) && LiveNet(c, n) && Healthy(n) && g.Good() && !ServerIdle(c, n)
    ensures Healthy(Act(c, n, a, mac)) && Left(c, Act(c, n, a, mac)) < Left(c, n)
  {
    hide ClientOk, S.Rest, S.Knows, Sound, S.Milestones, S.Step, S.Plan, C.Rank, S.Rank, S.Expects, Genuine, Msgs, S.Conforms;
    var e := n.server;
    if e.wait.Ok? {
      a := ServerRuns(g);
      ServerFollowsScript(c, n, mac);
      S.GoodStep(c, e, n.up, g, mac);
      S.StepInv(c, e, n.up, g, mac);
      var ws := S.StepFollows(c, e, n.up, g, mac);
    } else {
      a := ServerResumes(true);
      if e.wait.ReadCcs? { ServerCcsArrived(c, n, mac); }
    }
  }

  lemma {:induction false} ServerFollowsScript(c: Config, n: Net, mac: Mac)
    requires c.Valid() && Inv(c, n, mac) && n.server.wait.Ok?
    ensures S.Conforms(c, n.server, n.up, mac)
  {
    hide ClientOk, ServerOk, ClientRest, ServerRest, Genuine, Msgs, Ahead, S.Conforms;
    var fly := FromClient(n);
    if n.up == [] {
      NothingToRead(c, n, mac);
    } else {
      BehindTakes(c, false, fly, ClientRest(c, n.client), ServerRest(c, n.server), n.client.transcript, n.server.transcript, mac);
      ServerConforms(c, n.server, n.up, fly, mac);
    }
  }

  /** What arrives while the server waits for the ChangeCipherSpec is the ChangeCipherSpec. */
  lemma {:induction false} ServerCcsArrived(c: Config, n: Net, mac: Mac)
    requires c.Valid() && Inv(c, n, mac) && n.server.wait.ReadCcs? && n.up != []
    ensures n.up[0] == Wire(n.server.readEpoch, Ccs)
  {
    hide S.Inv, S.Knows, S.Rest, ClientOk, ClientRest, Genuine, Msgs, Ahead;
    var fly := FromClient(n);
    BehindTakes(c, false, fly, ClientRest(c, n.client), ServerRest(c, n.server), n.client.transcript, n.server.transcript, mac);
    ServerCcsEpoch(c, n.server);
    assert fly[0] == n.up[0];
  }

  lemma {:induction false} Finish(c: Config, n: Net, g: Input, mac: Mac) returns (actions: seq<Action>)
    requires c.Valid() && Inv(c, n, mac) && LiveNet(c, n) && Healthy(n) && g.Good()
    ensures var m := ActAll(c, n, actions, mac); m.client.state == C.Done && m.server.state == S.Done
    decreases Left(c, n)
  {
    hide Inv, LiveNet, Act, ClientIdle, ServerIdle, Left, Healthy;
    if ClientIdle(c, n) && ServerIdle(c, n) {
      NoDeadlock(c, n, mac);
      actions := [];
    } else {
      var a: Action;
      if ClientIdle(c, n) { a := ServerGoesOn(c, n, g, mac); } else { a := ClientGoesOn(c, n, g, mac); }
      ActInv(c, n, a, mac);
      ActLive(c, n, a, mac);
      var rest := Finish(c, Act(c, n, a, mac), g, mac);
      actions := [a] + rest;
    }
  }

  /** From wherever a run without failures has got to, it can be continued until both ends are done. */
  lemma {:induction false} HandshakeCompletes(c: Config, before: seq<Action>, g: Input, mac: Mac) returns (after: seq<Action>)
    requires c.Valid() && g.Good() && Healthy(ActAll(c, Start, before, mac))
    ensures var n := ActAll(c, ActAll(c, Start, before, mac), after, mac);
            n.client.state == C.Done && n.server.state == S.Done && n.client.transcript == n.server.transcript
  {
    hide Inv, LiveNet, Act, Healthy;
    var n := ActAll(c, Start, before, mac);
    StartInv(c, mac);
    RunInv(c, Start, before, mac);
    StartLive(c);
    RunLive(c, Start, before, mac);
    after := Finish(c, n, g, mac);
    ActAllAppend(c, Start, before, after, mac);
    HandshakeIsSafe(c, before + after, mac);
  }

  lemma {:induction false} StartLive(c: Config)
    ensures LiveNet(c, Start)
  {
  }

  lemma {:induction false} RunLive(c: Config, n: Net, actions: seq<Action>, mac: Mac)
    requires c.Valid() && Inv(c, n, mac) && LiveNet(c, n)
    ensures LiveNet(c, ActAll(c, n, actions, mac))
    decreases |actions|
  {
    hide Inv, LiveNet, Act;
    if actions != [] {
      ActInv(c, n, actions[0], mac);
      ActLive(c, n, actions[0], mac);
      RunLive(c, Act(c, n, actions[0], mac), actions[1..], mac);
    }
  }

  lemma {:induction false} ActAllAppend(c: Config, n: Net, a: seq<Action>, b: seq<Action>, mac: Mac)
    ensures ActAll(c, n, a + b, mac) == ActAll(c, ActAll(c, n, a, mac), b, mac)
    decreases |a|
  {
    hide Act;
    if a == [] {
      assert a + b == b;
    } else {
      assert (a + b)[1..] == a[1..] + b;
      ActAllAppend(c, Act(c, n, a[0], mac), a[1..], b, mac);
    }
  }
}

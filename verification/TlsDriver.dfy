/** A call of `ssl_run_handshake` as a run of events: what holds of every run holds of every call, and what a call reports. */
module TlsDriver {
  import opened TlsHandshake
  import opened TlsAlone
  import C = TlsClient
  import S = TlsServer
  import CM = TlsClientMachine
  import SM = TlsServerMachine
  import CR = TlsClientRefusals
  import SR = TlsServerRefusals

  /** Events that a call makes by itself: turns of the state machine and attempts to resolve what it waits for. */
  predicate OwnEvents(evs: seq<Event>) {
    forall k :: 0 <= k < |evs| ==> !evs[k].Arrive?
  }

  lemma {:induction false} OwnAppend(a: seq<Event>, b: seq<Event>)
    requires OwnEvents(a) && OwnEvents(b)
    ensures OwnEvents(a + b)
  {
  }

  /** What a call reports, told from what it leaves of the handshake. */
  predicate Reports(wait: Wait, done: bool, outcome: Outcome) {
    match outcome
    case Complete => done && wait.Ok?
    case Error => wait.Failed?
    case Early => wait.Ok?
    case Blocked => wait.Ok? || wait.Flush? || wait.ReadMessage? || wait.ReadCcs?
  }

  /** Where a call returns before it runs a step, an attempt to resolve the wait comes to the same. */
  lemma {:induction false} ReturnsAsResumed<T>(e: End<T>, inbox: seq<Wire>, flushOk: bool)
    requires Returns(e, inbox, flushOk).Some?
    ensures var stop, r := Returns(e, inbox, flushOk).value, Resume(e, inbox, flushOk);
            && r.end == e.(wait := stop.0) && !r.took
            && (stop.1.Error? <==> stop.0.Failed?) && (stop.1.Early? <==> e.wait.EarlyReturn?) && !stop.1.Complete?
            && (stop.1.Blocked? <==> e.wait.Retry? || (!stop.0.Ok? && !stop.0.Failed?))
  {
  }

  lemma {:induction false} StopReports<T>(e: End<T>, inbox: seq<Wire>, flushOk: bool, done: bool)
    requires Returns(e, inbox, flushOk).Some?
    ensures Reports(Returns(e, inbox, flushOk).value.0, done, Returns(e, inbox, flushOk).value.1)
  {
  }

  // ---- The client ----------------------------------------------------------------------------

  lemma {:induction false} ClientTurnsAreRun(c: Config, e: C.Client, inbox: seq<Wire>, inputs: nat -> Input, k: nat, mac: Mac)
    returns (evs: seq<Event>)
    requires C.Inv(c, e) && e.wait.Ok?
    ensures OwnEvents(evs)
    ensures var t := CM.Turns(c, e, inbox, inputs, k, mac); ClientRun(c, Station(e, inbox), evs, mac) == Station(t.0, t.1)
    decreases C.Rank(c, e.state)
  {
    hide C.Inv, C.Step, C.Plan, C.Rank, CM.Turns;
    if e.state == C.Done {
      CM.DoneTurns(c, e, inbox, inputs, k, mac);
      evs := [];
    } else {
      CM.TurnsStep(c, e, inbox, inputs, k, mac);
      var turn := Turn(inputs(k));
      var next := ClientReacts(c, Station(e, inbox), turn, mac);
      evs := [];
      if next.end.wait.Ok? { evs := ClientTurnsAreRun(c, next.end, next.inbox, inputs, k + 1, mac); }
      OwnAppend([turn], evs);
      evs := [turn] + evs;
      assert evs[0] == turn && evs[1..] == evs[1..];
    }
  }

  /** A call is a run of the client's own events. It reports completion exactly when the handshake is done, and an error when it has failed. */
  lemma {:induction false} ClientCallIsRun(c: Config, e: C.Client, inbox: seq<Wire>, flushOk: nat -> bool, inputs: nat -> nat -> Input, k: nat,
                                           mac: Mac) returns (evs: seq<Event>)
    requires C.Inv(c, e)
    ensures OwnEvents(evs)
    ensures var d := CM.Drive(c, e, inbox, flushOk, inputs, k, mac);
            && ClientRun(c, Station(e, inbox), evs, mac) == Station(d.0, d.1)
            && Reports(d.0.wait, d.0.state == C.Done, d.2)
    decreases 3 * C.Rank(c, e.state) + Weight(e.wait)
  {
    hide C.Inv, C.Step, C.Plan, C.Rank, CM.Turns, Resume, Returns, Weight;
    var wake, st := Wake(flushOk(k)), Station(e, inbox);
    var stop, woken := Returns(e, inbox, flushOk(k)), ClientReacts(c, st, wake, mac);
    assert [wake][0] == wake && [wake][1..] == [];
    if stop.Some? {
      ReturnsAsResumed(e, inbox, flushOk(k));
      StopReports(e, inbox, flushOk(k), e.state == C.Done);
      evs := [wake];
    } else {
      CM.DriveStep(c, e, inbox, flushOk, inputs, k, mac);
      var t := CM.Turns(c, woken.end, woken.inbox, inputs(k), 0, mac);
      CM.TurnsProgress(c, woken.end, woken.inbox, inputs(k), 0, mac);
      var turns := ClientTurnsAreRun(c, woken.end, woken.inbox, inputs(k), 0, mac);
      var rest: seq<Event> := [];
      if !t.0.wait.Failed? && !t.0.wait.Ok? { rest := ClientCallIsRun(c, t.0, t.1, flushOk, inputs, k + 1, mac); }
      CR.RunAppend(c, woken, turns, rest, mac);
      CR.RunAppend(c, st, [wake], turns + rest, mac);
      OwnAppend(turns, rest);
      OwnAppend([wake], turns + rest);
      evs := [wake] + (turns + rest);
    }
  }

  // ---- The server ----------------------------------------------------------------------------

  lemma {:induction false} ServerTurnsAreRun(c: Config, e: S.Server, inbox: seq<Wire>, inputs: nat -> Input, k: nat, mac: Mac)
    returns (evs: seq<Event>)
    requires S.Inv(c, e) && e.wait.Ok?
    ensures OwnEvents(evs)
    ensures var t := SM.Turns(c, e, inbox, inputs, k, mac); ServerRun(c, Station(e, inbox), evs, mac) == Station(t.0, t.1)
    decreases S.Rank(c, e.state)
  {
    hide S.Inv, S.Step, S.Plan, S.Rank, SM.Turns;
    if e.state == S.Done {
      SM.DoneTurns(c, e, inbox, inputs, k, mac);
      evs := [];
    } else {
      SM.TurnsStep(c, e, inbox, inputs, k, mac);
      var turn := Turn(inputs(k));
      var next := ServerReacts(c, Station(e, inbox), turn, mac);
      evs := [];
      if next.end.wait.Ok? { evs := ServerTurnsAreRun(c, next.end, next.inbox, inputs, k + 1, mac); }
      OwnAppend([turn], evs);
      evs := [turn] + evs;
      assert evs[0] == turn && evs[1..] == evs[1..];
    }
  }

  /** A call is a run of the server's own events. It reports completion exactly when the handshake is done, and an error when it has failed. */
  lemma {:induction false} ServerCallIsRun(c: Config, e: S.Server, inbox: seq<Wire>, flushOk: nat -> bool, inputs: nat -> nat -> Input, k: nat,
                                           mac: Mac) returns (evs: seq<Event>)
    requires S.Inv(c, e)
    ensures OwnEvents(evs)
    ensures var d := SM.Drive(c, e, inbox, flushOk, inputs, k, mac);
            && ServerRun(c, Station(e, inbox), evs, mac) == Station(d.0, d.1)
            && Reports(d.0.wait, d.0.state == S.Done, d.2)
    decreases 3 * S.Rank(c, e.state) + Weight(e.wait)
  {
    hide S.Inv, S.Step, S.Plan, S.Rank, SM.Turns, Resume, Returns, Weight;
    var wake, st := Wake(flushOk(k)), Station(e, inbox);
    var stop, woken := Returns(e, inbox, flushOk(k)), ServerReacts(c, st, wake, mac);
    assert [wake][0] == wake && [wake][1..] == [];
    if stop.Some? {
      ReturnsAsResumed(e, inbox, flushOk(k));
      StopReports(e, inbox, flushOk(k), e.state == S.Done);
      evs := [wake];
    } else {
      SM.DriveStep(c, e, inbox, flushOk, inputs, k, mac);
      var t := SM.Turns(c, woken.end, woken.inbox, inputs(k), 0, mac);
      SM.TurnsProgress(c, woken.end, woken.inbox, inputs(k), 0, mac);
      var turns := ServerTurnsAreRun(c, woken.end, woken.inbox, inputs(k), 0, mac);
      var rest: seq<Event> := [];
      if !t.0.wait.Failed? && !t.0.wait.Ok? { rest := ServerCallIsRun(c, t.0, t.1, flushOk, inputs, k + 1, mac); }
      SR.RunAppend(c, woken, turns, rest, mac);
      SR.RunAppend(c, st, [wake], turns + rest, mac);
      OwnAppend(turns, rest);
      OwnAppend([wake], turns + rest);
      evs := [wake] + (turns + rest);
    }
  }
}

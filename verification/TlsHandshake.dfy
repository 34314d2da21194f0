/** What the two handshake state machines share: messages, configuration, and the state of one end. */
module TlsHandshake {
  import opened Common

  datatype MsgType =
    | ClientHello | HelloVerifyRequest | ServerHello | Certificate | CertificateStatus | ServerKeyExchange
    | CertificateRequest | ServerHelloDone | ClientKeyExchange | CertificateVerify | NewSessionTicket
    | NextProto | ChannelId | Finished

  datatype Msg = Msg(typ: MsgType, body: seq<byte>)

  /** A Certificate message without certificates: its list has length zero. */
  predicate EmptyChain(m: Msg) { m.body == [0, 0, 0] }

  /** What a record of the handshake carries, under the keys of an epoch. */
  datatype Item = Ccs | Message(msg: Msg)

  datatype Wire = Wire(epoch: nat, item: Item)

  datatype KeyExchange = Rsa | Ecdhe | Psk | EcdhePsk

  /**
   * What the two ends have agreed on, and the choices that shape the run: resumption, the kind of cipher, the
   * optional messages, and whether the client has a certificate and may start early.
   */
  datatype Config = Config(
    dtls: bool, resume: bool, kx: KeyExchange, pskHint: bool, ocsp: bool, requestsCert: bool, hasClientCert: bool,
    requiresCert: bool, npn: bool, channelId: bool, ticket: bool, falseStart: bool)
  {
    /** `ssl_cipher_uses_certificate_auth`. */
    predicate CertAuth() { kx.Rsa? || kx.Ecdhe? }

    /** Whether the server sends a ServerKeyExchange: always for ECDHE, and for PSK when it has an identity hint. */
    predicate SendsSke() { RequiresSke() || (!CertAuth() && pskHint) }

    /** `ssl_cipher_requires_server_key_exchange`. */
    predicate RequiresSke() { kx.Ecdhe? || kx.EcdhePsk? }

    /** Certificates are stapled to and requested in certificate ciphers only. */
    predicate Valid() {
      (ocsp || requestsCert ==> CertAuth()) && (requiresCert && requestsCert ==> hasClientCert)
    }
  }

  /** What a `do_` function returns: go on, or what the handshake now waits for. */
  datatype Wait = Ok | Failed(why: Why) | Flush | ReadMessage | ReadCcs | EarlyReturn | Retry

  datatype Why = UnexpectedMessage | UnexpectedRecord | BadFinished | Internal

  /** The steps that cannot be taken back. */
  datatype Milestone = VerifiedCert | KeyExchanged | SwitchedRead | SwitchedWrite | SentFinished | CheckedFinished

  /** What callbacks, the private key, parsing and signature checks answer in a step, and the bodies of messages made. */
  datatype Answer = Proceed | Later | Refuse

  datatype Input = Input(callback: Answer, ok: bool, bodies: MsgType -> seq<byte>) {
    /** Nothing this end does by itself goes wrong or has to be tried again. */
    predicate Good() { callback.Proceed? && ok && bodies(Certificate) != [0, 0, 0] }
  }

  /** The Finished MAC over a transcript, for the client (false) or the server (true). */
  type Mac = (seq<Msg>, bool) -> seq<byte>

  /** What a step adds to the outgoing flight. */
  datatype Out = SendMessage(msg: Msg) | SendCcs | SendFinished

  /**
   * What a step decides: to stop and wait, or to move on, perhaps taking the message at hand, switching the read
   * keys, noting a milestone and sending. `restart` clears the transcript, as after a HelloVerifyRequest.
   */
  datatype Move<S(==)> =
    | Stop(wait: Wait)
    | Move(next: S, wait: Wait, took: bool, restart: bool, request: bool, peerCert: bool, readSwitch: bool,
           mark: seq<Milestone>, out: seq<Out>)
  {
    /** Waiting or failing, with nothing done. */
    predicate Blocks() { Stop? && (wait.ReadMessage? || wait.Retry? || wait.Failed?) }
  }

  /** The move waits or fails, or it goes to `next` past the milestones `ms`. */
  predicate Leads<S(==)>(mv: Move<S>, next: S, ms: seq<Milestone>) {
    mv.Blocks() || (mv.Move? && mv.next == next && MoveMilestones(mv) == ms && PlainMark(mv))
  }

  /** The move takes nothing and learns nothing, and then waits for `w`; or it stops for a reason of this end's own. */
  predicate JustSends<S(==)>(mv: Move<S>, w: Wait) {
    if mv.Stop? then mv.wait.Retry? || mv.wait == Failed(Internal)
    else !mv.took && !mv.restart && !mv.request && !mv.peerCert && mv.wait == w
  }

  function Goto<S(==)>(next: S): (mv: Move<S>)
    ensures mv.Move? && mv.next == next && Leads(mv, next, [])
  {
    Move(next, Ok, false, false, false, false, false, [], [])
  }

  function Take<S(==)>(next: S): (mv: Move<S>)
    ensures mv.Move? && mv.next == next && Leads(mv, next, [])
  {
    var mv := Goto(next);
    mv.(took := true)
  }

  function Send<S(==)>(next: S, msg: Msg): (mv: Move<S>)
    ensures mv.Move? && mv.next == next && Leads(mv, next, [])
  {
    var mv := Goto(next);
    assert [SendMessage(msg)][1..] == [] && OutMilestones([]) == [];
    mv.(out := [SendMessage(msg)])
  }

  function Mark<S(==)>(mv: Move<S>, x: Milestone): (r: Move<S>)
    requires mv.Move? && x != SwitchedRead && x != SwitchedWrite
    ensures r.Move? && r.next == mv.next && (Leads(mv, mv.next, []) ==> Leads(r, mv.next, [x]))
  {
    mv.(mark := [x])
  }

  /** A move after which the handshake waits. */
  function Then<S(==)>(mv: Move<S>, w: Wait): (r: Move<S>)
    requires mv.Move?
    ensures r.Move? && r == mv.(wait := w) && (Leads(mv, mv.next, []) ==> Leads(r, mv.next, []))
    ensures MoveMilestones(r) == MoveMilestones(mv)
  {
    mv.(wait := w)
  }

  function SwitchKeys<S(==)>(next: S): (mv: Move<S>)
    ensures mv.Move? && mv.next == next && Leads(mv, next, [SwitchedRead])
  {
    var mv := Goto(next);
    mv.(readSwitch := true)
  }

  /** Taking a HelloVerifyRequest: the transcript starts again. */
  function Restart<S(==)>(mv: Move<S>): (r: Move<S>)
    requires mv.Move?
    ensures r.Move? && r.next == mv.next && (Leads(mv, mv.next, []) ==> Leads(r, mv.next, []))
  {
    mv.(took := true, restart := true)
  }

  /** Noting what a message said about client certificates. */
  function Note<S(==)>(mv: Move<S>, request: bool, peerCert: bool): (r: Move<S>)
    requires mv.Move?
    ensures r.Move? && r.next == mv.next && (Leads(mv, mv.next, []) ==> Leads(r, mv.next, []))
  {
    mv.(request := request, peerCert := peerCert)
  }

  function Fail<S(==)>(why: Why): (mv: Move<S>)
    ensures mv.Blocks()
  {
    Stop(Failed(why))
  }

  /**
   * One end: its state and what it waits for, the transcript hash as the messages hashed, the epochs, what it has
   * learnt about client certificates, and the flight not yet flushed.
   */
  datatype End<S(==)> = End(
    state: S, wait: Wait, transcript: seq<Msg>, readEpoch: nat, writeEpoch: nat,
    certRequest: bool, peerCert: bool, pending: seq<Wire>, milestones: seq<Milestone>)
  {
    /** `ssl_hash_message`; a HelloVerifyRequest is not hashed, and what was hashed before it is forgotten. */
    function Hash(m: Msg, restart: bool): End<S> {
      this.(transcript := if restart then [] else transcript + [m])
    }

    /** `add_message`: hashed, and sealed under the current keys. */
    function Add(m: Msg): End<S> {
      this.(transcript := transcript + [m], pending := pending + [Wire(writeEpoch, Message(m))])
    }

    function AddOne(o: Out, mac: Mac, server: bool): End<S> {
      match o
      case SendMessage(m) => Add(m)
      case SendCcs =>
        this.(pending := pending + [Wire(writeEpoch, Ccs)], writeEpoch := writeEpoch + 1, milestones := milestones + [SwitchedWrite])
      case SendFinished =>
        var e := Add(Msg(Finished, mac(transcript, server)));
        e.(milestones := e.milestones + [Milestone.SentFinished])
    }

    function AddAll(outs: seq<Out>, mac: Mac, server: bool): End<S>
      decreases |outs|
    {
      if outs == [] then this else AddOne(outs[0], mac, server).AddAll(outs[1..], mac, server)
    }

    function Apply(mv: Move<S>, inbox: seq<Wire>, mac: Mac, server: bool): End<S>
      requires mv.Move? && mv.took ==> inbox != [] && inbox[0].item.Message?
    {
      match mv
      case Stop(w) => this.(wait := w)
      case Move(next, w, took, restart, request, peer, readSwitch, mark, out) =>
        Prepare(mv, inbox).AddAll(out, mac, server)
    }

    /** A move up to its sends. */
    function Prepare(mv: Move<S>, inbox: seq<Wire>): End<S>
      requires mv.Move? && (mv.took ==> inbox != [] && inbox[0].item.Message?)
    {
      var e := if mv.took then Hash(inbox[0].item.msg, mv.restart) else this;
      e.(state := mv.next, wait := mv.wait, certRequest := certRequest || mv.request, peerCert := peerCert || mv.peerCert,
         readEpoch := if mv.readSwitch then readEpoch + 1 else readEpoch,
         milestones := milestones + (if mv.readSwitch then [SwitchedRead] else []) + mv.mark)
    }
  }

  lemma {:induction false} AddAllOne<S>(o: Out, mac: Mac, server: bool)
    ensures forall e: End<S> :: e.AddAll([o], mac, server) == e.AddOne(o, mac, server)
  {
    assert [o][1..] == [];
  }

  lemma {:induction false} AddAllMore<S>(o: Out, rest: seq<Out>, mac: Mac, server: bool)
    ensures forall e: End<S> :: e.AddAll([o] + rest, mac, server) == e.AddOne(o, mac, server).AddAll(rest, mac, server)
  {
    assert ([o] + rest)[1..] == rest;
  }

  /** What is left to read. */
  function After(ws: seq<Wire>, took: bool): seq<Wire> {
    if took && ws != [] then ws[1..] else ws
  }

  /** What a move leaves of the records that have arrived. */
  function AfterMove<S(==)>(ws: seq<Wire>, mv: Move<S>): seq<Wire> {
    After(ws, mv.Move? && mv.took)
  }

  /** What `get_message` finds at the head of what has arrived. */
  datatype Peeked = Nothing | BadRecord | Got(msg: Msg)

  function Peek(readEpoch: nat, inbox: seq<Wire>): (p: Peeked)
    ensures p.Got? ==> inbox != [] && inbox[0] == Wire(readEpoch, Message(p.msg))
  {
    if inbox == [] then Nothing
    else if inbox[0].item.Ccs? || inbox[0].epoch != readEpoch then BadRecord
    else Got(inbox[0].item.msg)
  }

  /** Without a message a step waits; with a record of another kind or epoch it fails. */
  function NoMessage<S(==)>(p: Peeked): (mv: Move<S>)
    ensures mv.Blocks()
  {
    if p.Nothing? then Stop(ReadMessage) else Fail(UnexpectedRecord)
  }

  /** A message of one type, hashed and taken. */
  function Expect<S(==)>(p: Peeked, typ: MsgType, ok: bool, next: S): (mv: Move<S>)
    ensures Leads(mv, next, []) && (mv.Move? ==> mv.took && p.Got? && mv == Take(next))
  {
    if !p.Got? then NoMessage(p)
    else if p.msg.typ != typ then Fail(UnexpectedMessage)
    else if !ok then Fail(Internal)
    else Take(next)
  }

  /** `ssl_get_finished`: the MAC is that of the transcript before this message. */
  function GetFinished<S(==)>(p: Peeked, expected: seq<byte>, next: S): (mv: Move<S>)
    ensures Leads(mv, next, [CheckedFinished])
    ensures mv.Move? ==> mv.took && p.Got? && p.msg == Msg(Finished, expected)
  {
    if !p.Got? then NoMessage(p)
    else if p.msg.typ != Finished then Fail(UnexpectedMessage)
    else if p.msg.body != expected then Fail(BadFinished)
    else Mark(Take(next), CheckedFinished)
  }

  // ---- What every step keeps -----------------------------------------------------------------

  function Count(ms: seq<Milestone>, x: Milestone): nat {
    if ms == [] then 0 else Count(ms[..|ms| - 1], x) + if ms[|ms| - 1] == x then 1 else 0
  }

  lemma {:induction false} CountOne(ms: seq<Milestone>, y: Milestone, x: Milestone)
    ensures Count(ms + [y], x) == Count(ms, x) + if y == x then 1 else 0
  {
    assert (ms + [y])[..|ms|] == ms;
  }

  /** Counting over what one step passes: at most two milestones. */
  lemma {:induction false} CountPassed(ms: seq<Milestone>, xs: seq<Milestone>, x: Milestone)
    requires |xs| <= 2
    ensures Count(ms + xs, x) == Count(ms, x) + (if |xs| >= 1 && xs[0] == x then 1 else 0) + (if |xs| == 2 && xs[1] == x then 1 else 0)
  {
    if |xs| == 0 {
      assert ms + xs == ms;
    } else {
      CountOne(ms, xs[0], x);
      if |xs| == 1 {
        assert ms + xs == ms + [xs[0]];
      } else {
        CountOne(ms + [xs[0]], xs[1], x);
        assert ms + xs == ms + [xs[0]] + [xs[1]];
      }
    }
  }

  /** The milestones of a list of sends. */
  function OutMilestones(outs: seq<Out>): seq<Milestone> {
    if outs == [] then []
    else (match outs[0] case SendMessage(_) => [] case SendCcs => [SwitchedWrite] case SendFinished => [Milestone.SentFinished])
         + OutMilestones(outs[1..])
  }

  function MoveMilestones<S(==)>(mv: Move<S>): seq<Milestone> {
    match mv
    case Stop(_) => []
    case Move(_, _, _, _, _, _, readSwitch, mark, out) => (if readSwitch then [SwitchedRead] else []) + mark + OutMilestones(out)
  }

  /** The epochs count the key switches. */
  predicate Sound<S(==)>(e: End<S>) {
    && e.readEpoch == Count(e.milestones, SwitchedRead) && e.writeEpoch == Count(e.milestones, SwitchedWrite)
  }

  /** A mark is one that a step notes by itself. */
  predicate PlainMark<S(==)>(mv: Move<S>) {
    mv.Move? ==> |mv.mark| <= 1 && (mv.mark == [] || (mv.mark[0] != SwitchedRead && mv.mark[0] != SwitchedWrite))
  }

  /** What a step neither sends nor takes. */
  predicate SameFrame<S>(e: End<S>, e': End<S>) {
    e'.state == e.state && e'.wait == e.wait && e'.certRequest == e.certRequest && e'.peerCert == e.peerCert
  }

  lemma {:induction false} AddOneKeeps<S>(e: End<S>, o: Out, mac: Mac, server: bool)
    requires Sound(e)
    ensures var e' := e.AddOne(o, mac, server);
            Sound(e') && SameFrame(e, e') && e'.milestones == e.milestones + OutMilestones([o])
  {
    hide Count;
    CountOne(e.milestones, SwitchedWrite, SwitchedWrite);
    CountOne(e.milestones, SwitchedWrite, SwitchedRead);
    CountOne(e.milestones, Milestone.SentFinished, SwitchedWrite);
    CountOne(e.milestones, Milestone.SentFinished, SwitchedRead);
    assert OutMilestones([]) == [] && [o][1..] == [];
  }

  lemma {:induction false} AddAllKeeps<S>(e: End<S>, outs: seq<Out>, mac: Mac, server: bool)
    requires Sound(e)
    ensures var e' := e.AddAll(outs, mac, server);
            Sound(e') && SameFrame(e, e') && e'.milestones == e.milestones + OutMilestones(outs)
    decreases |outs|
  {
    hide Sound, End.AddOne;
    if outs != [] {
      AddOneKeeps(e, outs[0], mac, server);
      assert OutMilestones([outs[0]]) + OutMilestones(outs[1..]) == OutMilestones(outs) by {
        assert [outs[0]][1..] == [];
      }
      AddAllKeeps(e.AddOne(outs[0], mac, server), outs[1..], mac, server);
    }
  }

  /** What a move up to its sends leaves. */
  predicate Prepared<S>(e: End<S>, mv: Move<S>, e': End<S>)
    requires mv.Move?
  {
    && e'.milestones == e.milestones + (if mv.readSwitch then [SwitchedRead] else []) + mv.mark
    && e'.state == mv.next && e'.wait == mv.wait
    && e'.certRequest == (e.certRequest || mv.request) && e'.peerCert == (e.peerCert || mv.peerCert)
  }

  lemma {:induction false} PrepareKeeps<S>(e: End<S>, mv: Move<S>, inbox: seq<Wire>)
    requires mv.Move? && (mv.took ==> inbox != [] && inbox[0].item.Message?)
    requires Sound(e) && PlainMark(mv)
    ensures Sound(e.Prepare(mv, inbox)) && Prepared(e, mv, e.Prepare(mv, inbox))
  {
    hide Count;
    var switched := e.milestones + if mv.readSwitch then [SwitchedRead] else [];
    CountOne(e.milestones, SwitchedRead, SwitchedRead);
    CountOne(e.milestones, SwitchedRead, SwitchedWrite);
    assert e.milestones + [] == e.milestones;
    if mv.mark == [] {
      assert switched + mv.mark == switched;
    } else {
      assert mv.mark == [mv.mark[0]];
      CountOne(switched, mv.mark[0], SwitchedRead);
      CountOne(switched, mv.mark[0], SwitchedWrite);
    }
  }

  /** A step keeps its end sound, and adds the milestones of what it decided. */
  lemma {:induction false} ApplyKeeps<S>(e: End<S>, mv: Move<S>, inbox: seq<Wire>, mac: Mac, server: bool)
    requires mv.Move? && mv.took ==> inbox != [] && inbox[0].item.Message?
    requires Sound(e) && PlainMark(mv)
    ensures var e' := e.Apply(mv, inbox, mac, server);
            && Sound(e') && e'.milestones == e.milestones + MoveMilestones(mv)
            && e'.state == (if mv.Move? then mv.next else e.state) && e'.wait == mv.wait
            && e'.certRequest == (e.certRequest || (mv.Move? && mv.request))
            && e'.peerCert == (e.peerCert || (mv.Move? && mv.peerCert))
  {
    hide Sound, PlainMark, End.AddAll, OutMilestones, End.Prepare;
    if mv.Move? {
      PrepareKeeps(e, mv, inbox);
      AddAllKeeps(e.Prepare(mv, inbox), mv.out, mac, server);
    } else {
      WaitKeeps(e, mv.wait);
      assert e.milestones + [] == e.milestones;
    }
  }

  lemma {:induction false} WaitKeeps<S>(e: End<S>, w: Wait)
    requires Sound(e)
    ensures Sound(e.(wait := w))
  {
  }

  // ---- Scripts -------------------------------------------------------------------------------

  datatype Kind = KCcs | KMessage(typ: MsgType)

  /** One record of the handshake: who sends it, under which epoch, and its kind. */
  datatype Entry = Entry(fromServer: bool, epoch: nat, kind: Kind)

  function EntryOf(fromServer: bool, w: Wire): Entry {
    Entry(fromServer, w.epoch, match w.item case Ccs => KCcs case Message(m) => KMessage(m.typ))
  }

  function Entries(fromServer: bool, ws: seq<Wire>): (es: seq<Entry>)
    ensures |es| == |ws|
  {
    seq(|ws|, k requires 0 <= k < |ws| => EntryOf(fromServer, ws[k]))
  }

  /** The records that sends make from an epoch on. */
  function OutEntries(fromServer: bool, epoch: nat, outs: seq<Out>): seq<Entry>
    decreases |outs|
  {
    if outs == [] then []
    else match outs[0]
      case SendMessage(m) => [Entry(fromServer, epoch, KMessage(m.typ))] + OutEntries(fromServer, epoch, outs[1..])
      case SendCcs => [Entry(fromServer, epoch, KCcs)] + OutEntries(fromServer, epoch + 1, outs[1..])
      case SendFinished => [Entry(fromServer, epoch, KMessage(Finished))] + OutEntries(fromServer, epoch, outs[1..])
  }

  function If<T>(present: bool, x: T): seq<T> { if present then [x] else [] }

  /** A message under the keys of an epoch. */
  function Says(fromServer: bool, epoch: nat, typ: MsgType): Entry { Entry(fromServer, epoch, KMessage(typ)) }

  lemma {:induction false} OneOut(fromServer: bool, epoch: nat, o: Out)
    ensures OutMilestones([]) == [] && OutEntries(fromServer, epoch, []) == []
    ensures o.SendMessage? ==> OutMilestones([o]) == [] && OutEntries(fromServer, epoch, [o]) == [Says(fromServer, epoch, o.msg.typ)]
    ensures o.SendFinished? ==>
              OutMilestones([o]) == [Milestone.SentFinished] && OutEntries(fromServer, epoch, [o]) == [Says(fromServer, epoch, Finished)]
  {
    assert [o][1..] == [];
  }

  lemma {:induction false} MoreOut(fromServer: bool, epoch: nat, o: Out, rest: seq<Out>)
    ensures o.SendMessage? ==>
              OutMilestones([o] + rest) == OutMilestones(rest)
              && OutEntries(fromServer, epoch, [o] + rest) == [Says(fromServer, epoch, o.msg.typ)] + OutEntries(fromServer, epoch, rest)
    ensures o.SendCcs? ==>
              OutMilestones([o] + rest) == [SwitchedWrite] + OutMilestones(rest)
              && OutEntries(fromServer, epoch, [o] + rest) == [Entry(fromServer, epoch, KCcs)] + OutEntries(fromServer, epoch + 1, rest)
  {
    assert ([o] + rest)[1..] == rest;
  }

  /**
   * The move takes and sends exactly a segment of the script; or it waits for a message that has not come, or
   * stops for a reason of this end's own.
   */
  predicate Plays<S>(mv: Move<S>, segment: seq<Entry>, server: bool, p: Peeked, readEpoch: nat, writeEpoch: nat) {
    if mv.Stop? then (mv.wait.ReadMessage? && p.Nothing?) || mv.wait.Retry? || mv.wait == Failed(Internal)
    else
      && (mv.took ==> p.Got?) && !mv.restart
      && segment == If(mv.took, Says(!server, readEpoch, if p.Got? then p.msg.typ else Finished))
                    + OutEntries(server, writeEpoch, mv.out)
  }

  /** The client's last flight, and what follows it. */
  function ClientFlight(c: Config, after: seq<Entry>): seq<Entry> {
    [Entry(false, 0, KCcs)]
    + (If(c.npn, Says(false, 1, NextProto)) + (If(c.channelId, Says(false, 1, ChannelId)) + ([Says(false, 1, Finished)] + after)))
  }

  /** The server's last flight, and what follows it. */
  function ServerFlight(c: Config, after: seq<Entry>): seq<Entry> {
    If(c.ticket, Says(true, 0, NewSessionTicket)) + ([Entry(true, 0, KCcs)] + ([Says(true, 1, Finished)] + after))
  }

  /** The server's first flight after its hello, and what follows it. */
  function ServerKeyFlight(c: Config, after: seq<Entry>): seq<Entry> {
    If(c.CertAuth(), Says(true, 0, Certificate))
    + (If(c.ocsp && c.CertAuth(), Says(true, 0, CertificateStatus))
    + (If(c.SendsSke(), Says(true, 0, ServerKeyExchange))
    + (If(c.requestsCert, Says(true, 0, CertificateRequest))
    + ([Says(true, 0, ServerHelloDone)] + after))))
  }

  /** The client's answer to it, up to its last flight, and what follows. */
  function ClientKeyFlight(c: Config, after: seq<Entry>): seq<Entry> {
    If(c.requestsCert, Says(false, 0, Certificate))
    + ([Says(false, 0, ClientKeyExchange)]
    + (If(c.requestsCert && c.hasClientCert, Says(false, 0, CertificateVerify)) + after))
  }

  /** The records of a whole handshake, full or resumed (section 7.3 of RFC 5246, section 3.1 of RFC 5077). */
  function Script(c: Config): seq<Entry> {
    [Says(false, 0, ClientHello)]
    + ([Says(true, 0, ServerHello)]
    + if c.resume then ServerFlight(c, ClientFlight(c, [])) else ServerKeyFlight(c, ClientKeyFlight(c, ClientFlight(c, ServerFlight(c, [])))))
  }

  lemma {:induction false} Regroup<T>(a: seq<T>, b: seq<T>, t: seq<T>)
    ensures a + b + t == a + (b + t)
  {
  }

  // ---- What is on its way --------------------------------------------------------------------

  /** The handshake messages among records; a ChangeCipherSpec is not hashed. */
  function Msgs(ws: seq<Wire>): seq<Msg> {
    if ws == [] then []
    else (match ws[0].item case Ccs => [] case Message(m) => [m]) + Msgs(ws[1..])
  }

  lemma {:induction false} MsgsAppend(a: seq<Wire>, b: seq<Wire>)
    ensures Msgs(a + b) == Msgs(a) + Msgs(b)
    decreases |a|
  {
    if a == [] {
      assert a + b == b;
    } else {
      assert (a + b)[1..] == a[1..] + b;
      MsgsAppend(a[1..], b);
    }
  }

  /**
   * Records an honest end made after hashing `t`: a Finished carries the MAC of everything before it, and a
   * client's certificate chain is empty exactly when it has none.
   */
  predicate Genuine(c: Config, server: bool, ws: seq<Wire>, t: seq<Msg>, mac: Mac)
    decreases |ws|
  {
    ws == [] ||
    match ws[0].item
    case Ccs => Genuine(c, server, ws[1..], t, mac)
    case Message(m) =>
      && (m.typ == Finished ==> m.body == mac(t, server))
      && (m.typ == Certificate && !server ==> (EmptyChain(m) <==> !c.hasClientCert))
      && Genuine(c, server, ws[1..], t + [m], mac)
  }

  lemma {:induction false} GenuineAppend(c: Config, server: bool, a: seq<Wire>, b: seq<Wire>, t: seq<Msg>, mac: Mac)
    requires Genuine(c, server, a, t, mac) && Genuine(c, server, b, t + Msgs(a), mac)
    ensures Genuine(c, server, a + b, t, mac)
    decreases |a|
  {
    if a == [] {
      assert a + b == b && t + Msgs(a) == t;
    } else {
      assert (a + b)[1..] == a[1..] + b;
      match a[0].item {
        case Ccs =>
          assert t + Msgs(a) == t + Msgs(a[1..]);
          GenuineAppend(c, server, a[1..], b, t, mac);
        case Message(m) =>
          assert t + Msgs(a) == (t + [m]) + Msgs(a[1..]);
          GenuineAppend(c, server, a[1..], b, t + [m], mac);
      }
    }
  }

  /** What a step may send besides the Finished it computes. */
  predicate OutsGenuine(c: Config, server: bool, outs: seq<Out>) {
    forall k :: 0 <= k < |outs| && outs[k].SendMessage? ==>
      outs[k].msg.typ != Finished && (outs[k].msg.typ == Certificate && !server ==> (EmptyChain(outs[k].msg) <==> !c.hasClientCert))
  }

  /** Between two states of an end, it has hashed and queued genuine records of the given entries and done no reading. */
  predicate Queued<S>(c: Config, e: End<S>, e': End<S>, ws: seq<Wire>, es: seq<Entry>, mac: Mac, server: bool) {
    && e'.pending == e.pending + ws && e'.transcript == e.transcript + Msgs(ws) && e'.readEpoch == e.readEpoch
    && Genuine(c, server, ws, e.transcript, mac) && Entries(server, ws) == es
  }

  lemma {:induction false} QueuedTwice<S>(c: Config, e0: End<S>, e1: End<S>, e2: End<S>, a: seq<Wire>, b: seq<Wire>,
                                          x: seq<Entry>, y: seq<Entry>, mac: Mac, server: bool)
    requires Queued(c, e0, e1, a, x, mac, server) && Queued(c, e1, e2, b, y, mac, server)
    ensures Queued(c, e0, e2, a + b, x + y, mac, server)
  {
    hide Genuine, Msgs;
    GenuineAppend(c, server, a, b, e0.transcript, mac);
    MsgsAppend(a, b);
    assert e0.transcript + Msgs(a) + Msgs(b) == e0.transcript + (Msgs(a) + Msgs(b));
  }

  function OneEntry(o: Out, epoch: nat, server: bool): Entry {
    match o
    case SendMessage(m) => Says(server, epoch, m.typ)
    case SendCcs => Entry(server, epoch, KCcs)
    case SendFinished => Says(server, epoch, Finished)
  }

  lemma {:induction false} AddOneSends<S>(c: Config, e: End<S>, o: Out, mac: Mac, server: bool)
    requires OutsGenuine(c, server, [o])
    ensures exists w :: Queued(c, e, e.AddOne(o, mac, server), [w], [OneEntry(o, e.writeEpoch, server)], mac, server)
  {
    var e' := e.AddOne(o, mac, server);
    assert [o][0] == o;
    var w := e'.pending[|e.pending|];
    assert [w][1..] == [] && Msgs([]) == [];
    assert e'.pending == e.pending + [w];
    if w.item.Ccs? {
      assert Msgs([w]) == [] && e.transcript + [] == e.transcript;
      assert Genuine(c, server, [w], e.transcript, mac);
    } else {
      assert Msgs([w]) == [w.item.msg];
      assert Genuine(c, server, [], e.transcript + [w.item.msg], mac);
      assert Genuine(c, server, [w], e.transcript, mac);
    }
    assert Queued(c, e, e', [w], [OneEntry(o, e.writeEpoch, server)], mac, server);
  }

  /** Sending queues genuine records of the entries announced, and hashes exactly their messages. */
  lemma {:induction false} AddAllSends<S>(c: Config, e: End<S>, outs: seq<Out>, mac: Mac, server: bool) returns (ws: seq<Wire>)
    requires OutsGenuine(c, server, outs)
    ensures Queued(c, e, e.AddAll(outs, mac, server), ws, OutEntries(server, e.writeEpoch, outs), mac, server)
    decreases |outs|
  {
    if outs == [] {
      ws := [];
      QueuedNothing(c, e, mac, server);
    } else {
      hide Queued, End.AddOne;
      var e1 := e.AddOne(outs[0], mac, server);
      assert OutsGenuine(c, server, [outs[0]]) by { assert [outs[0]][0] == outs[0]; }
      AddOneSends(c, e, outs[0], mac, server);
      AddOneEpoch(e, outs[0], mac, server);
      var w :| Queued(c, e, e1, [w], [OneEntry(outs[0], e.writeEpoch, server)], mac, server);
      var rest := AddAllSends(c, e1, outs[1..], mac, server);
      ws := [w] + rest;
      QueuedTwice(c, e, e1, e1.AddAll(outs[1..], mac, server), [w], rest, [OneEntry(outs[0], e.writeEpoch, server)],
                  OutEntries(server, e1.writeEpoch, outs[1..]), mac, server);
    }
  }

  lemma {:induction false} AddOneEpoch<S>(e: End<S>, o: Out, mac: Mac, server: bool)
    ensures e.AddOne(o, mac, server).writeEpoch == if o.SendCcs? then e.writeEpoch + 1 else e.writeEpoch
  {
  }

  lemma {:induction false} QueuedNothing<S>(c: Config, e: End<S>, mac: Mac, server: bool)
    ensures Queued(c, e, e, [], [], mac, server)
  {
    assert e.pending + [] == e.pending && e.transcript + [] == e.transcript;
  }

  // ---- What is hashed, and which Finished messages are ------------------------------------------

  /** What has been added at the end of a list. */
  function Added<T>(before: seq<T>, after: seq<T>): seq<T> {
    if |before| <= |after| then after[|before|..] else []
  }

  /** The messages queued have been hashed after `t`, in order. */
  predicate HashedQueued(t: seq<Msg>, pending: seq<Wire>, t': seq<Msg>, pending': seq<Wire>) {
    pending <= pending' && t' == t + Msgs(Added(pending, pending'))
  }

  lemma {:induction false} HashedTwice(t: seq<Msg>, p: seq<Wire>, t1: seq<Msg>, p1: seq<Wire>, t2: seq<Msg>, p2: seq<Wire>)
    requires HashedQueued(t, p, t1, p1) && HashedQueued(t1, p1, t2, p2)
    ensures HashedQueued(t, p, t2, p2)
  {
    hide Msgs;
    assert Added(p, p2) == Added(p, p1) + Added(p1, p2);
    MsgsAppend(Added(p, p1), Added(p1, p2));
  }

  lemma {:induction false} NothingQueued(t: seq<Msg>, p: seq<Wire>)
    ensures HashedQueued(t, p, t, p)
  {
    assert Added(p, p) == [] && t + [] == t;
  }

  lemma {:induction false} AddAllHashes<S>(e: End<S>, outs: seq<Out>, mac: Mac, server: bool)
    ensures var e' := e.AddAll(outs, mac, server);
            HashedQueued(e.transcript, e.pending, e'.transcript, e'.pending)
    decreases |outs|
  {
    hide End.AddOne, HashedQueued;
    if outs == [] {
      NothingQueued(e.transcript, e.pending);
    } else {
      var e1 := e.AddOne(outs[0], mac, server);
      var e' := e1.AddAll(outs[1..], mac, server);
      AddOneHashes(e, outs[0], mac, server);
      AddAllHashes(e1, outs[1..], mac, server);
      HashedTwice(e.transcript, e.pending, e1.transcript, e1.pending, e'.transcript, e'.pending);
    }
  }

  lemma {:induction false} AddOneHashes<S>(e: End<S>, o: Out, mac: Mac, server: bool)
    ensures var e' := e.AddOne(o, mac, server);
            HashedQueued(e.transcript, e.pending, e'.transcript, e'.pending)
  {
    var e' := e.AddOne(o, mac, server);
    var w := e'.pending[|e.pending|];
    assert Added(e.pending, e'.pending) == [w] && [w][1..] == [];
    assert Msgs([w]) == MsgOf(w) + [];
    assert e.transcript + [] == e.transcript;
  }

  /** A step hashes the message it takes and those it queues, in this order; after a HelloVerifyRequest only the latter. */
  lemma {:induction false} ApplyHashes<S>(e: End<S>, mv: Move<S>, inbox: seq<Wire>, mac: Mac, server: bool)
    requires mv.Move? && mv.took ==> inbox != [] && inbox[0].item.Message?
    ensures var e' := e.Apply(mv, inbox, mac, server);
            var took := mv.Move? && mv.took;
            HashedQueued(if took && mv.restart then [] else if took then e.transcript + [inbox[0].item.msg] else e.transcript,
                         e.pending, e'.transcript, e'.pending)
  {
    hide HashedQueued, End.AddAll;
    if mv.Move? { AddAllHashes(e.Prepare(mv, inbox), mv.out, mac, server); } else { NothingQueued(e.transcript, e.pending); }
  }

  /** The roles under which the Finished messages of a run were made: this end's when sent, the other's when checked. */
  function Roles(ms: seq<Milestone>, server: bool): seq<bool> {
    if ms == [] then []
    else
      Roles(ms[..|ms| - 1], server)
      + (match ms[|ms| - 1] case SentFinished => [server] case CheckedFinished => [!server] case _ => [])
  }

  lemma {:induction false} RolesOne(ms: seq<Milestone>, x: Milestone, server: bool)
    ensures Roles(ms + [x], server)
         == Roles(ms, server) + (match x case SentFinished => [server] case CheckedFinished => [!server] case _ => [])
  {
    assert (ms + [x])[..|ms|] == ms;
  }

  /** The Finished messages of a transcript, in order, carry the MACs of what precedes them under these roles. */
  predicate Finishes(t: seq<Msg>, roles: seq<bool>, mac: Mac)
    decreases |t|
  {
    if t == [] then roles == []
    else
      var m, before := t[|t| - 1], t[..|t| - 1];
      if m.typ != Finished then Finishes(before, roles, mac)
      else roles != [] && m.body == mac(before, roles[|roles| - 1]) && Finishes(before, roles[..|roles| - 1], mac)
  }

  lemma {:induction false} FinishesMore(t: seq<Msg>, roles: seq<bool>, m: Msg, role: bool, mac: Mac)
    requires Finishes(t, roles, mac) && (m.typ == Finished ==> m.body == mac(t, role))
    ensures Finishes(t + [m], if m.typ == Finished then roles + [role] else roles, mac)
  {
    assert (t + [m])[..|t|] == t && (roles + [role])[..|roles|] == roles;
  }

  /** Every Finished of the transcript is one this end sent or checked, with its MAC. */
  predicate Checked<S(==)>(e: End<S>, mac: Mac, server: bool) {
    Finishes(e.transcript, Roles(e.milestones, server), mac)
  }

  lemma {:induction false} AddAllChecked<S>(e: End<S>, outs: seq<Out>, mac: Mac, server: bool)
    requires Checked(e, mac, server) && forall k :: 0 <= k < |outs| && outs[k].SendMessage? ==> outs[k].msg.typ != Finished
    ensures Checked(e.AddAll(outs, mac, server), mac, server)
    decreases |outs|
  {
    hide Roles, Finishes;
    if outs != [] {
      RolesOne(e.milestones, SwitchedWrite, server);
      RolesOne(e.milestones, Milestone.SentFinished, server);
      assert Roles(e.milestones, server) + [] == Roles(e.milestones, server);
      if outs[0].SendMessage? { FinishesMore(e.transcript, Roles(e.milestones, server), outs[0].msg, server, mac); }
      if outs[0].SendFinished? {
        FinishesMore(e.transcript, Roles(e.milestones, server), Msg(Finished, mac(e.transcript, server)), server, mac);
      }
      AddAllChecked(e.AddOne(outs[0], mac, server), outs[1..], mac, server);
    }
  }

  /** A Finished is taken only with the other end's MAC, and just then noted as checked; none is sent but the one computed. */
  predicate Checks<S(==)>(mv: Move<S>, p: Peeked, expected: seq<byte>) {
    mv.Move? ==>
      && (mv.mark == [] || (|mv.mark| == 1 && !mv.mark[0].SentFinished?))
      && (CheckedFinished in mv.mark <==> mv.took && p.Got? && p.msg.typ == Finished)
      && (CheckedFinished in mv.mark ==> p.Got? && p.msg.body == expected && !mv.restart)
      && (forall k :: 0 <= k < |mv.out| && mv.out[k].SendMessage? ==> mv.out[k].msg.typ != Finished)
  }

  lemma {:induction false} PrepareChecked<S>(e: End<S>, mv: Move<S>, inbox: seq<Wire>, mac: Mac, server: bool)
    requires mv.Move? && (mv.took ==> Peek(e.readEpoch, inbox).Got?)
    requires Checked(e, mac, server) && Checks(mv, Peek(e.readEpoch, inbox), mac(e.transcript, !server))
    requires mv.took && mv.restart ==> Roles(e.milestones, server) == []
    ensures Checked(e.Prepare(mv, inbox), mac, server)
  {
    hide Roles, Finishes, Peek;
    var roles := Roles(e.milestones, server);
    var switched := e.milestones + if mv.readSwitch then [SwitchedRead] else [];
    RolesOne(e.milestones, SwitchedRead, server);
    assert e.milestones + [] == e.milestones && roles + [] == roles;
    if mv.mark == [] {
      assert switched + mv.mark == switched;
    } else {
      RolesOne(switched, mv.mark[0], server);
      assert mv.mark == [mv.mark[0]];
    }
    PeekedHead(e.readEpoch, inbox);
    if mv.took { FinishesMore(e.transcript, roles, inbox[0].item.msg, !server, mac); }
    NoneFinished(mac);
  }

  lemma {:induction false} ApplyChecked<S>(e: End<S>, mv: Move<S>, inbox: seq<Wire>, mac: Mac, server: bool)
    requires mv.Move? && mv.took ==> Peek(e.readEpoch, inbox).Got?
    requires Checked(e, mac, server) && Checks(mv, Peek(e.readEpoch, inbox), mac(e.transcript, !server))
    requires mv.Move? && mv.took && mv.restart ==> Roles(e.milestones, server) == []
    ensures Checked(e.Apply(mv, inbox, mac, server), mac, server)
  {
    hide Roles, Finishes, Peek, End.Prepare, End.AddAll;
    if mv.Move? {
      PrepareChecked(e, mv, inbox, mac, server);
      AddAllChecked(e.Prepare(mv, inbox), mv.out, mac, server);
    }
  }

  lemma {:induction false} PeekedHead(epoch: nat, inbox: seq<Wire>)
    ensures Peek(epoch, inbox).Got? ==> inbox != [] && inbox[0].item == Message(Peek(epoch, inbox).msg)
  {
  }

  lemma {:induction false} NoneFinished(mac: Mac)
    ensures Finishes([], [], mac)
  {
  }

  // ---- Between the steps ---------------------------------------------------------------------

  /** What resolving a wait does: the end after it, whether it took the record at the head, and what it flushed. */
  datatype Resumed<S(==)> = Resumed(end: End<S>, took: bool, flushed: seq<Wire>)

  /**
   * The switch of `ssl_run_handshake`: flush the flight, wait for a record to arrive, or read the
   * ChangeCipherSpec; the other waits end when the handshake is called again. A failure is final.
   */
  function Resume<S(==)>(e: End<S>, inbox: seq<Wire>, bioOk: bool): Resumed<S> {
    match e.wait
    case Failed(_) => Resumed(e, false, [])
    case Flush => if bioOk then Resumed(e.(pending := [], wait := Ok), false, e.pending) else Resumed(e, false, [])
    case ReadMessage => Resumed(if inbox == [] then e else e.(wait := Ok), false, [])
    case ReadCcs =>
      if inbox == [] then Resumed(e, false, [])
      else if inbox[0] == Wire(e.readEpoch, Ccs) then Resumed(e.(wait := Ok), true, [])
      else Resumed(e.(wait := Failed(UnexpectedRecord)), false, [])
    case _ => Resumed(e.(wait := Ok), false, [])
  }

  /** How `ssl_run_handshake` returns: done, early, to be called again, or failed. */
  datatype Outcome = Complete | Early | Blocked | Error

  /** The waits on which `ssl_run_handshake` returns at once, and what it leaves to wait for. */
  function Returns<S(==)>(e: End<S>, inbox: seq<Wire>, flushOk: bool): Option<(Wait, Outcome)> {
    match e.wait
    case Failed(_) => Some((e.wait, Error))
    case Flush => if flushOk then None else Some((Flush, Blocked))
    case ReadMessage => if inbox == [] then Some((ReadMessage, Blocked)) else None
    case ReadCcs =>
      if inbox == [] then Some((ReadCcs, Blocked))
      else if inbox[0] == Wire(e.readEpoch, Ccs) then None
      else Some((Failed(UnexpectedRecord), Error))
    case Retry => Some((Ok, Blocked))
    case EarlyReturn => Some((Ok, Early))
    case Ok => None
  }

  /** How far a wait is from ending the call. */
  function Weight(w: Wait): nat {
    match w
    case Ok => 2
    case Flush => 2
    case ReadCcs => 2
    case ReadMessage => 1
    case _ => 0
  }

  // ---- One end ahead of the other ------------------------------------------------------------

  /**
   * The end that is ahead has sent `fly`, which the other has not taken: the rest of the script and the transcript
   * of the one are those of the other with `fly` put between, and `fly` is genuine.
   */
  predicate Ahead(c: Config, server: bool, fly: seq<Wire>, aheadRest: seq<Entry>, behindRest: seq<Entry>,
                  aheadT: seq<Msg>, behindT: seq<Msg>, mac: Mac)
  {
    behindRest == Entries(server, fly) + aheadRest && aheadT == behindT + Msgs(fly) && Genuine(c, server, fly, behindT, mac)
  }

  lemma {:induction false} AheadSends(c: Config, server: bool, fly: seq<Wire>, aheadRest: seq<Entry>, behindRest: seq<Entry>,
                                      aheadT: seq<Msg>, behindT: seq<Msg>, mac: Mac, ws: seq<Wire>, aheadRest': seq<Entry>)
    requires Ahead(c, server, fly, aheadRest, behindRest, aheadT, behindT, mac)
    requires aheadRest == Entries(server, ws) + aheadRest' && Genuine(c, server, ws, aheadT, mac)
    ensures Ahead(c, server, fly + ws, aheadRest', behindRest, aheadT + Msgs(ws), behindT, mac)
  {
    hide Genuine, Msgs;
    MsgsAppend(fly, ws);
    GenuineAppend(c, server, fly, ws, behindT, mac);
    assert Entries(server, fly + ws) == Entries(server, fly) + Entries(server, ws);
  }

  /** The message of a record, if it carries one. */
  function MsgOf(w: Wire): seq<Msg> { match w.item case Ccs => [] case Message(m) => [m] }

  lemma {:induction false} BehindTakes(c: Config, server: bool, fly: seq<Wire>, aheadRest: seq<Entry>, behindRest: seq<Entry>,
                                       aheadT: seq<Msg>, behindT: seq<Msg>, mac: Mac)
    requires Ahead(c, server, fly, aheadRest, behindRest, aheadT, behindT, mac) && fly != []
    ensures behindRest != [] && behindRest[0] == EntryOf(server, fly[0])
    ensures Ahead(c, server, fly[1..], aheadRest, behindRest[1..], aheadT, behindT + MsgOf(fly[0]), mac)
    ensures fly[0].item.Message? && fly[0].item.msg.typ == Finished ==> fly[0].item.msg.body == mac(behindT, server)
    ensures fly[0].item.Message? && fly[0].item.msg.typ == Certificate && !server ==> (EmptyChain(fly[0].item.msg) <==> !c.hasClientCert)
  {
    assert Entries(server, fly) == [EntryOf(server, fly[0])] + Entries(server, fly[1..]);
    assert behindRest[1..] == Entries(server, fly[1..]) + aheadRest;
    assert aheadT == (behindT + MsgOf(fly[0])) + Msgs(fly[1..]);
    if fly[0].item.Ccs? { assert behindT + [] == behindT; }
  }

  lemma {:induction false} NothingSent(c: Config, server: bool, t: seq<Msg>, mac: Mac)
    ensures Msgs([]) == [] && Genuine(c, server, [], t, mac)
  {
  }

  /** An end whose next record is the other's has nothing to send before it. */
  lemma {:induction false} NothingFirst(server: bool, ws: seq<Wire>, rest: seq<Entry>)
    requires Entries(server, ws) + rest != [] && (Entries(server, ws) + rest)[0].fromServer != server
    ensures ws == []
  {
    assert |Entries(server, ws)| == |ws|;
  }
}

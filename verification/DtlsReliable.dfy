/** A DTLS receiver fed by an honest sender over a network that loses, repeats and reorders. */
module DtlsReliable {
  import opened Common
  import opened DtlsFragment
  import opened DtlsReceive

  /** A fragment is a part of message number `k`. */
  predicate IsSlice(f: Fragment, m: Message, k: nat) {
    f.hdr.fragOff + |f.body| <= |m.body| && f == m.Slice(k, f.hdr.fragOff, |f.body|)
  }

  /** A fragment an honest sender may have emitted for the messages `ms`. */
  predicate Honest(f: Fragment, ms: seq<Message>) {
    exists k :: 0 <= k < |ms| && IsSlice(f, ms[k], k)
  }

  predicate Sized(ms: seq<Message>) {
    forall k :: 0 <= k < |ms| ==> |ms[k].body| < 0x100_0000
  }

  /** What the messages `ms` look like to the handshake layer of either end. */
  function Raws(ms: seq<Message>): (r: seq<seq<byte>>)
    ensures |r| == |ms|
  {
    seq(|ms|, k requires 0 <= k < |ms| => ms[k].Raw(k))
  }

  predicate IsPrefix<T(==)>(a: seq<T>, b: seq<T>) {
    |a| <= |b| && a == b[..|a|]
  }

  // ---- The reassembled bytes are the sender's ------------------------------------------------

  /** A partial message holds only bytes of the message it stands for. */
  predicate Agrees(h: Hm, m: Message, k: nat) {
    && h.Valid() && h.typ == m.typ && |h.got| == |m.body| && h.seqNum == k % TWO16
    && forall i :: 0 <= i < |h.got| && h.got[i] ==> h.raw[DTLS1_HM_HEADER_LENGTH + i] == m.body[i]
  }

  lemma {:induction false} CompleteIsRaw(h: Hm, m: Message, k: nat)
    requires Agrees(h, m, k) && h.Complete()
    ensures h.raw == m.Raw(k)
  {
    var raw := m.Raw(k);
    assert raw[..DTLS1_HM_HEADER_LENGTH] == h.raw[..DTLS1_HM_HEADER_LENGTH];
    forall i | 0 <= i < |h.raw| ensures h.raw[i] == raw[i] {
      if i < DTLS1_HM_HEADER_LENGTH {
        assert h.raw[i] == h.raw[..DTLS1_HM_HEADER_LENGTH][i] && raw[i] == raw[..DTLS1_HM_HEADER_LENGTH][i];
      } else {
        assert h.got[i - DTLS1_HM_HEADER_LENGTH];
      }
    }
  }

  lemma {:induction false} AbsorbAgrees(h: Hm, f: Fragment, m: Message, k: nat)
    requires Agrees(h, m, k) && IsSlice(f, m, k)
    ensures Agrees(Absorb(h, f), m, k)
  {
    hide Header.Bytes;
    if !h.Complete() {
      var h' := Received(h, f.hdr.fragOff, f.body);
      ReceivedValid(h, f.hdr.fragOff, f.body);
      forall i | 0 <= i < |h'.got| && h'.got[i] ensures h'.raw[DTLS1_HM_HEADER_LENGTH + i] == m.body[i] {
        assert h'.raw[DTLS1_HM_HEADER_LENGTH + i] == h'.raw[DTLS1_HM_HEADER_LENGTH..][i];
        assert h.raw[DTLS1_HM_HEADER_LENGTH + i] == h.raw[DTLS1_HM_HEADER_LENGTH..][i];
      }
    }
  }

  // ---- The receiver's state ------------------------------------------------------------------

  /** The receiver has released `n` messages and holds parts of messages of `ms` only. */
  predicate Follows(r: Receiver, ms: seq<Message>, n: nat) {
    && r.InWindow() && r.readSeq == n <= |ms| < TWO16
    && forall i :: 0 <= i < |r.ring| && r.ring[i].Some? ==>
         r.ring[i].value.seqNum < |ms| && Agrees(r.ring[i].value, ms[r.ring[i].value.seqNum], r.ring[i].value.seqNum)
  }

  lemma {:induction false} NewAgrees(h: Header, junk: nat -> byte, m: Message, k: nat)
    requires h.Fits() && h.typ == m.typ && h.msgLen == |m.body| && h.seqNum == k % TWO16
    ensures Agrees(NewHm(h, junk), m, k)
  {
    NewHmValid(h, junk);
  }

  lemma {:induction false} SlotFollows(r: Receiver, h: Hm, ms: seq<Message>, n: nat, k: nat)
    requires Follows(r, ms, n) && k < |ms| && n <= k < n + SSL_MAX_HANDSHAKE_FLIGHT && Agrees(h, ms[k], k)
    ensures Follows(r.(ring := r.ring[k % SSL_MAX_HANDSHAKE_FLIGHT := Some(h)]), ms, n)
  {
    hide Hm.Valid;
    assert h.seqNum == k;
  }

  /** A slot within the window holds the message of the window it is for. */
  lemma {:induction false} SlotAgrees(r: Receiver, ms: seq<Message>, n: nat, k: nat)
    requires Follows(r, ms, n) && n <= k < n + SSL_MAX_HANDSHAKE_FLIGHT && r.ring[k % SSL_MAX_HANDSHAKE_FLIGHT].Some?
    ensures k < |ms| && Agrees(r.ring[k % SSL_MAX_HANDSHAKE_FLIGHT].value, ms[k], k)
  {
    hide Agrees, Hm.Valid;
    assert r.ring[k % SSL_MAX_HANDSHAKE_FLIGHT].value.seqNum == k;
  }

  lemma {:induction false} AcceptFollows(r: Receiver, f: Fragment, env: Env, ms: seq<Message>, n: nat)
    requires Follows(r, ms, n) && Sized(ms) && Honest(f, ms) && f.Fits()
    ensures Follows(Accept(r, f, env).0, ms, n)
  {
    hide Header.Bytes, Received, Hm.Complete, NewHm, Marked, Hm.Valid, Absorb, Agrees;
    var k :| 0 <= k < |ms| && IsSlice(f, ms[k], k);
    var i := f.hdr.seqNum % SSL_MAX_HANDSHAKE_FLIGHT;
    NewAgrees(f.hdr, env.junk, ms[k], k);
    var h := if r.ring[i].Some? then r.ring[i].value else NewHm(f.hdr, env.junk);
    if Accept(r, f, env).0 != r {
      if r.ring[i].Some? { SlotAgrees(r, ms, n, k); }
      AbsorbAgrees(h, f, ms[k], k);
      SlotFollows(r, Absorb(h, f), ms, n, k);
    }
  }

  /** A record's text made of honest fragments. */
  function Concat(fs: seq<Fragment>): seq<byte> {
    if fs == [] then [] else fs[0].Bytes() + Concat(fs[1..])
  }

  predicate AllHonest(fs: seq<Fragment>, ms: seq<Message>) {
    forall i :: 0 <= i < |fs| ==> Honest(fs[i], ms)
  }

  lemma {:induction false} HonestFits(f: Fragment, ms: seq<Message>)
    requires Honest(f, ms) && Sized(ms)
    ensures f.Fits()
  {
  }

  lemma {:induction false} RecordFollows(r: Receiver, fs: seq<Fragment>, env: Env, ms: seq<Message>, n: nat)
    requires Follows(r, ms, n) && Sized(ms) && AllHonest(fs, ms)
    ensures Follows(AcceptRecord(r, Concat(fs), env).0, ms, n)
    decreases |fs|
  {
    hide Accept, ParseFragment, Fragment.Bytes;
    if fs != [] {
      var f := fs[0];
      HonestFits(f, ms);
      ParseRoundTrip(f, Concat(fs[1..]));
      AcceptFollows(r, f, env, ms, n);
      AcceptShape(r, f, env);
      assert AllHonest(fs[1..], ms);
      if Accept(r, f, env).1.None? { RecordFollows(Accept(r, f, env).0, fs[1..], env, ms, n); }
    }
  }

  /** The next message released is the sender's next one, and the receiver goes on with the one after it. */
  lemma {:induction false} ReleaseFollows(r: Receiver, ms: seq<Message>, n: nat)
    requires Follows(r, ms, n) && r.CurrentComplete()
    ensures n < |ms| && r.Current().value.raw == ms[n].Raw(n)
    ensures n + 1 < TWO16 && Follows(Next(r), ms, n + 1)
  {
    var h := r.Current().value;
    assert h.seqNum == n;
    CompleteIsRaw(h, ms[n], n);
    NextKeepsWindow(r);
  }

  // ---- Every schedule ------------------------------------------------------------------------

  /** What can happen to a receiver: a record of fragments arrives, or the handshake takes a message. */
  datatype Event = Deliver(fs: seq<Fragment>, env: Env) | Release

  datatype Run = Run(receiver: Receiver, released: seq<seq<byte>>)

  function React(s: Run, e: Event): (s': Run)
    requires s.receiver.Shape()
    ensures s'.receiver.Shape()
  {
    match e
    case Deliver(fs, env) => s.(receiver := AcceptRecord(s.receiver, Concat(fs), env).0)
    case Release =>
      if s.receiver.CurrentComplete()
      then Run(Next(s.receiver), s.released + [s.receiver.Current().value.raw])
      else s
  }

  function ReactAll(s: Run, es: seq<Event>): (s': Run)
    requires s.receiver.Shape()
    ensures s'.receiver.Shape()
    decreases |es|
  {
    if es == [] then s else ReactAll(React(s, es[0]), es[1..])
  }

  const EmptyRing: seq<Option<Hm>> := [None, None, None, None, None, None, None]
  const Start: Run := Run(Receiver(0, EmptyRing), [])

  predicate HonestEvents(es: seq<Event>, ms: seq<Message>, room: nat) {
    forall i :: 0 <= i < |es| && es[i].Deliver? ==> AllHonest(es[i].fs, ms) && |Concat(es[i].fs)| <= room
  }

  lemma {:induction false} ScheduleSafe(s: Run, es: seq<Event>, ms: seq<Message>, room: nat)
    requires Follows(s.receiver, ms, |s.released|) && s.released == Raws(ms)[..|s.released|]
    requires Sized(ms) && HonestEvents(es, ms, room)
    ensures IsPrefix(ReactAll(s, es).released, Raws(ms))
    decreases |es|
  {
    if es != [] {
      var e, s' := es[0], React(s, es[0]);
      match e {
        case Deliver(fs, env) => RecordFollows(s.receiver, fs, env, ms, |s.released|);
        case Release =>
          if s.receiver.CurrentComplete() { ReleaseFollows(s.receiver, ms, |s.released|); }
      }
      assert HonestEvents(es[1..], ms, room) by {
        forall i | 0 <= i < |es[1..]| && es[1..][i].Deliver?
          ensures AllHonest(es[1..][i].fs, ms) && |Concat(es[1..][i].fs)| <= room
        {
          assert es[1..][i] == es[i + 1];
        }
      }
      ScheduleSafe(s', es[1..], ms, room);
    }
  }

  // ---- Whatever covers a message delivers it -------------------------------------------------

  /** The fragment carries byte `j` of message `n`. */
  predicate Carries(f: Fragment, n: nat, j: nat) {
    f.hdr.seqNum == n && f.hdr.fragOff <= j < f.hdr.fragOff + |f.body|
  }

  predicate Covered(fs: seq<Fragment>, n: nat, j: nat) {
    exists x :: 0 <= x < |fs| && Carries(fs[x], n, j)
  }

  /** There is a fragment of message `n`: all that an empty message takes. */
  predicate Begun(fs: seq<Fragment>, n: nat) {
    exists x :: 0 <= x < |fs| && fs[x].hdr.seqNum == n
  }

  /**
   * A reader that waits for message `n` does not fail over the fragment: it is not too long for it, not seven ahead,
   * and in epoch 1 it is of message `n`.
   */
  predicate Harmless(f: Fragment, env: Env, n: nat) {
    && f.hdr.msgLen <= env.maxLen && f.hdr.seqNum != n + SSL_MAX_HANDSHAKE_FLIGHT
    && (env.readEpoch == 1 ==> f.hdr.seqNum == n)
  }

  predicate AllHarmless(fs: seq<Fragment>, env: Env, n: nat) {
    forall x :: 0 <= x < |fs| ==> Harmless(fs[x], env, n)
  }

  /** The receiver has byte `j` of the message it waits for. */
  predicate Has(r: Receiver, j: nat)
    requires r.Shape()
  {
    r.Current().Some? && j < |r.Current().value.got| && r.Current().value.got[j]
  }

  /** Of the message it waits for the receiver has just gained what the fragments carry. */
  ghost predicate Gains(r: Receiver, fs: seq<Fragment>, r': Receiver)
    requires r.Shape() && r'.Shape()
  {
    && r'.readSeq == r.readSeq
    && (r'.Current().Some? <==> r.Current().Some? || Begun(fs, r.readSeq))
    && forall j: nat :: Has(r', j) <==> Has(r, j) || Covered(fs, r.readSeq, j)
  }

  lemma {:induction false} GainsNothing(r: Receiver)
    requires r.Shape()
    ensures Gains(r, [], r)
  {
  }

  lemma {:induction false} GainsMore(r: Receiver, a: seq<Fragment>, r1: Receiver, b: seq<Fragment>, r2: Receiver)
    requires r.Shape() && r1.Shape() && r2.Shape() && Gains(r, a, r1) && Gains(r1, b, r2)
    ensures Gains(r, a + b, r2)
  {
    var n, ab := r.readSeq, a + b;
    assert Begun(ab, n) <==> Begun(a, n) || Begun(b, n) by {
      if Begun(a, n) { var x :| 0 <= x < |a| && a[x].hdr.seqNum == n; assert ab[x] == a[x]; }
      if Begun(b, n) { var x :| 0 <= x < |b| && b[x].hdr.seqNum == n; assert ab[|a| + x] == b[x]; }
    }
    forall j: nat ensures Covered(ab, n, j) <==> Covered(a, n, j) || Covered(b, n, j) {
      if Covered(a, n, j) { var x :| 0 <= x < |a| && Carries(a[x], n, j); assert ab[x] == a[x]; }
      if Covered(b, n, j) { var x :| 0 <= x < |b| && Carries(b[x], n, j); assert ab[|a| + x] == b[x]; }
    }
  }

  /** What accepting a harmless honest fragment does: it is outside the window, or its slot absorbs it. */
  lemma {:induction false} AcceptHonest(r: Receiver, f: Fragment, env: Env, ms: seq<Message>) returns (h: Hm)
    requires Follows(r, ms, r.readSeq) && Sized(ms) && Honest(f, ms) && f.Fits() && Harmless(f, env, r.readSeq)
    ensures var n, k := r.readSeq, f.hdr.seqNum;
            var i := k % SSL_MAX_HANDSHAKE_FLIGHT;
            if n <= k < n + SSL_MAX_HANDSHAKE_FLIGHT then
              && h.Valid() && f.hdr.fragOff + |f.body| <= |h.got|
              && Accept(r, f, env) == (r.(ring := r.ring[i := Some(Absorb(h, f))]), None)
              && (if r.ring[i].Some? then h == r.ring[i].value else forall j :: 0 <= j < |h.got| ==> !h.got[j])
            else Accept(r, f, env) == (r, None)
  {
    hide Header.Bytes, NewHm, Hm.Valid, Absorb, Hm.Complete;
    var k :| 0 <= k < |ms| && IsSlice(f, ms[k], k);
    var i := k % SSL_MAX_HANDSHAKE_FLIGHT;
    NewAgrees(f.hdr, env.junk, ms[k], k);
    NewIsEmpty(f.hdr, env.junk);
    h := if r.ring[i].Some? then r.ring[i].value else NewHm(f.hdr, env.junk);
    if r.readSeq <= k < r.readSeq + SSL_MAX_HANDSHAKE_FLIGHT { assert h.seqNum == k; }
  }

  lemma {:induction false} AcceptGains(r: Receiver, f: Fragment, env: Env, ms: seq<Message>)
    requires Follows(r, ms, r.readSeq) && Sized(ms) && Honest(f, ms) && f.Fits() && Harmless(f, env, r.readSeq)
    ensures var a := Accept(r, f, env);
            a.1.None? && a.0.Shape() && Gains(r, [f], a.0)
  {
    var h := AcceptHonest(r, f, env, ms);
    AcceptShape(r, f, env);
    hide Follows, Honest, Accept, Absorb, Hm.Valid, Harmless, Gains, Fragment.Fits;
    var n, a := r.readSeq, Accept(r, f, env);
    if f.hdr.seqNum == n {
      AbsorbGot(h, f);
      CurrentGains(r, f, h, a.0);
    } else {
      OtherGains(r, f, a.0);
    }
  }

  lemma {:induction false} OneFragment(f: Fragment, n: nat)
    ensures Begun([f], n) <==> f.hdr.seqNum == n
    ensures forall j: nat :: Covered([f], n, j) <==> Carries(f, n, j)
  {
    assert [f][0] == f;
  }

  lemma {:induction false} CurrentGains(r: Receiver, f: Fragment, h: Hm, r': Receiver)
    requires r.Shape() && r'.Shape() && r'.readSeq == r.readSeq == f.hdr.seqNum
    requires if r.Current().Some? then h == r.Current().value else forall j :: 0 <= j < |h.got| ==> !h.got[j]
    requires r'.Current().Some? && |r'.Current().value.got| == |h.got| && f.hdr.fragOff + |f.body| <= |h.got|
    requires forall j :: 0 <= j < |h.got| ==>
               (r'.Current().value.got[j] <==> h.got[j] || f.hdr.fragOff <= j < f.hdr.fragOff + |f.body|)
    ensures Gains(r, [f], r')
  {
    hide Receiver.Shape, Receiver.Current, Covered, Begun;
    OneFragment(f, r.readSeq);
  }

  lemma {:induction false} OtherGains(r: Receiver, f: Fragment, r': Receiver)
    requires r.Shape() && r'.Shape() && r'.readSeq == r.readSeq != f.hdr.seqNum && r'.Current() == r.Current()
    ensures Gains(r, [f], r')
  {
    hide Receiver.Shape, Receiver.Current, Covered, Begun;
    OneFragment(f, r.readSeq);
  }

  lemma {:induction false} NewIsEmpty(h: Header, junk: nat -> byte)
    ensures forall j :: 0 <= j < |NewHm(h, junk).got| ==> !NewHm(h, junk).got[j]
  {
  }

  /** Absorbing a fragment gains just its bytes; a complete message has them already. */
  lemma {:induction false} AbsorbGot(h: Hm, f: Fragment)
    requires h.Valid() && f.hdr.fragOff + |f.body| <= |h.got|
    ensures |Absorb(h, f).got| == |h.got|
    ensures forall j :: 0 <= j < |h.got| ==> (Absorb(h, f).got[j] <==> h.got[j] || f.hdr.fragOff <= j < f.hdr.fragOff + |f.body|)
  {
    hide Hm.Valid, Header.Bytes;
  }

  lemma {:induction false} RecordGains(r: Receiver, fs: seq<Fragment>, env: Env, ms: seq<Message>)
    requires Follows(r, ms, r.readSeq) && Sized(ms) && AllHonest(fs, ms) && AllHarmless(fs, env, r.readSeq)
    ensures Gains(r, fs, AcceptRecord(r, Concat(fs), env).0)
    decreases |fs|
  {
    hide Accept, ParseFragment, Fragment.Bytes, Gains, Honest, Harmless;
    if fs == [] {
      GainsNothing(r);
    } else {
      var f, rest := fs[0], fs[1..];
      HonestFits(f, ms);
      ParseRoundTrip(f, Concat(rest));
      AcceptGains(r, f, env, ms);
      AcceptFollows(r, f, env, ms, r.readSeq);
      var r1 := Accept(r, f, env).0;
      AcceptShape(r, f, env);
      assert AllHonest(rest, ms) && AllHarmless(rest, env, r1.readSeq);
      RecordGains(r1, rest, env, ms);
      GainsMore(r, [f], r1, rest, AcceptRecord(r1, Concat(rest), env).0);
      assert [f] + rest == fs;
    }
  }

  /** Only deliveries of honest fragments, none of which makes a reader that waits for message `n` fail. */
  predicate Deliveries(es: seq<Event>, ms: seq<Message>, n: nat) {
    forall i :: 0 <= i < |es| ==> es[i].Deliver? && AllHonest(es[i].fs, ms) && AllHarmless(es[i].fs, es[i].env, n)
  }

  function Fragments(es: seq<Event>): seq<Fragment> {
    if es == [] then [] else (if es[0].Deliver? then es[0].fs else []) + Fragments(es[1..])
  }

  lemma {:induction false} DeliveriesGain(s: Run, es: seq<Event>, ms: seq<Message>)
    requires Follows(s.receiver, ms, s.receiver.readSeq) && Sized(ms) && Deliveries(es, ms, s.receiver.readSeq)
    ensures var s' := ReactAll(s, es);
            && s'.released == s.released && Follows(s'.receiver, ms, s.receiver.readSeq)
            && Gains(s.receiver, Fragments(es), s'.receiver)
    decreases |es|
  {
    hide Gains, AllHonest, AllHarmless, AcceptRecord, Agrees;
    if es == [] {
      GainsNothing(s.receiver);
    } else {
      var s1 := React(s, es[0]);
      RecordGains(s.receiver, es[0].fs, es[0].env, ms);
      RecordFollows(s.receiver, es[0].fs, es[0].env, ms, s.receiver.readSeq);
      DeliveriesGain(s1, es[1..], ms);
      GainsMore(s.receiver, es[0].fs, s1.receiver, Fragments(es[1..]), ReactAll(s1, es[1..]).receiver);
    }
  }

  /**
   * Exactly when deliveries complete the message waited for, in any order, with any overlap and in any mixture with
   * other messages: when it has been begun and each of its bytes was there or is carried by one of them. It is then
   * the next one released, as it was sent.
   */
  lemma {:induction false} CoveredIsReleased(s: Run, es: seq<Event>, ms: seq<Message>)
    requires Follows(s.receiver, ms, s.receiver.readSeq) && Sized(ms) && Deliveries(es, ms, s.receiver.readSeq)
    requires s.receiver.readSeq < |ms|
    ensures var n, r, fs := s.receiver.readSeq, s.receiver, Fragments(es);
            ReactAll(s, es).receiver.CurrentComplete() <==>
              (r.Current().Some? || Begun(fs, n)) && forall j: nat :: j < |ms[n].body| ==> Has(r, j) || Covered(fs, n, j)
    ensures ReactAll(s, es + [Release]).released
         == if ReactAll(s, es).receiver.CurrentComplete() then s.released + [ms[s.receiver.readSeq].Raw(s.receiver.readSeq)] else s.released
  {
    hide Message.Raw, Hm.Valid, Deliveries, Covered, Begun;
    var n, s' := s.receiver.readSeq, ReactAll(s, es);
    DeliveriesGain(s, es, ms);
    if s'.receiver.Current().Some? { CurrentLength(s'.receiver, ms); }
    ReactAppend(s, es, [Release]);
    assert ReactAll(s', [Release]) == React(s', Release) by { assert [Release][1..] == []; }
    if s'.receiver.CurrentComplete() {
      ReleaseFollows(s'.receiver, ms, n);
      assert forall j: nat :: j < |ms[n].body| ==> Has(s'.receiver, j);
    } else if s'.receiver.Current().Some? {
      var j :| 0 <= j < |s'.receiver.Current().value.got| && !s'.receiver.Current().value.got[j];
      assert !Has(s'.receiver, j);
    }
  }

  lemma {:induction false} CurrentLength(r: Receiver, ms: seq<Message>)
    requires Follows(r, ms, r.readSeq) && r.Current().Some?
    ensures r.readSeq < |ms| && |r.Current().value.got| == |ms[r.readSeq].body|
  {
  }

  /** One block of deliveries for each message from `n` on: it covers the message, and holds whatever else is harmless. */
  predicate Delivers(blocks: seq<seq<Event>>, ms: seq<Message>, n: nat)
    requires n <= |ms|
    decreases |blocks|
  {
    if n == |ms| then blocks == []
    else
      && blocks != [] && Deliveries(blocks[0], ms, n) && Begun(Fragments(blocks[0]), n)
      && (forall j: nat :: j < |ms[n].body| ==> Covered(Fragments(blocks[0]), n, j))
      && Delivers(blocks[1..], ms, n + 1)
  }

  /** The blocks in turn, with the handshake taking a message after each. */
  function Play(blocks: seq<seq<Event>>): seq<Event> {
    if blocks == [] then [] else blocks[0] + [Release] + Play(blocks[1..])
  }

  lemma {:induction false} FollowsShape(r: Receiver, ms: seq<Message>, n: nat)
    requires Follows(r, ms, n)
    ensures r.Shape() && r.readSeq == n <= |ms| < TWO16
  {
  }

  lemma {:induction false} BlockReleases(s: Run, es: seq<Event>, ms: seq<Message>)
    requires Follows(s.receiver, ms, s.receiver.readSeq) && Sized(ms) && s.receiver.readSeq < |ms|
    requires Deliveries(es, ms, s.receiver.readSeq) && Begun(Fragments(es), s.receiver.readSeq)
    requires forall j: nat :: j < |ms[s.receiver.readSeq].body| ==> Covered(Fragments(es), s.receiver.readSeq, j)
    ensures var n, s1 := s.receiver.readSeq, ReactAll(s, es + [Release]);
            Follows(s1.receiver, ms, n + 1) && s1.released == s.released + [ms[n].Raw(n)]
  {
    hide Deliveries, Agrees, Message.Raw, Begun, Covered, React, Follows;
    FollowsShape(s.receiver, ms, s.receiver.readSeq);
    var n, done := s.receiver.readSeq, ReactAll(s, es);
    CoveredIsReleased(s, es, ms);
    DeliveriesGain(s, es, ms);
    ReleaseFollows(done.receiver, ms, n);
    ReactAppend(s, es, [Release]);
    ReleasesNext(done);
  }

  lemma {:induction false} RawsFrom(ms: seq<Message>, n: nat)
    requires n < |ms|
    ensures Raws(ms)[n..] == [ms[n].Raw(n)] + Raws(ms)[n + 1..]
  {
    hide Message.Raw;
  }

  /** Blocks that cover the messages one after the other release them all. */
  lemma {:induction false} AllReleased(s: Run, blocks: seq<seq<Event>>, ms: seq<Message>)
    requires Follows(s.receiver, ms, s.receiver.readSeq) && Sized(ms) && Delivers(blocks, ms, s.receiver.readSeq)
    ensures s.receiver.Shape() && ReactAll(s, Play(blocks)).released == s.released + Raws(ms)[s.receiver.readSeq..]
    decreases |blocks|
  {
    hide Deliveries, Message.Raw, Begun, Covered, React, ReactAll, Receiver.Shape, Follows, Raws;
    var n := s.receiver.readSeq;
    FollowsShape(s.receiver, ms, n);
    if n == |ms| {
      assert Raws(ms)[n..] == [] && s.released + [] == s.released;
      NoEvents(s);
    } else {
      BlockReleases(s, blocks[0], ms);
      var s1 := ReactAll(s, blocks[0] + [Release]);
      FollowsShape(s1.receiver, ms, n + 1);
      AllReleased(s1, blocks[1..], ms);
      ReactAppend(s, blocks[0] + [Release], Play(blocks[1..]));
      RawsFrom(ms, n);
      assert s.released + [ms[n].Raw(n)] + Raws(ms)[n + 1..] == s.released + ([ms[n].Raw(n)] + Raws(ms)[n + 1..]);
    }
  }

  lemma {:induction false} NoEvents(s: Run)
    requires s.receiver.Shape()
    ensures ReactAll(s, []) == s
  {
  }

  lemma {:induction false} ReleasesNext(s: Run)
    requires s.receiver.Shape() && s.receiver.CurrentComplete()
    ensures ReactAll(s, [Release]).receiver == Next(s.receiver)
  {
    assert [Release][1..] == [];
  }

  // ---- Why 2^16 messages are too many --------------------------------------------------------

  lemma {:induction false} ReactAppend(s: Run, a: seq<Event>, b: seq<Event>)
    requires s.receiver.Shape()
    ensures ReactAll(s, a + b) == ReactAll(ReactAll(s, a), b)
    decreases |a|
  {
    if a == [] {
      assert a + b == b;
    } else {
      assert (a + b)[1..] == a[1..] + b;
      ReactAppend(React(s, a[0]), a[1..], b);
    }
  }

  const Plain: Env := Env(0, 0x100_0000, _ => 0)

  /** A message in fragments of at most `c` bytes, from `off` on. */
  function Chunks(m: Message, k: nat, off: nat, c: nat): (es: seq<Event>)
    requires off <= |m.body| && c >= 1
    decreases |m.body| - off
  {
    if |m.body| - off <= c then [Deliver([m.Slice(k, off, |m.body| - off)], Plain)]
    else [Deliver([m.Slice(k, off, c)], Plain)] + Chunks(m, k, off + c, c)
  }

  /** The receiver waits for message `k` and has its first `off` bytes; nothing else is in the ring. */
  predicate HasFirst(r: Receiver, m: Message, k: nat, off: nat) {
    var i := k % TWO16 % SSL_MAX_HANDSHAKE_FLIGHT;
    && r.Shape() && r.readSeq == k % TWO16
    && (if off == 0 then r.ring == EmptyRing
        else r.ring[i].Some? && r.ring == EmptyRing[i := r.ring[i]] && Agrees(r.ring[i].value, m, k)
             && forall j :: 0 <= j < |m.body| ==> (r.ring[i].value.got[j] <==> j < off))
  }

  lemma {:induction false} DeliverSlice(s: Run, m: Message, k: nat, off: nat, len: nat)
    requires |m.body| < 0x100_0000 && off + len <= |m.body| && (len >= 1 || |m.body| == 0)
    requires HasFirst(s.receiver, m, k, off) && (off < |m.body| || off == 0)
    ensures var s' := React(s, Deliver([m.Slice(k, off, len)], Plain));
            && s'.released == s.released
            && (if off + len == |m.body|
                then s'.receiver.CurrentComplete() && s'.receiver.readSeq == k % TWO16
                     && s'.receiver.ring[k % TWO16 % SSL_MAX_HANDSHAKE_FLIGHT := None] == EmptyRing
                     && s'.receiver.Current().value.raw == m.Raw(k)
                else HasFirst(s'.receiver, m, k, off + len))
  {
    hide Header.Bytes, Received, Absorb, Hm.Valid, AcceptRecord, Concat, Message.Raw;
    var r, f, i := s.receiver, m.Slice(k, off, len), k % TWO16 % SSL_MAX_HANDSHAKE_FLIGHT;
    SingleFragment(r, f);
    NewAgrees(f.hdr, Plain.junk, m, k);
    NewHmValid(f.hdr, Plain.junk);
    var h := if r.ring[i].Some? then r.ring[i].value else NewHm(f.hdr, Plain.junk);
    AbsorbAgrees(h, f, m, k);
    var h' := Absorb(h, f);
    assert h.Valid() && (forall j :: 0 <= j < |h.got| ==> (h.got[j] <==> j < off));
    assert React(s, Deliver([f], Plain)).receiver == r.(ring := r.ring[i := Some(h')]);
    AbsorbMarks(h, f, off);
    if off + len == |m.body| { CompleteIsRaw(h', m, k); }
  }

  lemma {:induction false} SingleFragment(r: Receiver, f: Fragment)
    requires r.Shape() && f.Fits()
    ensures AcceptRecord(r, Concat([f]), Plain) == Accept(r, f, Plain)
  {
    ParseRoundTrip(f, []);
    assert [f][1..] == [];
    assert Concat([f]) == f.Bytes() + [];
    AcceptShape(r, f, Plain);
  }

  /** Absorbing the bytes after the first `off` leaves the first `off + len`. */
  lemma {:induction false} AbsorbMarks(h: Hm, f: Fragment, off: nat)
    requires h.Valid() && f.hdr.fragOff == off && off + |f.body| <= |h.got| && (off < |h.got| || |h.got| == 0)
    requires forall j :: 0 <= j < |h.got| ==> (h.got[j] <==> j < off)
    ensures forall j :: 0 <= j < |h.got| ==> (Absorb(h, f).got[j] <==> j < off + |f.body|)
    ensures |Absorb(h, f).got| == |h.got|
  {
    if |h.got| > 0 { assert !h.got[off]; }
  }

  lemma {:induction false} DeliverMessage(s: Run, m: Message, k: nat, off: nat, c: nat)
    requires |m.body| < 0x100_0000 && off <= |m.body| && c >= 1 && (off < |m.body| || off == 0)
    requires HasFirst(s.receiver, m, k, off)
    ensures ReactAll(s, Chunks(m, k, off, c) + [Release])
         == Run(Receiver((k + 1) % TWO16, EmptyRing), s.released + [m.Raw(k)])
    decreases |m.body| - off
  {
    hide React, Agrees, Message.Raw;
    var es := Chunks(m, k, off, c) + [Release];
    var len := if |m.body| - off <= c then |m.body| - off else c;
    var s' := React(s, Deliver([m.Slice(k, off, len)], Plain));
    DeliverSlice(s, m, k, off, len);
    assert es[0] == Deliver([m.Slice(k, off, len)], Plain);
    if len == c && c < |m.body| - off {
      assert es[1..] == Chunks(m, k, off + c, c) + [Release];
      DeliverMessage(s', m, k, off + c, c);
    } else {
      assert es[1..] == [Release] && [Release][1..] == [];
      ReleaseFirst(s', m, k);
      assert ReactAll(s', [Release]) == ReactAll(React(s', Release), []);
    }
  }

  lemma {:induction false} ReleaseFirst(s: Run, m: Message, k: nat)
    requires s.receiver.Shape() && s.receiver.CurrentComplete() && s.receiver.readSeq == k % TWO16
    requires s.receiver.ring[k % TWO16 % SSL_MAX_HANDSHAKE_FLIGHT := None] == EmptyRing
    requires s.receiver.Current().value.raw == m.Raw(k)
    ensures React(s, Release) == Run(Receiver((k + 1) % TWO16, EmptyRing), s.released + [m.Raw(k)])
  {
    hide Message.Raw;
  }

  /** All messages from `k` on, each delivered in order and released. */
  function InOrder(ms: seq<Message>, k: nat, c: nat): seq<Event>
    requires k <= |ms| && c >= 1
    decreases |ms| - k
  {
    if k == |ms| then [] else Chunks(ms[k], k, 0, c) + [Release] + InOrder(ms, k + 1, c)
  }

  lemma {:induction false} InOrderRun(s: Run, ms: seq<Message>, k: nat, c: nat)
    requires k <= |ms| && c >= 1 && Sized(ms) && s.receiver == Receiver(k % TWO16, EmptyRing)
    ensures ReactAll(s, InOrder(ms, k, c)).receiver == Receiver(|ms| % TWO16, EmptyRing)
    ensures |ReactAll(s, InOrder(ms, k, c)).released| == |s.released| + |ms| - k
    decreases |ms| - k
  {
    if k < |ms| {
      var step := Chunks(ms[k], k, 0, c) + [Release];
      DeliverMessage(s, ms[k], k, 0, c);
      ReactAppend(s, step, InOrder(ms, k + 1, c));
      InOrderRun(ReactAll(s, step), ms, k + 1, c);
    }
  }

  lemma {:induction false} ChunksHonest(ms: seq<Message>, k: nat, off: nat, c: nat)
    requires k < |ms| && Sized(ms) && off <= |ms[k].body| && c >= 1
    ensures HonestEvents(Chunks(ms[k], k, off, c), ms, DTLS1_HM_HEADER_LENGTH + c)
    decreases |ms[k].body| - off
  {
    var m := ms[k];
    var len := if |m.body| - off <= c then |m.body| - off else c;
    var f := m.Slice(k, off, len);
    assert IsSlice(f, ms[k], k);
    assert [f][1..] == [] && Concat([f]) == f.Bytes() + [];
    if len < |m.body| - off { ChunksHonest(ms, k, off + c, c); }
  }

  lemma {:induction false} HonestAppend(a: seq<Event>, b: seq<Event>, ms: seq<Message>, room: nat)
    requires HonestEvents(a, ms, room) && HonestEvents(b, ms, room)
    ensures HonestEvents(a + b, ms, room)
  {
  }

  lemma {:induction false} InOrderHonest(ms: seq<Message>, k: nat, c: nat)
    requires k <= |ms| && Sized(ms) && c >= 1
    ensures HonestEvents(InOrder(ms, k, c), ms, DTLS1_HM_HEADER_LENGTH + c)
    decreases |ms| - k
  {
    if k < |ms| {
      var room := DTLS1_HM_HEADER_LENGTH + c;
      ChunksHonest(ms, k, 0, c);
      InOrderHonest(ms, k + 1, c);
      HonestAppend(Chunks(ms[k], k, 0, c), [Release], ms, room);
      HonestAppend(Chunks(ms[k], k, 0, c) + [Release], InOrder(ms, k + 1, c), ms, room);
    }
  }

  /** With 2^16 messages or more, a late copy of the message 2^16 back is released once too often. */
  lemma {:induction false} LateCopyIsReleased(ms: seq<Message>, room: nat) returns (es: seq<Event>)
    requires Sized(ms) && |ms| >= TWO16 && room > DTLS1_HM_HEADER_LENGTH
    ensures HonestEvents(es, ms, room) && |ReactAll(Start, es).released| == |ms| + 1
  {
    hide ReactAll, React, Chunks, InOrder, HonestEvents, Message.Raw, Agrees;
    var c, k: nat := room - DTLS1_HM_HEADER_LENGTH, |ms| - TWO16;
    var late := Chunks(ms[k], k, 0, c) + [Release];
    es := InOrder(ms, 0, c) + late;
    InOrderHonest(ms, 0, c);
    ChunksHonest(ms, k, 0, c);
    ReleaseHonest(ms, room);
    HonestAppend(Chunks(ms[k], k, 0, c), [Release], ms, room);
    HonestAppend(InOrder(ms, 0, c), late, ms, room);
    InOrderRun(Start, ms, 0, c);
    ReactAppend(Start, InOrder(ms, 0, c), late);
    var s := ReactAll(Start, InOrder(ms, 0, c));
    DeliverMessage(s, ms[k], k, 0, c);
  }

  lemma {:induction false} ReleaseHonest(ms: seq<Message>, room: nat)
    ensures HonestEvents([Release], ms, room)
  {
  }

  ghost predicate AlwaysPrefix(ms: seq<Message>, room: nat) {
    forall es :: HonestEvents(es, ms, room) ==> IsPrefix(ReactAll(Start, es).released, Raws(ms))
  }

  /**
   * Whatever the network loses, repeats or reorders, and however the sender cuts its messages, what the
   * receiver releases is a prefix of what was sent, headers included: exactly when the 16-bit message numbers
   * do not come round.
   */
  lemma {:induction false} ReleasedIsPrefix(ms: seq<Message>, room: nat)
    requires Sized(ms) && room > DTLS1_HM_HEADER_LENGTH
    ensures AlwaysPrefix(ms, room) <==> |ms| < TWO16
  {
    hide ReactAll, HonestEvents, Message.Raw;
    if |ms| < TWO16 {
      forall es | HonestEvents(es, ms, room) ensures IsPrefix(ReactAll(Start, es).released, Raws(ms)) {
        ScheduleSafe(Start, es, ms, room);
      }
    } else {
      var es := LateCopyIsReleased(ms, room);
      assert !IsPrefix(ReactAll(Start, es).released, Raws(ms));
    }
  }
}

/** The ring of DTLS handshake messages facing any sender: which fragments are fatal, and what is released. */
module DtlsPeer {
  import opened Common
  import opened DtlsFragment
  import opened DtlsReceive
  import DtlsReliable

  // ---- Fragments from anyone -----------------------------------------------------------------

  /** The fragment goes past its message, or the message is longer than is accepted. */
  predicate TooLong(h: Header, maxLen: nat) {
    h.fragOff + h.fragLen > h.msgLen || h.msgLen > maxLen
  }

  /** In the encrypted epoch only the current message is accepted. */
  predicate Misplaced(r: Receiver, h: Header, env: Env) {
    env.readEpoch == 1 && h.seqNum != r.readSeq
  }

  predicate InReach(r: Receiver, h: Header) {
    r.readSeq <= h.seqNum < r.readSeq + 7
  }

  /** The slot holds a message of another type or length. */
  predicate Conflicts(r: Receiver, h: Header)
    requires r.Shape()
  {
    var slot := r.ring[h.seqNum % 7];
    slot.Some? && (slot.value.typ != h.typ || |slot.value.got| != h.msgLen)
  }

  /** Which fragments are fatal, with which alert, and that only those in the window change anything. */
  lemma {:induction false} AcceptsExactly(r: Receiver, f: Fragment, env: Env)
    requires r.Shape() && f.Fits()
    ensures var a, h := Accept(r, f, env), f.hdr;
            && (a.1 == Some(IllegalParameter) <==> TooLong(h, env.maxLen) || (!Misplaced(r, h, env) && InReach(r, h) && Conflicts(r, h)))
            && (a.1 == Some(Alert.UnexpectedMessage) <==> !TooLong(h, env.maxLen) && Misplaced(r, h, env))
            && (a.1 == Some(InternalError) <==> !TooLong(h, env.maxLen) && !Misplaced(r, h, env) && h.seqNum == r.readSeq + 7)
            && a.1 != Some(DecodeError)
            && (a.0 != r ==> a.1.None? && InReach(r, h))
            && (a.1.None? && InReach(r, h) ==> a.0.ring[h.seqNum % 7].Some?)
            && forall i :: 0 <= i < 7 && i != h.seqNum % 7 ==> a.0.ring[i] == r.ring[i]
  {
    hide NewHm, Received, Hm.Valid, Hm.Complete;
  }

  /** The fragment is of message `n` and has byte `k` of its body. */
  predicate Covers(f: Fragment, n: nat, k: nat) {
    f.hdr.seqNum == n && f.hdr.fragOff <= k < f.hdr.fragOff + |f.body|
  }

  /** That byte is `b`. */
  predicate Gives(f: Fragment, n: nat, k: nat, b: byte) {
    Covers(f, n, k) && f.body[k - f.hdr.fragOff] == b
  }

  predicate Given(fs: seq<Fragment>, n: nat, k: nat, b: byte) {
    exists j :: 0 <= j < |fs| && Gives(fs[j], n, k, b)
  }

  /**
   * The message is number `n` of the fragments: they agree on its type and length, exactly the bytes they cover have
   * arrived, and each is what one of them says.
   */
  ghost predicate MadeOf(m: Hm, n: nat, fs: seq<Fragment>, maxLen: nat) {
    && m.Valid() && m.seqNum == n && |m.got| <= maxLen
    && (exists j :: 0 <= j < |fs| && fs[j].hdr.seqNum == n)
    && (forall j :: 0 <= j < |fs| && fs[j].hdr.seqNum == n ==> fs[j].hdr.typ == m.typ && fs[j].hdr.msgLen == |m.got|)
    && (forall j, k :: 0 <= j < |fs| && 0 <= k < |m.got| && Covers(fs[j], n, k) ==> m.got[k])
    && (forall k :: 0 <= k < |m.got| && m.got[k] ==> Given(fs, n, k, m.raw[12 + k]))
  }

  /** A receiver that had nothing holds exactly what the fragments in its window make. */
  ghost predicate RingMadeOf(r: Receiver, fs: seq<Fragment>, maxLen: nat)
    requires r.Shape()
  {
    forall n: nat :: r.readSeq <= n < r.readSeq + 7 ==>
      match r.ring[n % 7]
      case Some(m) => MadeOf(m, n, fs, maxLen)
      case None => forall j :: 0 <= j < |fs| ==> fs[j].hdr.seqNum != n
  }

  lemma {:induction false} AbsorbMadeOf(m: Hm, n: nat, fs: seq<Fragment>, f: Fragment, maxLen: nat)
    requires MadeOf(m, n, fs, maxLen) && f.hdr.seqNum == n && f.hdr.typ == m.typ && f.hdr.msgLen == |m.got|
    requires f.Fits() && !TooLong(f.hdr, maxLen)
    ensures MadeOf(Absorb(m, f), n, fs + [f], maxLen)
  {
    hide Header.Bytes;
    var m', all := Absorb(m, f), fs + [f];
    assert all[|fs|] == f;
    if !m.Complete() { ReceivedValid(m, f.hdr.fragOff, f.body); }
    forall k | 0 <= k < |m'.got| && m'.got[k] ensures Given(all, n, k, m'.raw[12 + k]) {
      assert m'.raw[12 + k] == m'.raw[12..][k] && m.raw[12 + k] == m.raw[12..][k];
      if !m.Complete() && Covers(f, n, k) {
        assert Gives(all[|fs|], n, k, m'.raw[12 + k]);
      } else {
        var j :| 0 <= j < |fs| && Gives(fs[j], n, k, m.raw[12 + k]);
        assert Gives(all[j], n, k, m'.raw[12 + k]);
      }
    }
  }

  /** The first fragment of a message makes it, before its bytes are copied. */
  lemma {:induction false} FirstMadeOf(f: Fragment, fs: seq<Fragment>, env: Env, maxLen: nat)
    requires f.Fits() && !TooLong(f.hdr, maxLen) && forall j :: 0 <= j < |fs| ==> fs[j].hdr.seqNum != f.hdr.seqNum
    ensures MadeOf(Absorb(NewHm(f.hdr, env.junk), f), f.hdr.seqNum, fs + [f], maxLen)
  {
    hide Header.Bytes;
    NewHmValid(f.hdr, env.junk);
    var m, n, all := NewHm(f.hdr, env.junk), f.hdr.seqNum, fs + [f];
    var m' := Absorb(m, f);
    assert all[|fs|] == f;
    if !m.Complete() { ReceivedValid(m, f.hdr.fragOff, f.body); }
    forall k | 0 <= k < |m'.got| && m'.got[k] ensures Given(all, n, k, m'.raw[12 + k]) {
      assert m'.raw[12 + k] == m'.raw[12..][k];
      assert Gives(all[|fs|], n, k, m'.raw[12 + k]);
    }
  }

  lemma {:induction false} OtherMadeOf(m: Hm, n: nat, fs: seq<Fragment>, f: Fragment, maxLen: nat)
    requires MadeOf(m, n, fs, maxLen) && f.hdr.seqNum != n
    ensures MadeOf(m, n, fs + [f], maxLen)
  {
    var all := fs + [f];
    forall k | 0 <= k < |m.got| && m.got[k] ensures Given(all, n, k, m.raw[12 + k]) {
      var j :| 0 <= j < |fs| && Gives(fs[j], n, k, m.raw[12 + k]);
      assert Gives(all[j], n, k, m.raw[12 + k]);
    }
    var j :| 0 <= j < |fs| && fs[j].hdr.seqNum == n;
    assert all[j].hdr.seqNum == n;
  }

  /** What has been accepted is not past the window, and the ring is made of it. */
  ghost predicate Follows(r: Receiver, accepted: seq<Fragment>, maxLen: nat) {
    && r.Shape() && RingMadeOf(r, accepted, maxLen)
    && forall j :: 0 <= j < |accepted| ==> accepted[j].hdr.seqNum < r.readSeq + 7
  }

  lemma {:induction false} AcceptFollows(r: Receiver, fs: seq<Fragment>, f: Fragment, env: Env, maxLen: nat)
    requires Follows(r, fs, maxLen) && f.Fits() && Accept(r, f, env).1.None? && env.maxLen <= maxLen
    ensures Follows(Accept(r, f, env).0, if InReach(r, f.hdr) then fs + [f] else fs, maxLen)
  {
    hide MadeOf, NewHm, Absorb, Hm.Valid, TooLong;
    AcceptShape(r, f, env);
    AcceptsExactly(r, f, env);
    var r' := Accept(r, f, env).0;
    if InReach(r, f.hdr) {
      forall n: nat | r.readSeq <= n < r.readSeq + 7
        ensures match r'.ring[n % 7]
                case Some(m) => MadeOf(m, n, fs + [f], maxLen)
                case None => forall j :: 0 <= j < |fs + [f]| ==> (fs + [f])[j].hdr.seqNum != n
      {
        var slot := r.ring[n % 7];
        if n == f.hdr.seqNum {
          AcceptedSlot(r, f, env, maxLen);
          if slot.Some? { AbsorbMadeOf(slot.value, n, fs, f, maxLen); } else { FirstMadeOf(f, fs, env, maxLen); }
        } else {
          OtherSlot(r, f, n);
          if slot.Some? { OtherMadeOf(slot.value, n, fs, f, maxLen); }
        }
      }
    }
  }

  lemma {:induction false} OtherSlot(r: Receiver, f: Fragment, n: nat)
    requires r.readSeq <= n < r.readSeq + 7 && n != f.hdr.seqNum && InReach(r, f.hdr)
    ensures n % 7 != f.hdr.seqNum % 7
  {
  }

  lemma {:induction false} AcceptedSlot(r: Receiver, f: Fragment, env: Env, maxLen: nat)
    requires r.Shape() && f.Fits() && Accept(r, f, env).1.None? && InReach(r, f.hdr) && env.maxLen <= maxLen
    ensures var slot := r.ring[f.hdr.seqNum % 7];
            && !TooLong(f.hdr, maxLen)
            && (slot.Some? ==> slot.value.typ == f.hdr.typ && |slot.value.got| == f.hdr.msgLen)
            && NewHm(f.hdr, env.junk).Valid() && |NewHm(f.hdr, env.junk).got| == f.hdr.msgLen
            && Accept(r, f, env).0.ring[f.hdr.seqNum % 7] == Some(Absorb(if slot.Some? then slot.value else NewHm(f.hdr, env.junk), f))
  {
    NewHmValid(f.hdr, env.junk);
    hide NewHm, Absorb, Hm.Valid;
  }

  /** Releasing the current message, which is made of what was accepted for it, and going on with the next one. */
  lemma {:induction false} NextFollows(r: Receiver, fs: seq<Fragment>, maxLen: nat)
    requires Follows(r, fs, maxLen) && r.CurrentComplete() && r.readSeq + 1 < TWO16
    ensures MadeOf(r.Current().value, r.readSeq, fs, maxLen) && Follows(Next(r), fs, maxLen)
  {
    hide MadeOf, Hm.Valid, Hm.Complete;
    var r' := Next(r);
    forall n: nat | r'.readSeq <= n < r'.readSeq + 7
      ensures match r'.ring[n % 7]
              case Some(m) => MadeOf(m, n, fs, maxLen)
              case None => forall j :: 0 <= j < |fs| ==> fs[j].hdr.seqNum != n
    {
      if n < r.readSeq + 7 { assert n % 7 != r.readSeq % 7; }
    }
  }

  // ---- Every run of the ring -----------------------------------------------------------------

  /** A fragment arrives, or the handshake takes the current message. */
  datatype Happening = Comes(f: Fragment, env: Env) | Goes

  /** The ring, the fragments accepted so far, the messages released, and whether nothing fatal has come. */
  datatype History = History(receiver: Receiver, accepted: seq<Fragment>, released: seq<Hm>, alive: bool)

  function Happens(s: History, h: Happening): (s': History)
    requires s.receiver.Shape() && (h.Comes? ==> h.f.Fits())
    ensures s'.receiver.Shape()
  {
    if !s.alive then s
    else match h
      case Comes(f, env) =>
        AcceptShape(s.receiver, f, env);
        var a := Accept(s.receiver, f, env);
        s.(receiver := a.0, accepted := if InReach(s.receiver, f.hdr) then s.accepted + [f] else s.accepted, alive := a.1.None?)
      case Goes =>
        if !s.receiver.CurrentComplete() then s
        else s.(receiver := DtlsReceive.Next(s.receiver), released := s.released + [s.receiver.Current().value])
  }

  function HappensAll(s: History, hs: seq<Happening>): (s': History)
    requires s.receiver.Shape() && forall j :: 0 <= j < |hs| && hs[j].Comes? ==> hs[j].f.Fits()
    ensures s'.receiver.Shape()
    decreases |hs|
  {
    if hs == [] then s else HappensAll(Happens(s, hs[0]), hs[1..])
  }

  predicate Bounded(hs: seq<Happening>, maxLen: nat) {
    forall j :: 0 <= j < |hs| && hs[j].Comes? ==> hs[j].f.Fits() && hs[j].env.maxLen <= maxLen
  }

  const Nothing: History := History(Receiver(0, seq(7, _ => None)), [], [], true)

  ghost predicate AllMadeOf(released: seq<Hm>, fs: seq<Fragment>, maxLen: nat) {
    forall n :: 0 <= n < |released| ==> released[n].Complete() && MadeOf(released[n], n, fs, maxLen)
  }

  /** What a step keeps, alive or dead, for the first 2^16 messages. */
  lemma {:induction false} HappensMadeOf(s: History, h: Happening, maxLen: nat)
    requires s.receiver.Shape() && s.receiver.readSeq == |s.released| && AllMadeOf(s.released, s.accepted, maxLen)
    requires s.alive ==> Follows(s.receiver, s.accepted, maxLen)
    requires (h.Comes? ==> h.f.Fits() && h.env.maxLen <= maxLen) && |Happens(s, h).released| < TWO16
    ensures var s' := Happens(s, h);
            && s'.receiver.readSeq == |s'.released| && AllMadeOf(s'.released, s'.accepted, maxLen)
            && (s'.alive ==> Follows(s'.receiver, s'.accepted, maxLen))
  {
    hide MadeOf, Follows, Accept, Hm.Valid, Hm.Complete, NewHm, Absorb;
    var s' := Happens(s, h);
    if s.alive {
      match h {
        case Comes(f, env) =>
          AcceptShape(s.receiver, f, env);
          if s'.alive { AcceptFollows(s.receiver, s.accepted, f, env, maxLen); }
          if s'.accepted != s.accepted { ReleasedStay(s.released, s.accepted, f, maxLen, s.receiver.readSeq); }
        case Goes =>
          if s.receiver.CurrentComplete() { NextFollows(s.receiver, s.accepted, maxLen); }
      }
    }
  }

  /** A fragment in the window is of none of the messages released. */
  lemma {:induction false} ReleasedStay(released: seq<Hm>, fs: seq<Fragment>, f: Fragment, maxLen: nat, readSeq: nat)
    requires AllMadeOf(released, fs, maxLen) && |released| == readSeq <= f.hdr.seqNum
    ensures AllMadeOf(released, fs + [f], maxLen)
  {
    hide MadeOf, Hm.Complete;
    forall n | 0 <= n < |released| ensures MadeOf(released[n], n, fs + [f], maxLen) {
      OtherMadeOf(released[n], n, fs, f, maxLen);
    }
  }

  lemma {:induction false} ReleasedGrows(s: History, hs: seq<Happening>)
    requires s.receiver.Shape() && forall j :: 0 <= j < |hs| && hs[j].Comes? ==> hs[j].f.Fits()
    ensures |s.released| <= |HappensAll(s, hs).released|
    decreases |hs|
  {
    if hs != [] { ReleasedGrows(Happens(s, hs[0]), hs[1..]); }
  }

  lemma {:induction false} RunMadeOf(s: History, hs: seq<Happening>, maxLen: nat)
    requires s.receiver.Shape() && Bounded(hs, maxLen) && |HappensAll(s, hs).released| < TWO16
    requires s.receiver.readSeq == |s.released| && AllMadeOf(s.released, s.accepted, maxLen)
    requires s.alive ==> Follows(s.receiver, s.accepted, maxLen)
    ensures var s' := HappensAll(s, hs);
            && s'.receiver.readSeq == |s'.released| && AllMadeOf(s'.released, s'.accepted, maxLen)
            && (s'.alive ==> Follows(s'.receiver, s'.accepted, maxLen))
    decreases |hs|
  {
    hide MadeOf, Follows, Happens, AllMadeOf;
    if hs != [] {
      ReleasedGrows(Happens(s, hs[0]), hs[1..]);
      HappensMadeOf(s, hs[0], maxLen);
      RunMadeOf(Happens(s, hs[0]), hs[1..], maxLen);
    }
  }

  /**
   * Whatever fragments arrive from whomever, each message released is complete, no longer than is accepted, of the one
   * type and length that its fragments name, and each of its bytes is one that arrived for it.
   */
  lemma {:induction false} ReleasedIsWhatArrived(hs: seq<Happening>, maxLen: nat)
    requires Bounded(hs, maxLen) && |HappensAll(Nothing, hs).released| < TWO16
    ensures var s := HappensAll(Nothing, hs);
            AllMadeOf(s.released, s.accepted, maxLen) && (s.alive ==> RingMadeOf(s.receiver, s.accepted, maxLen))
  {
    RunMadeOf(Nothing, hs, maxLen);
  }

  // ---- Records from anyone -------------------------------------------------------------------

  function Arrivals(fs: seq<Fragment>, env: Env): (hs: seq<Happening>)
    ensures |hs| == |fs|
  {
    seq(|fs|, j requires 0 <= j < |fs| => Comes(fs[j], env))
  }

  /** Every record is a list of fragments and a rest that begins none. */
  lemma {:induction false} EveryRecord(record: seq<byte>) returns (fs: seq<Fragment>, rest: seq<byte>)
    ensures record == DtlsReliable.Concat(fs) + rest && (forall j :: 0 <= j < |fs| ==> fs[j].Fits())
    ensures forall f: Fragment, more: seq<byte> :: f.Fits() ==> rest != f.Bytes() + more
    decreases |record|
  {
    hide ParseFragment, Fragment.Bytes;
    if ParseFragment(record).None? {
      fs, rest := [], record;
      forall f: Fragment, more: seq<byte> | f.Fits() ensures rest != f.Bytes() + more { ParseExactly(record, f, more); }
    } else {
      var p := ParseFragment(record).value;
      ParsedSpells(record);
      ParsedShorter(record);
      fs, rest := EveryRecord(p.1);
      fs := [p.0] + fs;
      assert fs[1..] == fs[1..];
      assert p.0.Bytes() + (DtlsReliable.Concat(fs[1..]) + rest) == p.0.Bytes() + DtlsReliable.Concat(fs[1..]) + rest;
    }
  }

  lemma {:induction false} ParsedShorter(record: seq<byte>)
    requires ParseFragment(record).Some?
    ensures |ParseFragment(record).value.1| < |record|
  {
  }

  /** A record is taken fragment by fragment up to the first fatal one; one with a rest that begins no fragment is fatal. */
  lemma {:induction false} RecordIsFragments(s: History, fs: seq<Fragment>, rest: seq<byte>, env: Env)
    requires s.receiver.Shape() && s.alive && (forall j :: 0 <= j < |fs| ==> fs[j].Fits()) && ParseFragment(rest).None?
    ensures var a, s' := AcceptRecord(s.receiver, DtlsReliable.Concat(fs) + rest, env), HappensAll(s, Arrivals(fs, env));
            && a.0 == s'.receiver && (a.1.None? <==> s'.alive && rest == [])
            && (s'.alive && rest != [] ==> a.1 == Some(DecodeError))
    decreases |fs|
  {
    hide ParseFragment, Fragment.Bytes, Accept;
    if fs == [] {
      assert [] + rest == rest;
    } else {
      var f, more := fs[0], DtlsReliable.Concat(fs[1..]) + rest;
      assert DtlsReliable.Concat(fs) + rest == f.Bytes() + more;
      ParseExactly(f.Bytes() + more, f, more);
      NotEmpty(f, more);
      AcceptShape(s.receiver, f, env);
      assert Arrivals(fs, env)[1..] == Arrivals(fs[1..], env);
      var s1 := Happens(s, Comes(f, env));
      if s1.alive { RecordIsFragments(s1, fs[1..], rest, env); } else { DeadStays(s1, Arrivals(fs[1..], env)); }
    }
  }

  lemma {:induction false} NotEmpty(f: Fragment, more: seq<byte>)
    ensures f.Bytes() + more != []
  {
    assert |f.Bytes()| >= 12;
  }

  /** After a fatal fragment nothing changes any more. */
  lemma {:induction false} DeadStays(s: History, hs: seq<Happening>)
    requires s.receiver.Shape() && !s.alive && forall j :: 0 <= j < |hs| && hs[j].Comes? ==> hs[j].f.Fits()
    ensures HappensAll(s, hs) == s
    decreases |hs|
  {
    if hs != [] { DeadStays(s, hs[1..]); }
  }
}

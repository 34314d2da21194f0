/** Receiving DTLS handshake messages: the ring of partial messages (`d1_both.cc`). */
module DtlsReceive {
  import opened Common
  import opened BigEndian
  import opened DtlsFragment

  datatype Alert = IllegalParameter | UnexpectedMessage | InternalError | DecodeError

  /** `handshake_read_seq` and `incoming_messages`. */
  datatype Receiver = Receiver(readSeq: nat, ring: seq<Option<Hm>>) {
    predicate Shape() {
      && readSeq < TWO16 && |ring| == SSL_MAX_HANDSHAKE_FLIGHT
      && forall i :: 0 <= i < |ring| && ring[i].Some? ==> ring[i].value.Valid()
    }

    /** Slot `i` holds only a message in the window whose number is `i` modulo the size of the ring. */
    predicate InWindow() {
      Shape() && forall i :: 0 <= i < |ring| && ring[i].Some? ==>
        && readSeq <= ring[i].value.seqNum < readSeq + SSL_MAX_HANDSHAKE_FLIGHT
        && ring[i].value.seqNum % SSL_MAX_HANDSHAKE_FLIGHT == i
    }

    function Current(): Option<Hm>
      requires Shape()
    {
      ring[readSeq % SSL_MAX_HANDSHAKE_FLIGHT]
    }

    /** `dtls1_is_current_message_complete`. */
    predicate CurrentComplete()
      requires Shape()
    {
      Current().Some? && Current().value.Complete()
    }
  }

  /** What does not change while a record is processed: the read epoch, the size limit, the allocator. */
  datatype Env = Env(readEpoch: nat, maxLen: nat, junk: nat -> byte)

  /** The message a fragment is copied into, if it is still incomplete. */
  function Absorb(m: Hm, f: Fragment): Hm
    requires m.Valid() && f.hdr.fragOff + |f.body| <= |m.got|
  {
    if m.Complete() then m else Received(m, f.hdr.fragOff, f.body)
  }

  /** One turn of the loop of `dtls1_open_handshake`, with `dtls1_get_incoming_message`. */
  function Accept(r: Receiver, f: Fragment, env: Env): (Receiver, Option<Alert>)
    requires r.Shape() && f.Fits()
  {
    var h := f.hdr;
    if h.fragOff > h.msgLen || h.fragOff + h.fragLen > h.msgLen || h.msgLen > env.maxLen then (r, Some(IllegalParameter))
    else if env.readEpoch == 1 && h.seqNum != r.readSeq then (r, Some(UnexpectedMessage))
    else if h.seqNum < r.readSeq || h.seqNum > r.readSeq + SSL_MAX_HANDSHAKE_FLIGHT then (r, None)
    else if h.seqNum - r.readSeq >= SSL_MAX_HANDSHAKE_FLIGHT then (r, Some(InternalError))
    else
      var i := h.seqNum % SSL_MAX_HANDSHAKE_FLIGHT;
      if r.ring[i].Some? && (r.ring[i].value.typ != h.typ || |r.ring[i].value.got| != h.msgLen) then (r, Some(IllegalParameter))
      else
        NewHmValid(h, env.junk);
        var m := if r.ring[i].Some? then r.ring[i].value else NewHm(h, env.junk);
        (r.(ring := r.ring[i := Some(Absorb(m, f))]), None)
  }

  lemma {:induction false} NewHmValid(h: Header, junk: nat -> byte)
    requires h.Fits()
    ensures NewHm(h, junk).Valid() && |NewHm(h, junk).got| == h.msgLen
  {
  }

  lemma {:induction false} ReceivedValid(m: Hm, off: nat, body: seq<byte>)
    requires m.Valid() && off + |body| <= |m.got|
    ensures Received(m, off, body).Valid()
    ensures Received(m, off, body).raw[DTLS1_HM_HEADER_LENGTH..]
         == m.raw[DTLS1_HM_HEADER_LENGTH..][..off] + body + m.raw[DTLS1_HM_HEADER_LENGTH..][off + |body|..]
  {
    var at := DTLS1_HM_HEADER_LENGTH + off;
    var raw := Received(m, off, body).raw;
    assert raw[..DTLS1_HM_HEADER_LENGTH] == m.raw[..DTLS1_HM_HEADER_LENGTH];
  }

  lemma {:induction false} AcceptShape(r: Receiver, f: Fragment, env: Env)
    requires r.Shape() && f.Fits()
    ensures Accept(r, f, env).0.Shape() && Accept(r, f, env).0.readSeq == r.readSeq
    ensures r.InWindow() ==> Accept(r, f, env).0.InWindow()
  {
    var h, i := f.hdr, f.hdr.seqNum % SSL_MAX_HANDSHAKE_FLIGHT;
    if Accept(r, f, env).0 != r {
      NewHmValid(h, env.junk);
      var m := if r.ring[i].Some? then r.ring[i].value else NewHm(h, env.junk);
      if !m.Complete() { ReceivedValid(m, h.fragOff, f.body); }
    }
  }

  lemma {:induction false} ParsedFits(s: seq<byte>)
    requires ParseFragment(s).Some?
    ensures ParseFragment(s).value.0.Fits()
  {
    GetBeBelow(s[1..4]);
    GetBeBelow(s[4..6]);
    GetBeBelow(s[6..9]);
    GetBeBelow(s[9..12]);
    Pow2Values();
  }

  /** The loop of `dtls1_open_handshake` over the fragments of one record; an error ends it. */
  function AcceptRecord(r: Receiver, record: seq<byte>, env: Env): (res: (Receiver, Option<Alert>))
    requires r.Shape()
    ensures res.0.Shape() && res.0.readSeq == r.readSeq
    decreases |record|
  {
    if record == [] then (r, None)
    else
      var p := ParseFragment(record);
      if p.None? then (r, Some(DecodeError))
      else
        ParsedFits(record);
        AcceptShape(r, p.value.0, env);
        var a := Accept(r, p.value.0, env);
        if a.1.Some? then a else AcceptRecord(a.0, p.value.1, env)
  }

  /** `dtls1_next_message`: drop the current message and advance the 16-bit counter. */
  function Next(r: Receiver): (r': Receiver)
    requires r.Shape() && r.CurrentComplete()
    ensures r'.Shape()
  {
    Receiver((r.readSeq + 1) % TWO16, r.ring[r.readSeq % SSL_MAX_HANDSHAKE_FLIGHT := None])
  }

  // ---- The window invariant -----------------------------------------------------------------

  /**
   * Whatever arrives, the ring stays within its window, and stepping to the next message keeps it there
   * even where the read counter wraps from 65535 to 0.
   */
  lemma {:induction false} RecordKeepsWindow(r: Receiver, record: seq<byte>, env: Env)
    requires r.InWindow()
    ensures AcceptRecord(r, record, env).0.InWindow()
    decreases |record|
  {
    if record != [] && ParseFragment(record).Some? {
      ParsedFits(record);
      var p := ParseFragment(record).value;
      AcceptShape(r, p.0, env);
      if Accept(r, p.0, env).1.None? { RecordKeepsWindow(Accept(r, p.0, env).0, p.1, env); }
    }
  }

  lemma {:induction false} NextKeepsWindow(r: Receiver)
    requires r.InWindow() && r.CurrentComplete()
    ensures Next(r).InWindow()
  {
    var r' := Next(r);
    forall i | 0 <= i < |r'.ring| && r'.ring[i].Some?
      ensures r'.readSeq <= r'.ring[i].value.seqNum < r'.readSeq + SSL_MAX_HANDSHAKE_FLIGHT
    {
      assert r.ring[i].value.seqNum != r.readSeq;
    }
  }

  /**
   * The one place where the two range checks disagree: a fragment exactly seven messages ahead passes the
   * "too far in the future" test and is then a fatal error instead of being ignored.
   */
  lemma {:induction false} SevenAheadIsFatal(r: Receiver, f: Fragment, env: Env)
    requires r.Shape() && f.Fits() && env.readEpoch != 1
    requires f.hdr.fragOff + f.hdr.fragLen <= f.hdr.msgLen <= env.maxLen
    ensures Accept(r, f, env).1 == Some(InternalError) <==> f.hdr.seqNum == r.readSeq + SSL_MAX_HANDSHAKE_FLIGHT
    ensures f.hdr.seqNum > r.readSeq + SSL_MAX_HANDSHAKE_FLIGHT || f.hdr.seqNum < r.readSeq ==>
              Accept(r, f, env) == (r, None)
  {
  }

  // ---- The receiver in place ----------------------------------------------------------------

  /** `handshake_read_seq`, `incoming_messages` and `has_message`. */
  class Incoming {
    var readSeq: nat
    var hasMessage: bool
    const ring: array<HmFragment?>
    ghost var Repr: set<object>

    ghost predicate Valid()
      reads this, Repr
    {
      && this in Repr && ring in Repr && ring.Length == SSL_MAX_HANDSHAKE_FLIGHT && readSeq < TWO16
      && (forall i :: 0 <= i < ring.Length && ring[i] != null ==>
           && ring[i] in Repr && ring[i].Repr() <= Repr && this !in ring[i].Repr() && ring !in ring[i].Repr()
           && ring[i].Valid())
      && (forall i, j :: 0 <= i < j < ring.Length && ring[i] != null && ring[j] != null ==>
           ring[i].Repr() !! ring[j].Repr())
    }

    ghost function SlotView(i: nat): (m: Option<Hm>)
      reads this, Repr
      requires Valid() && i < ring.Length
      ensures m.Some? ==> m.value.Valid()
    {
      if ring[i] == null then None else Some(ring[i].View())
    }

    ghost function View(): (r: Receiver)
      reads this, Repr
      requires Valid()
      ensures r.Shape()
    {
      Receiver(readSeq, seq(SSL_MAX_HANDSHAKE_FLIGHT, i requires 0 <= i < SSL_MAX_HANDSHAKE_FLIGHT && Valid() reads this, Repr => SlotView(i)))
    }

    constructor ()
      ensures Valid() && fresh(Repr) && !hasMessage
      ensures View() == Receiver(0, seq(SSL_MAX_HANDSHAKE_FLIGHT, _ => None))
    {
      readSeq, hasMessage := 0, false;
      ring := new HmFragment?[SSL_MAX_HANDSHAKE_FLIGHT](_ => null);
      new;
      Repr := {this, ring};
      assert View().ring == seq(SSL_MAX_HANDSHAKE_FLIGHT, _ => None);
    }

    /** `dtls1_get_incoming_message`, past its checks: the slot's message, created if this is its first fragment. */
    method GetSlot(h: Header, junk: nat -> byte) returns (m: HmFragment)
      requires Valid() && h.Fits()
      modifies this`Repr, ring
      ensures Valid() && fresh(Repr - old(Repr)) && m == ring[h.seqNum % SSL_MAX_HANDSHAKE_FLIGHT]
      ensures readSeq == old(readSeq) && hasMessage == old(hasMessage)
      ensures var i := h.seqNum % SSL_MAX_HANDSHAKE_FLIGHT;
              View() == old(View()).(ring := old(View()).ring[i := Some(
                if old(View()).ring[i].Some? then old(View()).ring[i].value else NewHm(h, junk))])
    {
      hide MaskHolds, NewHm, Header.Bytes, Hm.Valid, Hm.Complete;
      ghost var was := View();
      var i := h.seqNum % SSL_MAX_HANDSHAKE_FLIGHT;
      if ring[i] == null {
        var fresh' := new HmFragment.New(h, junk);
        ring[i] := fresh';
        Repr := Repr + fresh'.Repr();
      }
      m := ring[i];
      assert View().ring == was.ring[i := Some(m.View())];
    }

    /** One turn of the loop of `dtls1_open_handshake`. */
    method AcceptFragment(f: Fragment, env: Env) returns (alert: Option<Alert>)
      requires Valid() && f.Fits()
      modifies Repr
      ensures Valid() && fresh(Repr - old(Repr)) && hasMessage == old(hasMessage)
      ensures (View(), alert) == Accept(old(View()), f, env)
    {
      hide MaskHolds, NewHm, Header.Bytes, Received;
      var h := f.hdr;
      if h.fragOff > h.msgLen || h.fragOff + h.fragLen > h.msgLen || h.msgLen > env.maxLen {
        return Some(IllegalParameter);
      }
      if env.readEpoch == 1 && h.seqNum != readSeq { return Some(UnexpectedMessage); }
      if h.seqNum < readSeq || h.seqNum > readSeq + SSL_MAX_HANDSHAKE_FLIGHT { return None; }
      if h.seqNum - readSeq >= SSL_MAX_HANDSHAKE_FLIGHT { return Some(InternalError); }
      ghost var was := View();
      var i := h.seqNum % SSL_MAX_HANDSHAKE_FLIGHT;
      if ring[i] != null && (ring[i].typ != h.typ || ring[i].msgLen != h.msgLen) { return Some(IllegalParameter); }
      NewHmValid(h, env.junk);
      var m := GetSlot(h, env.junk);
      ghost var now := m.View();
      assert View().ring[i] == SlotView(i);
      if m.reassembly != null { CopyInto(i, m, h.fragOff, f.body); }
      assert View().ring == was.ring[i := Some(Absorb(now, f))];
      alert := None;
    }

    /** Copying a fragment body into the incomplete message in slot `i`. */
    method CopyInto(i: nat, m: HmFragment, off: nat, body: seq<byte>)
      requires Valid() && i < ring.Length && ring[i] == m && m.reassembly != null && off + |body| <= m.msgLen
      modifies Repr
      ensures Valid() && Repr == old(Repr) && readSeq == old(readSeq) && hasMessage == old(hasMessage)
      ensures View().ring == old(View()).ring[i := Some(Received(old(m.View()), off, body))]
    {
      hide MaskHolds, Header.Bytes, Hm.Valid, Received;
      ghost var was, repr := View(), m.Repr();
      m.Receive(off, body);
      assert m.Repr() <= repr;
      assert Valid();
      assert View().ring == was.ring[i := Some(m.View())];
    }

    /** The loop of `dtls1_open_handshake` over one handshake record. */
    method OpenHandshake(record: seq<byte>, env: Env) returns (alert: Option<Alert>)
      requires Valid()
      modifies Repr
      ensures Valid() && fresh(Repr - old(Repr)) && hasMessage == old(hasMessage)
      ensures (View(), alert) == AcceptRecord(old(View()), record, env)
    {
      var rest := record;
      while rest != []
        invariant Valid() && fresh(Repr - old(Repr)) && hasMessage == old(hasMessage)
        invariant AcceptRecord(View(), rest, env) == AcceptRecord(old(View()), record, env)
        decreases |rest|
      {
        var p := ParseFragment(rest);
        if p.None? { return Some(DecodeError); }
        ParsedFits(rest);
        alert := AcceptFragment(p.value.0, env);
        if alert.Some? { return; }
        rest := p.value.1;
      }
      alert := None;
    }

    /** `dtls1_get_message`: the current message with its unfragmented header, once it is complete. */
    method GetMessage() returns (raw: Option<seq<byte>>)
      requires Valid()
      modifies this`hasMessage
      ensures Valid() && View() == old(View()) && Repr == old(Repr)
      ensures raw == if View().CurrentComplete() then Some(View().Current().value.raw) else None
      ensures hasMessage == (old(hasMessage) || raw.Some?)
    {
      hide MaskHolds, Header.Bytes, Hm.Valid, Hm.Complete;
      var i := readSeq % SSL_MAX_HANDSHAKE_FLIGHT;
      assert View().ring[i] == SlotView(i);
      if ring[i] == null || ring[i].reassembly != null { return None; }
      hasMessage := true;
      raw := Some(ring[i].data[..]);
      assert View().ring == old(View()).ring;
    }

    /** `dtls1_next_message`. */
    method NextMessage()
      requires Valid() && hasMessage && View().CurrentComplete()
      modifies this`readSeq, this`hasMessage, ring
      ensures Valid() && Repr == old(Repr) && !hasMessage
      ensures View() == Next(old(View()))
    {
      hide MaskHolds, Header.Bytes, Hm.Valid;
      ghost var was := View();
      var i := readSeq % SSL_MAX_HANDSHAKE_FLIGHT;
      ring[i] := null;
      readSeq := (readSeq + 1) % TWO16;
      hasMessage := false;
      assert View().ring == was.ring[i := None];
    }
  }
}

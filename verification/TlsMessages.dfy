/** Handshake messages over TLS records: splitting, buffering and parsing (`s3_both.cc`). */
module TlsMessages {
  import opened Common
  import opened BigEndian

  const SSL3_HM_HEADER_LENGTH: nat := 4

  /** A handshake message with a body short enough for its 24-bit length. */
  datatype Message = Message(typ: byte, body: seq<byte>) {
    predicate Fits() { |body| < 0x100_0000 }

    function Raw(): (s: seq<byte>)
      ensures |s| == SSL3_HM_HEADER_LENGTH + |body|
    {
      [typ] + PutBe(|body|, 3) + body
    }
  }

  function Stream(ms: seq<Message>): seq<byte> {
    if ms == [] then [] else ms[0].Raw() + Stream(ms[1..])
  }

  function Concat(bs: seq<seq<byte>>): seq<byte> {
    if bs == [] then [] else bs[0] + Concat(bs[1..])
  }

  lemma {:induction false} ConcatAppend(a: seq<seq<byte>>, b: seq<seq<byte>>)
    ensures Concat(a + b) == Concat(a) + Concat(b)
  {
    if a == [] {
      assert a + b == b;
    } else {
      assert (a + b)[1..] == a[1..] + b;
      ConcatAppend(a[1..], b);
    }
  }

  // ---- Writing -------------------------------------------------------------------------------

  /** The records of a message: chunks of `max` bytes and a last one with the rest. */
  function Split(rest: seq<byte>, max: nat): (rs: seq<seq<byte>>)
    requires max >= 1
    decreases |rest|
  {
    if |rest| <= max then [rest] else [rest[..max]] + Split(rest[max..], max)
  }

  /** Splitting loses nothing, and no record is longer than the limit or, for a message, empty. */
  lemma {:induction false} SplitCovers(rest: seq<byte>, max: nat)
    requires max >= 1
    ensures Concat(Split(rest, max)) == rest
    ensures forall i :: 0 <= i < |Split(rest, max)| ==> |Split(rest, max)[i]| <= max && (rest != [] ==> Split(rest, max)[i] != [])
    decreases |rest|
  {
    if |rest| > max {
      SplitCovers(rest[max..], max);
      var rs := Split(rest, max);
      assert rs[1..] == Split(rest[max..], max);
      assert rest == rest[..max] + rest[max..];
    } else {
      assert [rest][1..] == [];
      assert Concat([rest]) == rest + [];
    }
  }

  /** `ssl3_add_message`: at least one record, even for an empty message. */
  method AddMessage(flight: seq<seq<byte>>, msg: seq<byte>, max: nat) returns (flight': seq<seq<byte>>)
    requires max >= 1
    ensures flight' == flight + Split(msg, max)
    ensures Concat(flight') == Concat(flight) + msg
  {
    var rest := msg;
    var more := true;
    flight' := flight;
    while more
      invariant more || rest == []
      invariant flight' + (if more then Split(rest, max) else []) == flight + Split(msg, max)
      decreases |rest|, more
    {
      var chunk := if |rest| <= max then rest else rest[..max];
      rest := rest[|chunk|..];
      flight' := flight' + [chunk];
      more := rest != [];
    }
    SplitCovers(msg, max);
    ConcatAppend(flight, Split(msg, max));
  }

  // ---- Reading -------------------------------------------------------------------------------

  /** `parse_message`: the message at the head of the buffer, or how many bytes it takes to see it. */
  datatype Parsed = Incomplete(needed: nat) | Complete(msg: Message, raw: seq<byte>)

  function Parse(buf: seq<byte>): (p: Parsed)
    ensures p.Complete? ==> |p.raw| <= |buf| && p.raw == buf[..|p.raw|] && |p.raw| == SSL3_HM_HEADER_LENGTH + |p.msg.body|
    ensures p.Incomplete? ==> p.needed > |buf|
  {
    if |buf| < SSL3_HM_HEADER_LENGTH then Incomplete(SSL3_HM_HEADER_LENGTH)
    else
      var len := GetBe(buf[1..4]);
      if |buf| < SSL3_HM_HEADER_LENGTH + len then Incomplete(SSL3_HM_HEADER_LENGTH + len)
      else Complete(Message(buf[0], buf[4..4 + len]), buf[..4 + len])
  }

  /** `tls_can_accept_handshake_data`. */
  predicate CanAccept(buf: seq<byte>, maxLen: nat) {
    Parse(buf).Incomplete? && Parse(buf).needed <= SSL3_HM_HEADER_LENGTH + maxLen
  }

  /** A buffer that holds the beginning of a message: parsed exactly once it holds all of it. */
  lemma {:induction false} ParseRaw(m: Message, buf: seq<byte>, rest: seq<byte>)
    requires m.Fits() && |m.Raw()| <= |buf + rest| && buf + rest == m.Raw() + (buf + rest)[|m.Raw()|..]
    ensures |buf| >= |m.Raw()| ==> Parse(buf) == Complete(m, m.Raw())
    ensures |buf| < |m.Raw()| ==> Parse(buf).Incomplete? && Parse(buf).needed <= |m.Raw()|
  {
    Pow2Values();
    BeRoundTrip(|m.body|, 3);
    var all := buf + rest;
    assert all[..|m.Raw()|] == m.Raw();
    if |buf| >= SSL3_HM_HEADER_LENGTH {
      assert buf[0] == m.Raw()[0] && buf[1..4] == all[1..4] == m.Raw()[1..4] == PutBe(|m.body|, 3);
      if |buf| >= |m.Raw()| {
        assert buf[..|m.Raw()|] == all[..|m.Raw()|];
        assert buf[4..|m.Raw()|] == all[4..|m.Raw()|] == m.Raw()[4..] == m.body;
      }
    }
  }

  // ---- Independence of record boundaries -----------------------------------------------------

  /** A record arrives, or the handshake takes a message if one is complete. */
  datatype Event = Arrive(body: seq<byte>) | Take

  datatype Reader = Reader(buf: seq<byte>, taken: seq<Message>)

  function React(r: Reader, e: Event): Reader {
    match e
    case Arrive(body) => r.(buf := r.buf + body)
    case Take =>
      var p := Parse(r.buf);
      if p.Incomplete? then r else Reader(r.buf[|p.raw|..], r.taken + [p.msg])
  }

  function ReactAll(r: Reader, es: seq<Event>): Reader
    decreases |es|
  {
    if es == [] then r else ReactAll(React(r, es[0]), es[1..])
  }

  function Arrived(es: seq<Event>): seq<byte> {
    if es == [] then [] else (if es[0].Arrive? then es[0].body else []) + Arrived(es[1..])
  }

  predicate AllFit(ms: seq<Message>) {
    forall i :: 0 <= i < |ms| ==> ms[i].Fits()
  }

  /** With `k` messages taken, the buffer holds what has arrived of the stream after them. */
  predicate Follows(r: Reader, ms: seq<Message>, k: nat, future: seq<byte>) {
    k <= |ms| && r.taken == ms[..k] && Stream(ms[k..]) == r.buf + future
  }

  /** The next message is taken exactly when all of its bytes have arrived. */
  lemma {:induction false} TakeFollows(r: Reader, ms: seq<Message>, k: nat, future: seq<byte>)
    requires AllFit(ms) && Follows(r, ms, k, future)
    ensures if k < |ms| && |r.buf| >= |ms[k].Raw()| then Follows(React(r, Take), ms, k + 1, future) else React(r, Take) == r
  {
    if k < |ms| {
      var m, all := ms[k], r.buf + future;
      assert ms[k..][1..] == ms[k + 1..];
      assert all == m.Raw() + Stream(ms[k + 1..]);
      assert all[|m.Raw()|..] == Stream(ms[k + 1..]);
      ParseRaw(m, r.buf, future);
      if |r.buf| >= |m.Raw()| {
        assert (r.buf + future)[|m.Raw()|..] == r.buf[|m.Raw()|..] + future;
        assert ms[..k] + [m] == ms[..k + 1];
      }
    } else {
      assert ms[k..] == [];
      assert r.buf + future == [];
    }
  }

  /**
   * However the stream is cut into records and whenever messages are taken, the messages taken are the first ones
   * sent, and the buffer holds exactly the rest of what has arrived.
   */
  lemma {:induction false} MessagesInOrder(r: Reader, es: seq<Event>, ms: seq<Message>, k: nat, future: seq<byte>) returns (n: nat)
    requires AllFit(ms) && Follows(r, ms, k, Arrived(es) + future)
    ensures k <= n && Follows(ReactAll(r, es), ms, n, future)
    decreases |es|
  {
    n := k;
    if es == [] {
      assert Arrived(es) + future == future;
    } else {
      var rest := Arrived(es[1..]) + future;
      match es[0] {
        case Arrive(body) =>
          assert r.buf + (Arrived(es) + future) == (r.buf + body) + rest;
        case Take =>
          assert Arrived(es) + future == rest;
          TakeFollows(r, ms, k, rest);
          if k < |ms| && |r.buf| >= |ms[k].Raw()| { n := k + 1; }
      }
      n := MessagesInOrder(React(r, es[0]), es[1..], ms, n, future);
    }
  }

  /** Once everything has arrived and as many takes have followed, all messages are taken and the buffer is empty. */
  lemma {:induction false} AllMessagesTaken(r: Reader, ms: seq<Message>, k: nat)
    requires AllFit(ms) && Follows(r, ms, k, [])
    ensures var r' := ReactAll(r, seq(|ms| - k, _ => Take)); r'.taken == ms && r'.buf == []
    decreases |ms| - k
  {
    var es: seq<Event> := seq(|ms| - k, _ => Take);
    assert r.buf + [] == r.buf;
    if k == |ms| {
      assert ms[k..] == [] && ms[..k] == ms;
    } else {
      assert ms[k..][1..] == ms[k + 1..];
      assert es[0] == Take && es[1..] == seq(|ms| - (k + 1), _ => Take);
      TakeFollows(r, ms, k, []);
      AllMessagesTaken(React(r, Take), ms, k + 1);
    }
  }

  /** The records of a whole list of messages, each split at a limit of its own. */
  function Records(ms: seq<Message>, max: nat -> nat, k: nat): seq<seq<byte>>
    requires forall i :: max(i) >= 1
  {
    if ms == [] then [] else Split(ms[0].Raw(), max(k)) + Records(ms[1..], max, k + 1)
  }

  lemma {:induction false} RecordsAreStream(ms: seq<Message>, max: nat -> nat, k: nat)
    requires forall i :: max(i) >= 1
    ensures Concat(Records(ms, max, k)) == Stream(ms)
  {
    if ms != [] {
      SplitCovers(ms[0].Raw(), max(k));
      RecordsAreStream(ms[1..], max, k + 1);
      ConcatAppend(Split(ms[0].Raw(), max(k)), Records(ms[1..], max, k + 1));
    }
  }

  function Deliveries(rs: seq<seq<byte>>): seq<Event> {
    seq(|rs|, i requires 0 <= i < |rs| => Arrive(rs[i]))
  }

  lemma {:induction false} DeliveredBuffer(r: Reader, rs: seq<seq<byte>>)
    ensures ReactAll(r, Deliveries(rs)) == r.(buf := r.buf + Concat(rs))
    decreases |rs|
  {
    if rs == [] {
      assert r.buf + [] == r.buf;
    } else {
      assert Deliveries(rs)[1..] == Deliveries(rs[1..]);
      DeliveredBuffer(r.(buf := r.buf + rs[0]), rs[1..]);
      assert r.buf + rs[0] + Concat(rs[1..]) == r.buf + Concat(rs);
    }
  }

  /** Messages split at any positive sizes are read back as they were sent. */
  lemma {:induction false} SplitRoundTrip(ms: seq<Message>, max: nat -> nat)
    requires AllFit(ms) && forall i :: max(i) >= 1
    ensures var r := ReactAll(Reader([], []), Deliveries(Records(ms, max, 0)));
            ReactAll(r, seq(|ms|, _ => Take)) == Reader([], ms)
  {
    RecordsAreStream(ms, max, 0);
    DeliveredBuffer(Reader([], []), Records(ms, max, 0));
    assert [] + Stream(ms) == Stream(ms) && Stream(ms) + [] == Stream(ms) && ms[0..] == ms;
    AllMessagesTaken(Reader(Stream(ms), []), ms, 0);
  }

  /** A reader that takes every complete message before it asks for more never has to refuse a record. */
  lemma {:induction false} NeverRefused(r: Reader, ms: seq<Message>, k: nat, future: seq<byte>, maxLen: nat)
    requires AllFit(ms) && Follows(r, ms, k, future) && React(r, Take) == r && k < |ms| && |ms[k].body| <= maxLen
    ensures CanAccept(r.buf, maxLen)
  {
    var m := ms[k];
    assert ms[k..][1..] == ms[k + 1..];
    assert r.buf + future == m.Raw() + Stream(ms[k + 1..]);
    assert (r.buf + future)[|m.Raw()|..] == Stream(ms[k + 1..]);
    ParseRaw(m, r.buf, future);
    assert Parse(r.buf).Complete? ==> |React(r, Take).buf| < |r.buf|;
  }

  // ---- A peer that sends anything --------------------------------------------------------------

  /** The body length announced at the head of a buffer. */
  function Announced(buf: seq<byte>): nat
    requires |buf| >= 4
  {
    U24(buf[1], buf[2], buf[3])
  }

  /** Whatever is in the buffer: the message at its head is parsed exactly when all of it is there. */
  lemma {:induction false} ParseExactly(buf: seq<byte>)
    ensures Parse(buf) == if |buf| < 4 then Incomplete(4)
                          else if |buf| < 4 + Announced(buf) then Incomplete(4 + Announced(buf))
                          else Complete(Message(buf[0], buf[4..4 + Announced(buf)]), buf[..4 + Announced(buf)])
  {
    if |buf| >= 4 { ThreeByteValue(buf[1..4]); }
  }

  lemma {:induction false} ThreeByteValue(s: seq<byte>)
    requires |s| == 3
    ensures GetBe(s) == U24(s[0], s[1], s[2])
  {
    assert s[..2][..1] == [s[0]] && [s[0]][..0] == [];
    assert GetBe([s[0]]) == s[0];
    assert GetBe(s[..2]) == 256 * (s[0] as int) + s[1] as int;
  }

  /** A record is accepted exactly when the message at hand is incomplete and does not announce more than is accepted. */
  lemma {:induction false} AcceptsExactly(buf: seq<byte>, maxLen: nat)
    ensures CanAccept(buf, maxLen) <==> |buf| < 4 || (|buf| < 4 + Announced(buf) && Announced(buf) <= maxLen)
  {
    hide Parse;
    ParseExactly(buf);
  }

  /** The buffer of a reader that refuses what it cannot accept, and then reads no more. */
  function Fed(r: Option<Reader>, e: Event, maxLen: nat): Option<Reader> {
    if r.None? || (e.Arrive? && !CanAccept(r.value.buf, maxLen)) then None else Some(React(r.value, e))
  }

  function FedAll(r: Option<Reader>, es: seq<Event>, maxLen: nat): Option<Reader>
    decreases |es|
  {
    if es == [] then r else FedAll(Fed(r, es[0], maxLen), es[1..], maxLen)
  }

  /**
   * Whatever a peer sends, in records of at most `recordLen` bytes, the buffer never holds more than one accepted message
   * and one record, less a byte.
   */
  lemma {:induction false} BufferBounded(r: Reader, es: seq<Event>, maxLen: nat, recordLen: nat)
    requires |r.buf| < 4 + maxLen + recordLen || r.buf == []
    requires forall i :: 0 <= i < |es| && es[i].Arrive? ==> |es[i].body| <= recordLen
    ensures var r' := FedAll(Some(r), es, maxLen);
            r'.Some? ==> |r'.value.buf| < 4 + maxLen + recordLen
    decreases |es|
  {
    if es != [] {
      var r1 := Fed(Some(r), es[0], maxLen);
      if r1.Some? { BufferBounded(r1.value, es[1..], maxLen, recordLen); } else { RefusedStays(es[1..], maxLen); }
    }
  }

  lemma {:induction false} RefusedStays(es: seq<Event>, maxLen: nat)
    ensures FedAll(None, es, maxLen) == None
    decreases |es|
  {
    if es != [] { RefusedStays(es[1..], maxLen); }
  }

  // ---- The buffer in place -------------------------------------------------------------------

  class HandshakeBuffer {
    var hsBuf: seq<byte>
    var hasMessage: bool
    ghost var taken: seq<Message>

    ghost function View(): Reader
      reads this
    {
      Reader(hsBuf, taken)
    }

    constructor ()
      ensures View() == Reader([], []) && !hasMessage
    {
      hsBuf, hasMessage, taken := [], false, [];
    }

    /** `ssl3_open_handshake`, on the body of an opened handshake record. */
    method OpenHandshake(body: seq<byte>, maxLen: nat) returns (ok: bool)
      modifies this`hsBuf
      ensures ok == CanAccept(old(hsBuf), maxLen)
      ensures View() == if ok then React(old(View()), Arrive(body)) else old(View())
    {
      var p := Parse(hsBuf);
      if p.Complete? || p.needed > SSL3_HM_HEADER_LENGTH + maxLen { return false; }
      hsBuf := hsBuf + body;
      ok := true;
    }

    /** `ssl3_get_message`: the message stays in the buffer. */
    method GetMessage() returns (m: Option<Message>)
      modifies this`hasMessage
      ensures View() == old(View())
      ensures m == (match Parse(hsBuf) case Complete(msg, _) => Some(msg) case Incomplete(_) => None)
      ensures hasMessage == (old(hasMessage) || m.Some?)
    {
      var p := Parse(hsBuf);
      if p.Incomplete? { return None; }
      hasMessage := true;
      m := Some(p.msg);
    }

    /** `ssl3_next_message`. */
    method NextMessage()
      requires Parse(hsBuf).Complete?
      modifies this
      ensures View() == React(old(View()), Take) && !hasMessage
    {
      var p := Parse(hsBuf);
      hsBuf := hsBuf[|p.raw|..];
      hasMessage := false;
      taken := taken + [p.msg];
    }

    /** `tls_has_unprocessed_handshake_data`: anything beyond the message at hand. */
    method HasUnprocessed() returns (unprocessed: bool)
      ensures unprocessed <==>
        (if hasMessage && Parse(hsBuf).Complete? then hsBuf[|Parse(hsBuf).raw|..] != [] else hsBuf != [])
    {
      var p := Parse(hsBuf);
      var msgLen := if hasMessage && p.Complete? then |p.raw| else 0;
      unprocessed := |hsBuf| > msgLen;
    }
  }
}

/** The reading end of DTLS facing any sender: which records are fatal, and when the keys change. */
module DtlsReader {
  import opened Common
  import opened SslAead
  import opened DtlsFragment
  import opened DtlsRecord
  import opened DtlsReceive
  import DtlsReliable
  import opened DtlsSystem

  // ---- One record ----------------------------------------------------------------------------

  /** What the record at hand opens to, if it does. */
  function AtHand(r: Reader): Outcome
    requires r.record.aead.Valid()
  {
    if r.failed || r.unread == [] then Discarded else OpenRecord(r.record, r.unread).1
  }

  /** The record at hand is a ChangeCipherSpec that is taken: it comes in the clear and consists of one byte 1. */
  predicate TakesChange(r: Reader)
    requires r.record.aead.Valid()
  {
    r.record.aead.kind.Null? && AtHand(r) == Opened(20, [1])
  }

  /** The record at hand is a handshake record with a fatal fragment. */
  predicate BadHandshake(r: Reader, maxLen: nat, junk: nat -> byte)
    requires r.Shape()
  {
    && AtHand(r).Opened? && AtHand(r).typ == 22
    && AcceptRecord(r.ring, AtHand(r).text, Env(r.record.epoch, maxLen, junk)).1.Some?
  }

  /**
   * Reading is fatal for a record that is too long, for application data in the clear, for a ChangeCipherSpec that is
   * encrypted or malformed, for a fatal fragment and for any other type of record; and for nothing else.
   */
  lemma {:induction false} ReadFailsExactly(r: Reader, maxLen: nat, junk: nat -> byte)
    requires r.Shape() && !r.failed
    ensures var r', o := ReadOne(r, maxLen, junk), AtHand(r);
            && (r'.failed <==>
                 || o.RecordOverflow?
                 || (o.Opened? && o.typ == 23 && r.record.aead.kind.Null?)
                 || (o.Opened? && o.typ == 20 && (!r.record.aead.kind.Null? || o.text != [1]))
                 || BadHandshake(r, maxLen, junk)
                 || (o.Opened? && o.typ != 20 && o.typ != 22 && o.typ != 23))
            && r'.sawCcs == (r.sawCcs || TakesChange(r))
            && r'.ring == if o.Opened? && o.typ == 22
                          then AcceptRecord(r.ring, o.text, Env(r.record.epoch, maxLen, junk)).0 else r.ring
  {
    hide OpenRecord, AcceptRecord, Receiver.Shape;
  }

  /** A datagram is taken only when the one before has been read to its end, and then up to the size of the read buffer. */
  lemma {:induction false} LoadsExactly(r: Reader, datagram: seq<byte>)
    ensures Load(r, datagram) ==
            if r.unread == [] && !r.failed then r.(unread := if |datagram| > 16717 then datagram[..16717] else datagram) else r
  {
    assert datagram[..|datagram|] == datagram;
  }

  /** After a fatal error no datagram is looked at, no ChangeCipherSpec taken and no key changed. */
  lemma {:induction false} FailedIsFinal(r: Reader, datagram: seq<byte>, maxLen: nat, junk: nat -> byte, aead: Context)
    requires r.Shape() && r.failed
    ensures Load(r, datagram) == ReadOne(r, maxLen, junk) == TakeChange(r, maxLen, junk) == SwitchRead(r, aead) == r
  {
    hide Receiver.Shape, Context.Valid;
  }

  // ---- Changing keys -------------------------------------------------------------------------

  /** Nothing of what came in the old epoch is left, but for the message that has been handed out. */
  predicate NothingLeft(r: Reader)
    requires r.ring.Shape()
  {
    !r.sawCcs && forall i :: 0 <= i < 7 && r.ring.ring[i].Some? ==> r.hasMessage && i == r.ring.readSeq % 7
  }

  /** The keys change exactly after a ChangeCipherSpec has been taken and when nothing is left; when something is, it is fatal. */
  lemma {:induction false} SwitchExactly(r: Reader, aead: Context)
    requires r.Shape() && !r.failed
    ensures var r' := SwitchRead(r, aead);
            if !r.ccsTaken then r' == r
            else if NothingLeft(r) then
              r' == r.(ccsTaken := false, record := ReadState((r.record.epoch + 1) % TWO16, Window(0, 0), aead))
            else r' == r.(failed := true)
  {
    hide Context.Valid, Hm.Valid;
    if r.Unprocessed() && !r.sawCcs {
      var i :| 0 <= i < |r.ring.ring| && r.ring.ring[i].Some? && !(r.hasMessage && i == r.ring.readSeq % SSL_MAX_HANDSHAKE_FLIGHT);
      assert r.ring.ring[i].Some?;
    }
  }

  /** A message is handed out once: until it is released there is no other. */
  lemma {:induction false} HandedOutOnce(r: Reader)
    requires r.Shape()
    ensures var g := GetMessage(r);
            && (g.1.Some? <==> !r.hasMessage && r.ring.CurrentComplete())
            && (g.1.Some? ==> g.1.value == r.ring.Current().value.raw && g.0.hasMessage && GetMessage(g.0) == (g.0, None))
  {
    hide Hm.Valid, Hm.Complete;
  }

  // ---- Every run -----------------------------------------------------------------------------

  /** A datagram of any content arrives, or the handshake calls. */
  datatype Call =
    | Arrives(datagram: seq<byte>)
    | Reads(maxLen: nat, junk: nat -> byte)
    | TakesCcs(maxLen: nat, junk: nat -> byte)
    | Switches(aead: Context)
    | Gets
    | Releases

  function Answers(r: Reader, call: Call): (r': Reader)
    requires r.Shape() && (call.Switches? ==> call.aead.Valid())
    ensures r'.Shape()
  {
    match call
    case Arrives(datagram) => Load(r, datagram)
    case Reads(maxLen, junk) => ReadOne(r, maxLen, junk)
    case TakesCcs(maxLen, junk) => TakeChange(r, maxLen, junk)
    case Switches(aead) => SwitchReadKeeps(r, aead); SwitchRead(r, aead)
    case Gets => GetMessage(r).0
    case Releases =>
      if !r.hasMessage || !r.ring.CurrentComplete() then r
      else r.(ring := DtlsReceive.Next(r.ring), hasMessage := false)
  }

  /** The call reads a record, and that is a ChangeCipherSpec. */
  predicate ReadsChange(r: Reader, call: Call)
    requires r.Shape()
  {
    (call.Reads? || (call.TakesCcs? && !r.sawCcs)) && TakesChange(r)
  }

  /** How many ChangeCipherSpecs are read. */
  function Changes(r: Reader, calls: seq<Call>): nat
    requires r.Shape() && AllKeysValid(calls)
    decreases |calls|
  {
    if calls == [] then 0 else (if ReadsChange(r, calls[0]) then 1 else 0) + Changes(Answers(r, calls[0]), calls[1..])
  }

  function AnswersAll(r: Reader, calls: seq<Call>): (r': Reader)
    requires r.Shape() && AllKeysValid(calls)
    ensures r'.Shape()
    decreases |calls|
  {
    if calls == [] then r else AnswersAll(Answers(r, calls[0]), calls[1..])
  }

  ghost predicate AllKeysValid(calls: seq<Call>) {
    forall k :: 0 <= k < |calls| && calls[k].Switches? ==> calls[k].aead.Valid()
  }

  /** Every cipher after the first epoch encrypts. */
  predicate Encrypts(calls: seq<Call>) {
    forall k :: 0 <= k < |calls| && calls[k].Switches? ==> !calls[k].aead.kind.Null?
  }

  /** The reader is still in the clear, or it has changed keys and no ChangeCipherSpec will be taken any more. */
  predicate OneChange(r: Reader, changes: nat) {
    if r.record.epoch == 0 then r.record.aead.kind.Null? && (r.sawCcs || r.ccsTaken ==> changes >= 1)
    else r.record.epoch == 1 && !r.record.aead.kind.Null? && !r.sawCcs && !r.ccsTaken && changes >= 1
  }

  lemma {:induction false} AnswerKeeps(r: Reader, call: Call, changes: nat)
    requires r.Shape() && OneChange(r, changes) && (call.Switches? ==> call.aead.Valid() && !call.aead.kind.Null?)
    ensures OneChange(Answers(r, call), changes + if ReadsChange(r, call) then 1 else 0)
  {
    hide OpenRecord, AcceptRecord, Receiver.Shape, Context.Valid, Process, DtlsReceive.Next;
    match call {
      case Reads(maxLen, junk) => if !r.failed { ReadFailsExactly(r, maxLen, junk); }
      case TakesCcs(maxLen, junk) => if !r.failed { ReadFailsExactly(r, maxLen, junk); }
      case Switches(aead) => if !r.failed { SwitchExactly(r, aead); }
      case Arrives(_) =>
      case Gets =>
      case Releases =>
    }
  }

  lemma {:induction false} AnswersKeep(r: Reader, calls: seq<Call>, changes: nat)
    requires r.Shape() && AllKeysValid(calls) && Encrypts(calls) && OneChange(r, changes)
    ensures OneChange(AnswersAll(r, calls), changes + Changes(r, calls))
    decreases |calls|
  {
    hide Answers, OneChange, ReadsChange, Reader.Shape, Context.Valid;
    if calls != [] {
      AnswerKeeps(r, calls[0], changes);
      AnswersKeep(Answers(r, calls[0]), calls[1..], changes + if ReadsChange(r, calls[0]) then 1 else 0);
    }
  }

  /**
   * Whatever datagrams arrive from whomever, a reader changes its keys at most once, and only after it has read a
   * ChangeCipherSpec in the clear: there is no renegotiation.
   */
  lemma {:induction false} ChangesKeysOnce(aead: Context, calls: seq<Call>)
    requires aead.Valid() && aead.kind.Null? && AllKeysValid(calls) && Encrypts(calls)
    ensures var start := Reader(ReadState(0, Window(0, 0), aead), Receiver(0, DtlsReliable.EmptyRing), false, false, [], false, false);
            var r := AnswersAll(start, calls);
            r.record.epoch <= 1 && (r.record.epoch == 1 ==> Changes(start, calls) >= 1)
  {
    var start := Reader(ReadState(0, Window(0, 0), aead), Receiver(0, DtlsReliable.EmptyRing), false, false, [], false, false);
    AnswersKeep(start, calls, 0);
  }
}

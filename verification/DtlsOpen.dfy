/** Reading records that may come from anyone: what is opened, what is dropped, and what the replay window remembers. */
module DtlsOpen {
  import opened Common
  import opened BigEndian
  import opened SslAead
  import opened DtlsRecord

  // ---- One record ----------------------------------------------------------------------------

  /** Whoever made it, and whatever follows it, a record has exactly one of these outcomes. */
  lemma {:induction false} OpensExactly(r: ReadState, typ: byte, version: nat, sequence: seq<byte>, body: seq<byte>, rest: seq<byte>)
    requires r.aead.Valid() && version < TWO16 && |sequence| == 8 && |body| < TWO16
    ensures var o, n := OpenRecord(r, RecordBytes(typ, version, sequence, body) + rest), GetBe(sequence);
            if |body| > 16704 || (if r.aead.kind.Null? then version / 256 != 0xFE else version != RecordVersion(r.aead))
            then o == (r, Discarded, [])
            else if U16(sequence[0], sequence[1]) != r.epoch || r.window.ShouldDiscard(n) then o == (r, Discarded, rest)
            else match r.aead.Open(typ, version, sequence, body)
              case None => o == (r, Discarded, rest)
              case Some(text) =>
                if |text| > 16384 then o == (r, RecordOverflow, rest)
                else o == (r.(window := r.window.Record(n)), Opened(typ, text), rest)
  {
    hide GetBe, PutBe, Window.ShouldDiscard, Window.Record, Context.Open, Context.Valid;
    var input := RecordBytes(typ, version, sequence, body) + rest;
    assert Pow2(16) == TWO16 by { Pow2Values(); }
    BeRoundTrip(version, 2);
    BeRoundTrip(|body|, 2);
    TwoByteValue(sequence[..2]);
    RecordParts(typ, version, sequence, body, rest);
  }

  lemma {:induction false} TwoByteValue(s: seq<byte>)
    requires |s| == 2
    ensures GetBe(s) == U16(s[0], s[1])
  {
    assert s[..1] == [s[0]] && [s[0]][..0] == [];
    assert GetBe([s[0]]) == s[0];
  }

  /** A datagram without a whole header, or with less body than announced, is dropped. */
  lemma {:induction false} ShortIsDropped(r: ReadState, input: seq<byte>)
    requires r.aead.Valid() && input != [] && (|input| < 13 || |input| < 13 + U16(input[11], input[12]))
    ensures OpenRecord(r, input) == (r, Discarded, [])
  {
    hide GetBe, Context.Open, Context.Valid, Window.ShouldDiscard;
    if |input| >= 13 { TwoByteValue(input[11..13]); }
  }

  /** Every input is of one of these two kinds. */
  lemma {:induction false} LaidOrShort(input: seq<byte>) returns (typ: byte, version: nat, sequence: seq<byte>, body: seq<byte>, rest: seq<byte>)
    requires |input| >= 13 && |input| >= 13 + U16(input[11], input[12])
    ensures version < TWO16 && |sequence| == 8 && |body| == U16(input[11], input[12])
    ensures input == RecordBytes(typ, version, sequence, body) + rest && sequence == input[3..11]
  {
    hide PutBe;
    var n := U16(input[11], input[12]);
    typ, version, sequence, body, rest := input[0], U16(input[1], input[2]), input[3..11], input[13..13 + n], input[13 + n..];
    TwoBytesOf(input[1], input[2]);
    TwoBytesOf(input[11], input[12]);
    assert input == [typ] + input[1..3] + sequence + input[11..13] + body + rest;
    assert input[1..3] == [input[1], input[2]] && input[11..13] == [input[11], input[12]];
  }

  lemma {:induction false} TwoBytesOf(a: byte, b: byte)
    ensures PutBe(U16(a, b), 2) == [a, b]
  {
    var v := U16(a, b);
    assert v / 256 == a && v % 256 == b;
    assert PutBe(a, 1) == [a];
  }

  /** The read state changes only when a record is opened, and then it remembers just that record's number. */
  lemma {:induction false} ChangesOnlyWhenOpened(r: ReadState, input: seq<byte>)
    requires r.aead.Valid() && input != []
    ensures var o := OpenRecord(r, input);
            if o.1.Opened? then !r.window.ShouldDiscard(GetBe(input[3..11])) && o.0 == r.(window := r.window.Record(GetBe(input[3..11])))
            else o.0 == r
  {
    hide GetBe, Context.Open, Context.Valid, Window.ShouldDiscard, Window.Record;
    if |input| < 13 || |input| < 13 + U16(input[11], input[12]) {
      ShortIsDropped(r, input);
    } else {
      var typ, version, sequence, body, rest := LaidOrShort(input);
      OpensExactly(r, typ, version, sequence, body, rest);
    }
  }

  // ---- Any sequence of datagrams -------------------------------------------------------------

  /** The numbers of the records opened, reading datagram after datagram, each record by record. */
  function OpenedNumbers(r: ReadState, datagrams: seq<seq<byte>>): seq<nat>
    requires r.aead.Valid()
    decreases |datagrams|, if datagrams == [] then 0 else |datagrams[0]|
  {
    if datagrams == [] then []
    else if datagrams[0] == [] then OpenedNumbers(r, datagrams[1..])
    else
      var o := OpenRecord(r, datagrams[0]);
      (if o.1.Opened? then [GetBe(datagrams[0][3..11])] else []) + OpenedNumbers(o.0, [o.2] + datagrams[1..])
  }

  /** Whether a whole record with an acceptable header begins the datagram. */
  predicate HeaderOk(aead: Context, d: seq<byte>) {
    && |d| >= 13 && |d| >= 13 + U16(d[11], d[12]) && U16(d[11], d[12]) <= 16704
    && if aead.kind.Null? then d[1] == 0xFE else U16(d[1], d[2]) == RecordVersion(aead)
  }

  /** Whether the body of that record is authentic under its header, and not too long. */
  predicate BodyOpens(aead: Context, d: seq<byte>)
    requires aead.Valid() && HeaderOk(aead, d)
  {
    var text := aead.Open(d[0], U16(d[1], d[2]), d[3..11], d[13..13 + U16(d[11], d[12])]);
    text.Some? && |text.value| <= 16384
  }

  /**
   * The records of the epoch that arrive, and whether each opens. This depends on the keys and the bytes alone, not on
   * what has been received before.
   */
  function ArrivalsIn(epoch: nat, aead: Context, datagrams: seq<seq<byte>>): seq<Arrival>
    requires aead.Valid()
    decreases |datagrams|, if datagrams == [] then 0 else |datagrams[0]|
  {
    if datagrams == [] then []
    else
      var d := datagrams[0];
      if d == [] || !HeaderOk(aead, d) then ArrivalsIn(epoch, aead, datagrams[1..])
      else
        (if U16(d[3], d[4]) == epoch then [Arrival(GetBe(d[3..11]), BodyOpens(aead, d))] else [])
        + ArrivalsIn(epoch, aead, [d[13 + U16(d[11], d[12])..]] + datagrams[1..])
  }

  lemma {:induction false} OneRecord(r: ReadState, d: seq<byte>)
    requires r.aead.Valid() && d != []
    ensures var o, n := OpenRecord(r, d), if |d| >= 13 then GetBe(d[3..11]) else 0;
            if !HeaderOk(r.aead, d) then o == (r, Discarded, [])
            else
              && o.2 == d[13 + U16(d[11], d[12])..]
              && (if U16(d[3], d[4]) != r.epoch || r.window.ShouldDiscard(n) || !BodyOpens(r.aead, d)
                  then o.0 == r && !o.1.Opened? else o.0 == r.(window := r.window.Record(n)) && o.1.Opened?)
  {
    hide GetBe, Context.Open, Context.Valid, Window.ShouldDiscard, Window.Record;
    if |d| < 13 || |d| < 13 + U16(d[11], d[12]) {
      ShortIsDropped(r, d);
    } else {
      var typ, version, sequence, body, rest := LaidOrShort(d);
      HeaderBytes(typ, version, sequence, body, rest);
      OpensExactly(r, typ, version, sequence, body, rest);
    }
  }

  lemma {:induction false} HeaderBytes(typ: byte, version: nat, sequence: seq<byte>, body: seq<byte>, rest: seq<byte>)
    requires version < TWO16 && |sequence| == 8 && |body| < TWO16
    ensures var d := RecordBytes(typ, version, sequence, body) + rest;
            && d[0] == typ && U16(d[1], d[2]) == version && version / 256 == d[1] && d[3..11] == sequence
            && U16(d[11], d[12]) == |body| && d[13..13 + |body|] == body && d[13 + |body|..] == rest
  {
    hide PutBe;
    TwoBytes(version);
    TwoBytes(|body|);
    var v, n := PutBe(version, 2), PutBe(|body|, 2);
    var d := RecordBytes(typ, version, sequence, body) + rest;
    assert d[0] == typ && d[1] == v[0] && d[2] == v[1] && d[11] == n[0] && d[12] == n[1];
    assert d[3..11] == sequence && d[13..13 + |body|] == body && d[13 + |body|..] == rest;
    assert version / 256 == d[1];
  }

  /**
   * Over any sequence of datagrams from anyone, the records opened are those that the replay window accepts of the
   * records that arrive.
   */
  lemma {:induction false} OpensWhatWindowAccepts(r: ReadState, datagrams: seq<seq<byte>>)
    requires r.aead.Valid()
    ensures OpenedNumbers(r, datagrams) == AcceptedRun(r.window, ArrivalsIn(r.epoch, r.aead, datagrams))
    decreases |datagrams|, if datagrams == [] then 0 else |datagrams[0]|
  {
    hide GetBe, Context.Valid, Window.ShouldDiscard, Window.Record, OpenRecord, BodyOpens;
    if datagrams != [] {
      var d, more := datagrams[0], datagrams[1..];
      if d == [] {
        OpensWhatWindowAccepts(r, more);
      } else {
        OneRecord(r, d);
        var o := OpenRecord(r, d);
        OpensWhatWindowAccepts(o.0, [o.2] + more);
        if !HeaderOk(r.aead, d) { NothingLeft(r, more); }
        else {
          ArrivalStep(r, d, more);
          var rest := OpenedNumbers(o.0, [o.2] + more);
          assert rest == AcceptedRun(o.0.window, ArrivalsIn(r.epoch, r.aead, [o.2] + more));
          assert [] + rest == rest;
          assert ArrivalsIn(r.epoch, r.aead, datagrams)
              == (if U16(d[3], d[4]) == r.epoch then [Arrival(GetBe(d[3..11]), BodyOpens(r.aead, d))] else [])
                 + ArrivalsIn(r.epoch, r.aead, [o.2] + more);
          assert OpenedNumbers(r, datagrams) == (if o.1.Opened? then [GetBe(d[3..11])] else []) + rest;
        }
      }
    }
  }

  lemma {:induction false} NothingLeft(r: ReadState, more: seq<seq<byte>>)
    requires r.aead.Valid()
    ensures ArrivalsIn(r.epoch, r.aead, [[]] + more) == ArrivalsIn(r.epoch, r.aead, more)
  {
    assert ([[]] + more)[1..] == more;
  }

  lemma {:induction false} ArrivalStep(r: ReadState, d: seq<byte>, more: seq<seq<byte>>)
    requires r.aead.Valid() && d != [] && HeaderOk(r.aead, d)
    ensures var rest := ArrivalsIn(r.epoch, r.aead, [d[13 + U16(d[11], d[12])..]] + more);
            var n := GetBe(d[3..11]);
            AcceptedRun(r.window, (if U16(d[3], d[4]) == r.epoch then [Arrival(n, BodyOpens(r.aead, d))] else []) + rest)
            == if U16(d[3], d[4]) != r.epoch || r.window.ShouldDiscard(n) || !BodyOpens(r.aead, d) then AcceptedRun(r.window, rest)
               else [n] + AcceptedRun(r.window.Record(n), rest)
  {
    hide GetBe, Context.Valid, Window.ShouldDiscard, Window.Record, BodyOpens, ArrivalsIn;
    var rest := ArrivalsIn(r.epoch, r.aead, [d[13 + U16(d[11], d[12])..]] + more);
    assert [] + rest == rest;
    if U16(d[3], d[4]) == r.epoch {
      var all := [Arrival(GetBe(d[3..11]), BodyOpens(r.aead, d))] + rest;
      assert all[1..] == rest;
    }
  }

  /** No number is opened twice in an epoch, whatever datagrams come from whomever. */
  lemma {:induction false} OpenedAtMostOnce(epoch: nat, aead: Context, datagrams: seq<seq<byte>>)
    requires aead.Valid()
    ensures NoDuplicates(OpenedNumbers(ReadState(epoch, Window(0, 0), aead), datagrams))
  {
    OpensWhatWindowAccepts(ReadState(epoch, Window(0, 0), aead), datagrams);
    AcceptedAtMostOnce(ArrivalsIn(epoch, aead, datagrams));
  }

  /** The arrivals that open. */
  function Genuine(arrivals: seq<Arrival>): seq<Arrival> {
    if arrivals == [] then [] else (if arrivals[0].opens then [arrivals[0]] else []) + Genuine(arrivals[1..])
  }

  /** Records that do not open make no difference to what is opened of the others: it is as if they had never come. */
  lemma {:induction false} ForgedChangesNothing(w: Window, arrivals: seq<Arrival>)
    ensures AcceptedRun(w, arrivals) == AcceptedRun(w, Genuine(arrivals))
    decreases |arrivals|
  {
    if arrivals != [] {
      var a, rest := arrivals[0], arrivals[1..];
      if a.opens {
        assert Genuine(arrivals)[1..] == Genuine(rest);
        if w.ShouldDiscard(a.number) { ForgedChangesNothing(w, rest); } else { ForgedChangesNothing(w.Record(a.number), rest); }
      } else {
        assert [] + Genuine(rest) == Genuine(rest);
        ForgedChangesNothing(w, rest);
      }
    }
  }
}

/** Application data writes that may have to be retried (`s3_pkt.cc`). */
module TlsWrites {
  import opened Common

  const SSL3_RT_MAX_PLAIN_LENGTH: nat := 16384

  /** The limit on a record's plaintext, the two write modes, and the record layer's sealing. */
  datatype Params = Params(maxFragment: nat, partialWrite: bool, movingBuffer: bool, seal: (nat, seq<byte>) -> seq<byte>) {
    predicate Valid() { 1 <= maxFragment <= SSL3_RT_MAX_PLAIN_LENGTH }
  }

  /**
   * The write side: how much of the caller's buffer is behind, the record that may be pending, what is still to be
   * flushed, and the handshake flight. `wire` is what the BIO took; `made` and `sealed` are logs of every byte
   * produced and of every plaintext sealed, in order.
   */
  datatype Writer = Writer(
    wnum: nat, pending: bool, wpendTot: nat, wpendBuf: int, buffer: seq<byte>, flight: seq<byte>, flightOffset: nat,
    wire: seq<byte>, made: seq<byte>, sealed: seq<seq<byte>>, count: nat)
  {
    /** A pending record has at least a byte; nothing is pending once the buffer of a success is empty. */
    predicate Valid() {
      flightOffset <= |flight| && (pending ==> wpendTot >= 1)
    }

    /** Everything produced is on the wire, in the buffer or in the flight, in the order in which it was produced. */
    predicate InOrder()
      requires flightOffset <= |flight|
    {
      made == wire + buffer + flight[flightOffset..]
    }
  }

  /** What a turn meets: how much the BIO takes, and whether sealing works. */
  datatype Turn = Turn(takes: nat, sealOk: bool)

  function Min(a: nat, b: nat): nat { if a <= b then a else b }

  /** `ssl_write_buffer_flush`: done when the BIO has taken the whole buffer. */
  function Flush(w: Writer, t: Turn): (Writer, bool) {
    var n := Min(t.takes, |w.buffer|);
    (w.(wire := w.wire + w.buffer[..n], buffer := w.buffer[n..]), n == |w.buffer|)
  }

  /** `ssl3_write_pending`; -1 stands for an error or a BIO that would block. */
  function WritePending(p: Params, w: Writer, addr: int, len: nat, t: Turn): (r: (Writer, int))
    requires w.Valid() && w.pending
    ensures r.0.Valid() && (r.1 > 0 ==> r.1 == w.wpendTot <= len)
  {
    if w.wpendTot > len || (!p.movingBuffer && w.wpendBuf != addr) then (w, -1)
    else
      var f := Flush(w, t);
      if !f.1 then (f.0, -1) else (f.0.(pending := false), w.wpendTot as int)
  }

  /** The buffer with the unflushed flight moved in: it must come before the record sealed next. */
  function TakeFlight(w: Writer): Writer
    requires w.Valid()
  {
    w.(buffer := w.buffer + w.flight[w.flightOffset..], flight := [], flightOffset := 0)
  }

  function Sealed(p: Params, w: Writer, addr: int, text: seq<byte>): Writer {
    var record := p.seal(w.count, text);
    w.(buffer := w.buffer + record, made := w.made + record, sealed := w.sealed + [text], count := w.count + 1,
       pending := true, wpendTot := |text|, wpendBuf := addr)
  }

  /** `do_ssl3_write` on application data. */
  function DoWrite(p: Params, w: Writer, addr: int, text: seq<byte>, t: Turn): (r: (Writer, int))
    requires w.Valid()
    ensures r.0.Valid() && -1 <= r.1 <= |text|
  {
    if w.pending then WritePending(p, w, addr, |text|, t)
    else if |text| > SSL3_RT_MAX_PLAIN_LENGTH || |w.buffer| > 0 then (w, -1)
    else if text == [] then (w, 0)
    else if !t.sealOk then (TakeFlight(w), -1)
    else WritePending(p, Sealed(p, TakeFlight(w), addr, text), addr, |text|, t)
  }

  /** The loop of `ssl3_write_app_data`, from `tot` bytes on. */
  function WriteLoop(p: Params, w: Writer, addr: int, data: seq<byte>, tot: nat, turns: nat -> Turn, k: nat): (r: (Writer, int))
    requires p.Valid() && w.Valid() && tot <= |data|
    ensures r.0.Valid()
    decreases |data| - tot
  {
    var n := |data| - tot;
    var nw := Min(n, p.maxFragment);
    var r := DoWrite(p, w, addr + tot, data[tot..tot + nw], turns(k));
    if r.1 <= 0 then (r.0.(wnum := tot), r.1)
    else if r.1 == n || p.partialWrite then (r.0, tot + r.1)
    else WriteLoop(p, r.0, addr, data, tot + r.1, turns, k + 1)
  }

  /** `ssl3_write_app_data`. A length below what is behind loses the place. */
  function WriteAppData(p: Params, w: Writer, addr: int, data: seq<byte>, turns: nat -> Turn): (r: (Writer, int))
    requires p.Valid() && w.Valid()
    ensures r.0.Valid()
  {
    var w0 := w.(wnum := 0);
    if |data| < w.wnum then (w0, -1) else WriteLoop(p, w0, addr, data, w.wnum, turns, 0)
  }

  /** `ssl3_flush_flight`: what is in the write buffer goes first. */
  function FlushFlight(w: Writer, t: Turn, takes: nat): (r: (Writer, bool))
    requires w.Valid()
    ensures r.0.Valid()
  {
    if w.flight == [] then (w, true)
    else
      var f := Flush(w, t);
      if !f.1 then (f.0, false)
      else
        var n := Min(takes, |w.flight| - w.flightOffset);
        var w1 := f.0.(wire := f.0.wire + w.flight[w.flightOffset..w.flightOffset + n], flightOffset := w.flightOffset + n);
        if w1.flightOffset < |w1.flight| then (w1, false) else (w1.(flight := [], flightOffset := 0), true)
  }

  // ---- Nothing resealed, nothing skipped -----------------------------------------------------

  function Concat(bs: seq<seq<byte>>): seq<byte> {
    if bs == [] then [] else Concat(bs[..|bs| - 1]) + bs[|bs| - 1]
  }

  predicate IsPrefix<T(==)>(a: seq<T>, b: seq<T>) {
    |a| <= |b| && a == b[..|a|]
  }

  /** How much of the caller's buffer has been sealed when `tot` bytes of it are behind. */
  function Done(w: Writer, tot: nat): nat {
    tot + if w.pending then w.wpendTot else 0
  }

  /**
   * In the middle of writing `data`, after `base`: what has been sealed is `base` and the part of `data` that is behind
   * or pending.
   */
  predicate Consistent(w: Writer, base: seq<byte>, data: seq<byte>, tot: nat) {
    w.Valid() && Done(w, tot) <= |data| && Concat(w.sealed) == base + data[..Done(w, tot)]
  }

  lemma {:induction false} SealedConsistent(p: Params, w: Writer, base: seq<byte>, data: seq<byte>, tot: nat, addr: int, len: nat)
    requires Consistent(w, base, data, tot) && !w.pending && 1 <= len <= |data| - tot
    ensures Consistent(Sealed(p, TakeFlight(w), addr, data[tot..tot + len]), base, data, tot)
  {
    var w' := Sealed(p, TakeFlight(w), addr, data[tot..tot + len]);
    assert w'.sealed[..|w'.sealed| - 1] == w.sealed;
    assert base + data[..tot] + data[tot..tot + len] == base + data[..tot + len];
  }

  lemma {:induction false} PendingConsistent(p: Params, w: Writer, base: seq<byte>, data: seq<byte>, tot: nat, addr: int, len: nat, t: Turn)
    requires Consistent(w, base, data, tot) && w.pending
    ensures var r := WritePending(p, w, addr, len, t);
            && Consistent(r.0, base, data, if r.1 > 0 then tot + r.1 else tot)
            && (r.1 > 0 ==> !r.0.pending && r.0.buffer == [])
            && r.0.flight == w.flight && r.0.wnum == w.wnum
  {
  }

  lemma {:induction false} DoWriteConsistent(p: Params, w: Writer, base: seq<byte>, data: seq<byte>, tot: nat, addr: int, len: nat, t: Turn)
    requires Consistent(w, base, data, tot) && tot + len <= |data|
    ensures var r := DoWrite(p, w, addr, data[tot..tot + len], t);
            && Consistent(r.0, base, data, if r.1 > 0 then tot + r.1 else tot)
            && (r.1 > 0 ==> !r.0.pending && r.0.buffer == []) && r.0.wnum == w.wnum
  {
    hide Consistent, WritePending;
    assert w.Valid() by { ConsistentValid(w, base, data, tot); }
    var text := data[tot..tot + len];
    if w.pending {
      PendingConsistent(p, w, base, data, tot, addr, len, t);
    } else if |text| <= SSL3_RT_MAX_PLAIN_LENGTH && w.buffer == [] && text != [] {
      if t.sealOk {
        SealedConsistent(p, w, base, data, tot, addr, len);
        PendingConsistent(p, Sealed(p, TakeFlight(w), addr, text), base, data, tot, addr, len, t);
      } else {
        FlightConsistent(w, base, data, tot);
      }
    }
  }

  lemma {:induction false} ConsistentValid(w: Writer, base: seq<byte>, data: seq<byte>, tot: nat)
    requires Consistent(w, base, data, tot)
    ensures w.Valid() && tot <= |data|
  {
  }

  lemma {:induction false} FlightConsistent(w: Writer, base: seq<byte>, data: seq<byte>, tot: nat)
    requires Consistent(w, base, data, tot)
    ensures Consistent(TakeFlight(w), base, data, tot)
  {
  }

  lemma {:induction false} LoopConsistent(p: Params, w: Writer, base: seq<byte>, addr: int, data: seq<byte>, tot: nat, turns: nat -> Turn, k: nat)
    requires p.Valid() && Consistent(w, base, data, tot) && w.wnum == 0
    ensures var r := WriteLoop(p, w, addr, data, tot, turns, k);
            if r.1 > 0
            then r.1 <= |data| && r.0.wnum == 0 && !r.0.pending && r.0.buffer == [] && Consistent(r.0, base, data, r.1)
            else Consistent(r.0, base, data, r.0.wnum)
    decreases |data| - tot
  {
    hide Consistent, DoWrite;
    ConsistentValid(w, base, data, tot);
    var n := |data| - tot;
    var nw := Min(n, p.maxFragment);
    var r := DoWrite(p, w, addr + tot, data[tot..tot + nw], turns(k));
    DoWriteConsistent(p, w, base, data, tot, addr + tot, nw, turns(k));
    if r.1 <= 0 {
      ConsistentFrame(r.0, base, data, tot);
    } else if r.1 != n && !p.partialWrite {
      LoopConsistent(p, r.0, base, addr, data, tot + r.1, turns, k + 1);
    }
  }

  lemma {:induction false} ConsistentFrame(w: Writer, base: seq<byte>, data: seq<byte>, tot: nat)
    requires Consistent(w, base, data, tot)
    ensures Consistent(w.(wnum := tot), base, data, tot) && Consistent(w.(wnum := 0), base, data, tot)
  {
  }

  /**
   * A call that presents the same bytes, with at least as many as have been sealed: it either succeeds with a count
   * `k` and has sealed and flushed exactly the first `k` bytes, or it leaves everything consistent for the next retry.
   */
  lemma {:induction false} RetryContinues(p: Params, w: Writer, base: seq<byte>, addr: int, data: seq<byte>, turns: nat -> Turn)
    requires p.Valid() && Consistent(w, base, data, w.wnum)
    ensures var r := WriteAppData(p, w, addr, data, turns);
            if r.1 > 0
            then r.1 <= |data| && r.0.wnum == 0 && !r.0.pending && r.0.buffer == [] && Concat(r.0.sealed) == base + data[..r.1]
            else Consistent(r.0, base, data, r.0.wnum)
  {
    ConsistentFrame(w, base, data, w.wnum);
    LoopConsistent(p, w.(wnum := 0), base, addr, data, w.wnum, turns, 0);
  }

  /**
   * Exactly when a call keeps its place: given bytes that agree with those presented before, the call succeeds having
   * sealed just what it reports, or the place is kept, if and only if the length is not below what is already behind.
   */
  lemma {:induction false} PlaceKeptExactly(p: Params, w: Writer, base: seq<byte>, addr: int, before: seq<byte>, data: seq<byte>, turns: nat -> Turn)
    requires p.Valid() && Consistent(w, base, before, w.wnum) && (IsPrefix(data, before) || IsPrefix(before, data))
    ensures var r := WriteAppData(p, w, addr, data, turns);
            |data| >= w.wnum <==>
            || (0 < r.1 <= |data| && Concat(r.0.sealed) == base + data[..r.1])
            || Consistent(r.0, base, before, r.0.wnum) || Consistent(r.0, base, data, r.0.wnum)
  {
    var r := WriteAppData(p, w, addr, data, turns);
    if |data| < w.wnum {
      assert |Concat(w.sealed)| == |base| + Done(w, w.wnum);
    } else if Done(w, w.wnum) <= |data| {
      assert data[..Done(w, w.wnum)] == before[..Done(w, w.wnum)];
      RetryContinues(p, w, base, addr, data, turns);
    } else {
      ShortRetry(p, w.(wnum := 0), addr, data, w.wnum, turns);
      assert r.0 == w;
    }
  }

  /** A retry shorter than the pending record is refused and changes nothing. */
  lemma {:induction false} ShortRetry(p: Params, w: Writer, addr: int, data: seq<byte>, tot: nat, turns: nat -> Turn)
    requires p.Valid() && w.Valid() && w.pending && tot <= |data| < tot + w.wpendTot
    ensures WriteLoop(p, w, addr, data, tot, turns, 0) == (w.(wnum := tot), -1)
  {
  }

  // ---- Which retries are taken up -------------------------------------------------------------

  /** A retry that goes on with the pending record: long enough for it, and at the same place unless the buffer may move. */
  predicate GoodRetry(p: Params, w: Writer, addr: int, data: seq<byte>) {
    && w.wnum <= |data| && w.wpendTot <= Min(|data| - w.wnum, p.maxFragment)
    && (p.movingBuffer || w.wpendBuf == addr + w.wnum)
  }

  /** Any other retry is refused and leaves everything as it was, but for the place when the length is below it. */
  lemma {:induction false} BadRetryRefused(p: Params, w: Writer, addr: int, data: seq<byte>, turns: nat -> Turn)
    requires p.Valid() && w.Valid() && w.pending && !GoodRetry(p, w, addr, data)
    ensures WriteAppData(p, w, addr, data, turns) == (if |data| < w.wnum then w.(wnum := 0) else w, -1)
  {
    if |data| >= w.wnum {
      var w0, nw := w.(wnum := 0), Min(|data| - w.wnum, p.maxFragment);
      assert DoWrite(p, w0, addr + w.wnum, data[w.wnum..w.wnum + nw], turns(0)) == (w0, -1);
    }
  }

  /** A good retry first flushes what is pending: as much of it as the BIO takes. */
  lemma {:induction false} GoodRetryFlushes(p: Params, w: Writer, addr: int, data: seq<byte>, turns: nat -> Turn)
    requires p.Valid() && w.Valid() && w.pending && GoodRetry(p, w, addr, data)
    requires turns(0).takes < |w.buffer|
    ensures var n := turns(0).takes;
            WriteAppData(p, w, addr, data, turns) == (w.(wire := w.wire + w.buffer[..n], buffer := w.buffer[n..]), -1)
  {
    var w0, nw := w.(wnum := 0), Min(|data| - w.wnum, p.maxFragment);
    assert DoWrite(p, w0, addr + w.wnum, data[w.wnum..w.wnum + nw], turns(0))
        == (w0.(wire := w.wire + w.buffer[..turns(0).takes], buffer := w.buffer[turns(0).takes..]), -1);
  }

  /** A record that is left pending is that of the text at hand. */
  lemma {:induction false} RecordRetriable(p: Params, w: Writer, addr: int, text: seq<byte>, t: Turn)
    requires w.Valid() && (w.pending ==> w.wpendTot <= |text| && (p.movingBuffer || w.wpendBuf == addr))
    ensures var r := DoWrite(p, w, addr, text, t);
            && (r.1 > 0 ==> !r.0.pending)
            && (r.0.pending ==> r.0.wpendTot <= |text| && (p.movingBuffer || r.0.wpendBuf == addr))
  {
  }

  lemma {:induction false} LoopRetriable(p: Params, w: Writer, addr: int, data: seq<byte>, tot: nat, turns: nat -> Turn, k: nat)
    requires p.Valid() && w.Valid() && tot <= |data| && (w.pending ==> GoodRetry(p, w.(wnum := tot), addr, data))
    ensures var r := WriteLoop(p, w, addr, data, tot, turns, k);
            r.1 <= 0 ==> r.0.wnum <= |data| && (r.0.pending ==> GoodRetry(p, r.0, addr, data))
    decreases |data| - tot
  {
    hide DoWrite;
    var n := |data| - tot;
    var nw := Min(n, p.maxFragment);
    var r := DoWrite(p, w, addr + tot, data[tot..tot + nw], turns(k));
    RecordRetriable(p, w, addr + tot, data[tot..tot + nw], turns(k));
    if r.1 > 0 && r.1 != n && !p.partialWrite { LoopRetriable(p, r.0, addr, data, tot + r.1, turns, k + 1); }
  }

  /** A call that has to be made again is taken up when it is made again with the same arguments. */
  lemma {:induction false} SameCallIsTakenUp(p: Params, w: Writer, addr: int, data: seq<byte>, turns: nat -> Turn)
    requires p.Valid() && w.Valid() && w.wnum <= |data| && (w.pending ==> GoodRetry(p, w, addr, data))
    ensures var r := WriteAppData(p, w, addr, data, turns);
            r.1 <= 0 ==> r.0.wnum <= |data| && (r.0.pending ==> GoodRetry(p, r.0, addr, data))
  {
    LoopRetriable(p, w.(wnum := 0), addr, data, w.wnum, turns, 0);
  }

  /** The BIO takes whatever may have to be flushed at once, and sealing works. */
  ghost predicate Flows(p: Params, w: Writer, turns: nat -> Turn, cap: nat) {
    && (forall c, text :: |p.seal(c, text)| <= cap)
    && forall k :: turns(k).sealOk && turns(k).takes >= |w.buffer| + |w.flight| + cap
  }

  lemma {:induction false} RecordCompletes(p: Params, w: Writer, addr: int, text: seq<byte>, t: Turn, cap: nat)
    requires w.Valid() && text != [] && |text| <= SSL3_RT_MAX_PLAIN_LENGTH && |p.seal(w.count, text)| <= cap
    requires t.sealOk && t.takes >= |w.buffer| + |w.flight| + cap
    requires if w.pending then w.wpendTot <= |text| && (p.movingBuffer || w.wpendBuf == addr) else w.buffer == []
    ensures var r := DoWrite(p, w, addr, text, t);
            0 < r.1 <= |text| && !r.0.pending && r.0.buffer == [] && |r.0.flight| <= |w.flight| && r.0.Valid()
  {
    hide Writer.InOrder;
    if !w.pending {
      var w1 := Sealed(p, TakeFlight(w), addr, text);
      assert |w1.buffer| <= |w.flight| + cap;
      assert DoWrite(p, w, addr, text, t) == WritePending(p, w1, addr, |text|, t);
    }
  }

  lemma {:induction false} LoopCompletes(p: Params, w: Writer, addr: int, data: seq<byte>, tot: nat, turns: nat -> Turn, k: nat, cap: nat)
    requires p.Valid() && w.Valid() && tot < |data| && Flows(p, w, turns, cap)
    requires if w.pending then GoodRetry(p, w.(wnum := tot), addr, data) else w.buffer == []
    ensures var r := WriteLoop(p, w, addr, data, tot, turns, k);
            (if p.partialWrite then tot < r.1 <= |data| else r.1 == |data|) && !r.0.pending && r.0.buffer == []
    decreases |data| - tot
  {
    hide DoWrite;
    var n := |data| - tot;
    var nw := Min(n, p.maxFragment);
    var r := DoWrite(p, w, addr + tot, data[tot..tot + nw], turns(k));
    RecordCompletes(p, w, addr + tot, data[tot..tot + nw], turns(k), cap);
    if r.1 != n && !p.partialWrite { LoopCompletes(p, r.0, addr, data, tot + r.1, turns, k + 1, cap); }
  }

  /** Once the BIO takes everything, a call on data not yet behind reports all of it, or a part where that is allowed. */
  lemma {:induction false} CallCompletes(p: Params, w: Writer, addr: int, data: seq<byte>, turns: nat -> Turn, cap: nat)
    requires p.Valid() && w.Valid() && w.wnum < |data| && Flows(p, w, turns, cap)
    requires if w.pending then GoodRetry(p, w, addr, data) else w.buffer == []
    ensures var r := WriteAppData(p, w, addr, data, turns);
            (if p.partialWrite then w.wnum < r.1 <= |data| else r.1 == |data|) && !r.0.pending && r.0.buffer == []
  {
    LoopCompletes(p, w.(wnum := 0), addr, data, w.wnum, turns, 0, cap);
  }

  /** A buffer that holds bytes of no pending record stops every write, and flushing the handshake does not empty it. */
  lemma {:induction false} LeftoverStops(p: Params, w: Writer, addr: int, data: seq<byte>, turns: nat -> Turn, t: Turn, takes: nat)
    requires p.Valid() && w.Valid() && !w.pending && w.buffer != [] && w.flight == [] && w.wnum <= |data|
    ensures WriteAppData(p, w, addr, data, turns) == (w, -1) && FlushFlight(w, t, takes) == (w, true)
  {
    var w0, nw := w.(wnum := 0), Min(|data| - w.wnum, p.maxFragment);
    assert DoWrite(p, w0, addr + w.wnum, data[w.wnum..w.wnum + nw], turns(0)) == (w0, -1);
  }

  /**
   * Handshake data is moved into the buffer before the record after it is sealed. When sealing fails it stays there, and
   * then no application data is written any more: exactly when there was some, the same call fails even if sealing would work.
   */
  lemma {:induction false} SealFailureSticks(p: Params, w: Writer, addr: int, data: seq<byte>, fails: nat -> Turn, works: nat -> Turn, cap: nat)
    requires p.Valid() && w.Valid() && !w.pending && w.buffer == [] && w.wnum < |data| && !fails(0).sealOk
    requires Flows(p, w, works, cap)
    ensures var r := WriteAppData(p, w, addr, data, fails);
            && r == (w.(buffer := w.flight[w.flightOffset..], flight := [], flightOffset := 0), -1)
            && (WriteAppData(p, r.0, addr, data, works).1 == -1 <==> w.flight[w.flightOffset..] != [])
  {
    var w0, nw := w.(wnum := 0), Min(|data| - w.wnum, p.maxFragment);
    assert [] + w.flight[w.flightOffset..] == w.flight[w.flightOffset..];
    assert DoWrite(p, w0, addr + w.wnum, data[w.wnum..w.wnum + nw], fails(0)) == (TakeFlight(w0), -1);
    var r := TakeFlight(w);
    if r.buffer != [] { LeftoverStops(p, r, addr, data, works, works(0), 0); } else { CallCompletes(p, r, addr, data, works, cap); }
  }

  /** Flushing the handshake reports success exactly when none was left or the BIO took the write buffer and all of the flight. */
  lemma {:induction false} FlightFlushedExactly(w: Writer, t: Turn, takes: nat)
    requires w.Valid()
    ensures var r := FlushFlight(w, t, takes);
            && (r.1 <==> w.flight == [] || (t.takes >= |w.buffer| && takes >= |w.flight| - w.flightOffset))
            && (r.1 ==> r.0.flight == [])
            && (r.1 && w.flight != [] ==> r.0.wire == w.wire + w.buffer + w.flight[w.flightOffset..] && r.0.buffer == [])
            && (!r.1 ==> r.0.flight == w.flight && r.0.flightOffset >= w.flightOffset)
  {
    if w.flight != [] && t.takes >= |w.buffer| && takes >= |w.flight| - w.flightOffset {
      assert w.buffer[..|w.buffer|] == w.buffer && w.flight[w.flightOffset..|w.flight|] == w.flight[w.flightOffset..];
    }
  }

  lemma {:induction false} RecordZero(p: Params, w: Writer, addr: int, text: seq<byte>, t: Turn)
    requires w.Valid()
    ensures DoWrite(p, w, addr, text, t).1 == 0 <==> text == [] && !w.pending && w.buffer == []
    ensures DoWrite(p, w, addr, text, t).1 > 0 ==> text != []
  {
  }

  lemma {:induction false} LoopZero(p: Params, w: Writer, addr: int, data: seq<byte>, tot: nat, turns: nat -> Turn, k: nat)
    requires p.Valid() && w.Valid() && tot <= |data|
    ensures WriteLoop(p, w, addr, data, tot, turns, k).1 == 0 <==> tot == |data| && !w.pending && w.buffer == []
    decreases |data| - tot
  {
    hide DoWrite;
    var n := |data| - tot;
    var nw := Min(n, p.maxFragment);
    var r := DoWrite(p, w, addr + tot, data[tot..tot + nw], turns(k));
    RecordZero(p, w, addr + tot, data[tot..tot + nw], turns(k));
    if r.1 > 0 && r.1 != n && !p.partialWrite { LoopZero(p, r.0, addr, data, tot + r.1, turns, k + 1); }
  }

  /** Zero is reported exactly when there is nothing to write: a failure, of sealing or of the BIO, is negative. */
  lemma {:induction false} ZeroExactly(p: Params, w: Writer, addr: int, data: seq<byte>, turns: nat -> Turn)
    requires p.Valid() && w.Valid()
    ensures WriteAppData(p, w, addr, data, turns).1 == 0 <==> |data| == w.wnum && !w.pending && w.buffer == []
  {
    if |data| >= w.wnum { LoopZero(p, w.(wnum := 0), addr, data, w.wnum, turns, 0); }
  }

  // ---- Nothing overtakes anything ------------------------------------------------------------

  lemma {:induction false} FlushInOrder(w: Writer, t: Turn)
    requires w.Valid() && w.InOrder()
    ensures Flush(w, t).0.Valid() && Flush(w, t).0.InOrder()
  {
    var n := Min(t.takes, |w.buffer|);
    assert w.buffer == w.buffer[..n] + w.buffer[n..];
    assert w.wire + w.buffer + w.flight[w.flightOffset..] == (w.wire + w.buffer[..n]) + w.buffer[n..] + w.flight[w.flightOffset..];
  }

  lemma {:induction false} SealInOrder(p: Params, w: Writer, addr: int, text: seq<byte>)
    requires w.Valid() && w.InOrder()
    ensures TakeFlight(w).InOrder() && Sealed(p, TakeFlight(w), addr, text).InOrder()
  {
    var record, w1 := p.seal(w.count, text), TakeFlight(w);
    assert w.wire + w.buffer + w.flight[w.flightOffset..] == w1.wire + w1.buffer + [];
    assert w1.wire + w1.buffer + record == w1.wire + (w1.buffer + record) + [];
  }

  lemma {:induction false} DoWriteInOrder(p: Params, w: Writer, addr: int, text: seq<byte>, t: Turn)
    requires w.Valid() && w.InOrder()
    ensures DoWrite(p, w, addr, text, t).0.InOrder()
  {
    hide Writer.InOrder, Flush;
    SealInOrder(p, w, addr, text);
    FlushInOrder(w, t);
    PendingIrrelevant(Flush(w, t).0);
    if text != [] {
      FlushInOrder(Sealed(p, TakeFlight(w), addr, text), t);
      PendingIrrelevant(Flush(Sealed(p, TakeFlight(w), addr, text), t).0);
    }
  }

  lemma {:induction false} PendingIrrelevant(w: Writer)
    requires w.flightOffset <= |w.flight|
    ensures forall n: nat, b: bool :: w.(wnum := n, pending := b).InOrder() == w.InOrder() && w.(pending := b).InOrder() == w.InOrder()
                                      && w.(wnum := n).InOrder() == w.InOrder()
  {
  }

  lemma {:induction false} LoopInOrder(p: Params, w: Writer, addr: int, data: seq<byte>, tot: nat, turns: nat -> Turn, k: nat)
    requires p.Valid() && w.Valid() && w.InOrder() && tot <= |data|
    ensures WriteLoop(p, w, addr, data, tot, turns, k).0.InOrder()
    decreases |data| - tot
  {
    hide DoWrite, Writer.InOrder;
    var n := |data| - tot;
    var nw := Min(n, p.maxFragment);
    var r := DoWrite(p, w, addr + tot, data[tot..tot + nw], turns(k));
    DoWriteInOrder(p, w, addr + tot, data[tot..tot + nw], turns(k));
    PendingIrrelevant(r.0);
    assert r.0.(wnum := tot).InOrder() == r.0.InOrder();
    if r.1 > 0 && r.1 != n && !p.partialWrite { LoopInOrder(p, r.0, addr, data, tot + r.1, turns, k + 1); }
  }

  /** The operations of the write side: a write, a new piece of the handshake flight, and flushing the flight. */
  datatype Op =
    | Write(addr: int, data: seq<byte>, turns: nat -> Turn)
    | AddFlight(bytes: seq<byte>)
    | FlushOp(turn: Turn, takes: nat)

  /** Nothing is added to the flight while it is being written out. */
  predicate CanDo(w: Writer, op: Op) {
    op.AddFlight? ==> w.flightOffset == 0
  }

  function Do(p: Params, w: Writer, op: Op): (r: (Writer, int))
    requires p.Valid() && w.Valid() && CanDo(w, op)
    ensures r.0.Valid()
  {
    match op
    case Write(addr, data, turns) => WriteAppData(p, w, addr, data, turns)
    case AddFlight(bytes) => (w.(flight := w.flight + bytes, made := w.made + bytes), 0)
    case FlushOp(turn, takes) => (FlushFlight(w, turn, takes).0, 0)
  }

  lemma {:induction false} FlightAdded(w: Writer, bytes: seq<byte>)
    requires w.Valid() && w.InOrder()
    ensures w.(flight := w.flight + bytes, made := w.made + bytes).InOrder()
  {
    assert (w.flight + bytes)[w.flightOffset..] == w.flight[w.flightOffset..] + bytes;
    assert w.wire + w.buffer + w.flight[w.flightOffset..] + bytes == w.wire + w.buffer + (w.flight[w.flightOffset..] + bytes);
  }

  lemma {:induction false} FlightFlushed(w: Writer, turn: Turn, takes: nat)
    requires w.Valid() && w.InOrder()
    ensures FlushFlight(w, turn, takes).0.InOrder()
  {
    if w.flight != [] {
      FlushInOrder(w, turn);
      var f := Flush(w, turn).0;
      if f.buffer == [] {
        var n := Min(takes, |w.flight| - w.flightOffset);
        var a, b := w.flight[w.flightOffset..w.flightOffset + n], w.flight[w.flightOffset + n..];
        assert w.flight[w.flightOffset..] == a + b;
        assert f.wire + [] + (a + b) == (f.wire + a) + [] + b;
      }
    }
  }

  /**
   * Every operation keeps all bytes in the order in which they were produced: handshake data not yet flushed goes out
   * before the records sealed after it, and nothing is lost or repeated on the way.
   */
  lemma {:induction false} DoInOrder(p: Params, w: Writer, op: Op)
    requires p.Valid() && w.Valid() && CanDo(w, op) && w.InOrder()
    ensures Do(p, w, op).0.InOrder()
  {
    match op {
      case Write(addr, data, turns) =>
        if |data| >= w.wnum { LoopInOrder(p, w.(wnum := 0), addr, data, w.wnum, turns, 0); }
      case AddFlight(bytes) => FlightAdded(w, bytes);
      case FlushOp(turn, takes) => FlightFlushed(w, turn, takes);
    }
  }

  // ---- Whole schedules -----------------------------------------------------------------------

  /** The bytes accepted from the caller by successful writes, and the most that was presented of the write in progress. */
  datatype Run = Run(w: Writer, accepted: seq<byte>, current: seq<byte>)

  /** A retry presents bytes that agree with those of the write in progress, and no fewer than are already behind. */
  predicate Honours(s: Run, op: Op) {
    CanDo(s.w, op) && (op.Write? ==> |op.data| >= s.w.wnum && (IsPrefix(s.current, op.data) || IsPrefix(op.data, s.current)))
  }

  function Step(p: Params, s: Run, op: Op): Run
    requires p.Valid() && s.w.Valid() && CanDo(s.w, op)
  {
    var r := Do(p, s.w, op);
    if !op.Write? then s.(w := r.0)
    else if 0 < r.1 <= |op.data| then Run(r.0, s.accepted + op.data[..r.1], [])
    else Run(r.0, s.accepted, if |op.data| > |s.current| then op.data else s.current)
  }

  predicate StepsTo(p: Params, s: Run, ops: seq<Op>, s': Run)
    requires p.Valid()
    decreases |ops|
  {
    if ops == [] then s' == s
    else s.w.Valid() && Honours(s, ops[0]) && StepsTo(p, Step(p, s, ops[0]), ops[1..], s')
  }

  predicate RunInv(s: Run) {
    Consistent(s.w, s.accepted, s.current, s.w.wnum) && s.w.InOrder()
  }

  lemma {:induction false} ConsistentAgrees(w: Writer, base: seq<byte>, a: seq<byte>, b: seq<byte>, tot: nat)
    requires Consistent(w, base, a, tot) && (IsPrefix(a, b) || IsPrefix(b, a)) && Done(w, tot) <= |b|
    ensures Consistent(w, base, b, tot)
  {
    assert a[..Done(w, tot)] == b[..Done(w, tot)];
  }

  lemma {:induction false} StartsAgain(w: Writer, base: seq<byte>, data: seq<byte>, k: nat)
    requires w.Valid() && !w.pending && w.wnum == 0 && k <= |data| && Concat(w.sealed) == base + data[..k]
    ensures Consistent(w, base + data[..k], [], w.wnum)
  {
    assert base + data[..k] + [] == base + data[..k];
  }

  lemma {:induction false} StepKeeps(p: Params, s: Run, op: Op)
    requires p.Valid() && RunInv(s) && Honours(s, op)
    ensures RunInv(Step(p, s, op))
  {
    DoInOrder(p, s.w, op);
    if op.Write? {
      hide WriteLoop, Concat, Writer.InOrder;
      var r, current := Do(p, s.w, op), Step(p, s, op).current;
      if |op.data| < Done(s.w, s.w.wnum) {
        ShortRetry(p, s.w.(wnum := 0), op.addr, op.data, s.w.wnum, op.turns);
      } else {
        hide Consistent, WriteAppData;
        ConsistentAgrees(s.w, s.accepted, s.current, op.data, s.w.wnum);
        RetryContinues(p, s.w, s.accepted, op.addr, op.data, op.turns);
        if r.1 > 0 { StartsAgain(r.0, s.accepted, op.data, r.1); }
        else {
          ConsistentDone(r.0, s.accepted, op.data, r.0.wnum);
          ConsistentAgrees(r.0, s.accepted, op.data, current, r.0.wnum);
        }
      }
    }
  }

  lemma {:induction false} ConsistentDone(w: Writer, base: seq<byte>, data: seq<byte>, tot: nat)
    requires Consistent(w, base, data, tot)
    ensures Done(w, tot) <= |data|
  {
  }

  /**
   * Over every schedule of writes that are retried with bytes that agree and no fewer than are behind, mixed with
   * handshake data: the records sealed are, one after the other, exactly the bytes reported as written and those of
   * the write in progress that are behind or pending; and all bytes reach the wire in the order in which they were
   * produced.
   */
  lemma {:induction false} ScheduleSealsOnce(p: Params, s: Run, ops: seq<Op>, s': Run)
    requires p.Valid() && RunInv(s) && StepsTo(p, s, ops, s')
    ensures var done := Done(s'.w, s'.w.wnum);
            done <= |s'.current| && Concat(s'.w.sealed) == s'.accepted + s'.current[..done] && s'.w.Valid() && s'.w.InOrder()
    decreases |ops|
  {
    if ops != [] {
      StepKeeps(p, s, ops[0]);
      ScheduleSealsOnce(p, Step(p, s, ops[0]), ops[1..], s');
    }
  }

  // ---- A shrinking length seals bytes twice --------------------------------------------------

  const OneByte: Params := Params(1, false, true, (n, text) => text)

  function Stuck(k: nat): Turn { if k == 0 then Turn(10, true) else Turn(0, true) }

  function Flowing(k: nat): Turn { Turn(10, true) }

  const Empty: Writer := Writer(0, false, 0, 0, [], [], 0, [], [], [], 0)

  /** The second of two bytes is sealed and waits to be flushed. */
  function Blocked(a: byte, b: byte, wnum: nat): Writer {
    Writer(wnum, true, 1, 1, [b], [], 0, [a], [a, b], [[a], [b]], 2)
  }

  lemma {:induction false} FirstCallBlocks(a: byte, b: byte)
    ensures WriteAppData(OneByte, Empty, 0, [a, b], Stuck) == (Blocked(a, b, 1), -1)
  {
    var data := [a, b];
    assert data[0..1] == [a] && data[1..2] == [b];
    var w1 := WritePending(OneByte, Sealed(OneByte, TakeFlight(Empty), 0, [a]), 0, 1, Stuck(0)).0;
    assert w1 == Writer(0, false, 1, 0, [], [], 0, [a], [a], [[a]], 1);
    var w2 := WritePending(OneByte, Sealed(OneByte, TakeFlight(w1), 1, [b]), 1, 1, Stuck(1)).0;
    assert w2 == Blocked(a, b, 0);
    assert WriteLoop(OneByte, w1, 0, data, 1, Stuck, 1) == (w2.(wnum := 1), -1);
  }

  lemma {:induction false} LastCallReseals(a: byte, b: byte)
    ensures WriteAppData(OneByte, Blocked(a, b, 0), 0, [a, b], Flowing)
         == (Writer(0, false, 1, 1, [], [], 0, [a, b, b], [a, b, b], [[a], [b], [b]], 3), 2)
  {
    var data := [a, b];
    assert data[0..1] == [a] && data[1..2] == [b];
    var w3 := WritePending(OneByte, Blocked(a, b, 0), 0, 1, Flowing(0)).0;
    assert w3 == Writer(0, false, 1, 1, [], [], 0, [a, b], [a, b], [[a], [b]], 2);
    var w4 := WritePending(OneByte, Sealed(OneByte, TakeFlight(w3), 1, [b]), 1, 1, Flowing(1)).0;
    assert w4 == Writer(0, false, 1, 1, [], [], 0, [a, b, b], [a, b, b], [[a], [b], [b]], 3);
    assert WriteLoop(OneByte, w3, 0, data, 1, Flowing, 1) == (w4, 2);
  }

  /**
   * Two bytes at one byte a record. The first call blocks on the second record; a call with no bytes fails and
   * forgets the place; the original call then reports two bytes written, but the second has been sealed twice.
   */
  lemma {:induction false} ShrinkingSealsTwice(a: byte, b: byte)
    ensures var first := WriteAppData(OneByte, Empty, 0, [a, b], Stuck);
            var second := WriteAppData(OneByte, first.0, 0, [], Stuck);
            var third := WriteAppData(OneByte, second.0, 0, [a, b], Flowing);
            first.1 == -1 && second.1 == -1 && third.1 == 2 && third.0.sealed == [[a], [b], [b]] && third.0.wire == [a, b, b]
  {
    hide WriteLoop;
    FirstCallBlocks(a, b);
    LastCallReseals(a, b);
  }

  // ---- The write side in place ---------------------------------------------------------------

  class WriteSide {
    const p: Params
    var wnum: nat
    var wpendPending: bool
    var wpendTot: nat
    var wpendBuf: int
    var writeBuffer: seq<byte>
    var pendingFlight: seq<byte>
    var pendingFlightOffset: nat
    var count: nat
    ghost var wire: seq<byte>
    ghost var made: seq<byte>
    ghost var sealed: seq<seq<byte>>

    ghost function View(): Writer
      reads this
    {
      Writer(wnum, wpendPending, wpendTot, wpendBuf, writeBuffer, pendingFlight, pendingFlightOffset, wire, made, sealed, count)
    }

    constructor (p: Params)
      requires p.Valid()
      ensures this.p == p && View() == Writer(0, false, 0, 0, [], [], 0, [], [], [], 0) && View().Valid()
    {
      this.p := p;
      wnum, wpendPending, wpendTot, wpendBuf := 0, false, 0, 0;
      writeBuffer, pendingFlight, pendingFlightOffset, count := [], [], 0, 0;
      wire, made, sealed := [], [], [];
    }

    /** `ssl_write_buffer_flush`, by its contract. */
    method FlushBuffer(t: Turn) returns (ok: bool)
      modifies this`writeBuffer, this`wire
      ensures (View(), ok) == Flush(old(View()), t)
    {
      var n := Min(t.takes, |writeBuffer|);
      wire := wire + writeBuffer[..n];
      ok := n == |writeBuffer|;
      writeBuffer := writeBuffer[n..];
    }

    /** `ssl3_write_pending`. */
    method FinishPending(addr: int, len: nat, t: Turn) returns (ret: int)
      requires View().Valid() && wpendPending
      modifies this`writeBuffer, this`wire, this`wpendPending
      ensures (View(), ret) == WritePending(p, old(View()), addr, len, t)
    {
      if wpendTot > len || (!p.movingBuffer && wpendBuf != addr) { return -1; }
      var ok := FlushBuffer(t);
      if !ok { return -1; }
      wpendPending := false;
      ret := wpendTot;
    }

    /** `do_ssl3_write`. */
    method WriteRecord(addr: int, text: seq<byte>, t: Turn) returns (ret: int)
      requires View().Valid()
      modifies this
      ensures (View(), ret) == DoWrite(p, old(View()), addr, text, t)
    {
      hide WritePending;
      if wpendPending {
        ret := FinishPending(addr, |text|, t);
        return;
      }
      if |text| > SSL3_RT_MAX_PLAIN_LENGTH || |writeBuffer| > 0 { return -1; }
      if text == [] { return 0; }
      writeBuffer := writeBuffer + pendingFlight[pendingFlightOffset..];
      pendingFlight, pendingFlightOffset := [], 0;
      if !t.sealOk { return -1; }
      var record := p.seal(count, text);
      writeBuffer, count := writeBuffer + record, count + 1;
      made, sealed := made + record, sealed + [text];
      wpendTot, wpendBuf, wpendPending := |text|, addr, true;
      ret := FinishPending(addr, |text|, t);
    }

    /** `ssl3_write_app_data`. */
    method WriteApplicationData(addr: int, data: seq<byte>, turns: nat -> Turn) returns (ret: int)
      requires p.Valid() && View().Valid()
      modifies this
      ensures (View(), ret) == WriteAppData(p, old(View()), addr, data, turns) && View().Valid()
    {
      hide DoWrite;
      ghost var was := View();
      var tot := wnum;
      wnum := 0;
      if |data| < tot { return -1; }
      var n: nat := |data| - tot;
      var k: nat := 0;
      while true
        invariant View().Valid() && tot + n == |data|
        invariant WriteLoop(p, View(), addr, data, tot, turns, k) == WriteAppData(p, was, addr, data, turns)
        decreases n
      {
        var nw := if n > p.maxFragment then p.maxFragment else n;
        ret := WriteRecord(addr + tot, data[tot..tot + nw], turns(k));
        if ret <= 0 {
          wnum := tot;
          return;
        }
        if ret == n || p.partialWrite { return tot + ret; }
        n := n - ret;
        tot := tot + ret;
        k := k + 1;
      }
    }
  }
}

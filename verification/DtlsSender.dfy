/** The sending side in place: `outgoing_messages` with its cursor, and the packet buffer (`d1_both.cc`, `dtls_record.cc`). */
module DtlsSender {
  import opened Common
  import opened SslAead
  import opened DtlsFragment
  import opened DtlsRecord
  import opened DtlsSend

  /** The datagrams of a list of packets. */
  function Wire(packets: seq<seq<Sealed>>): seq<seq<byte>> {
    if packets == [] then [] else [Bytes(packets[0])] + Wire(packets[1..])
  }

  lemma {:induction false} BytesAppend(a: seq<Sealed>, b: seq<Sealed>)
    ensures Bytes(a + b) == Bytes(a) + Bytes(b)
  {
    if a == [] {
      assert a + b == b;
    } else {
      assert (a + b)[1..] == a[1..] + b;
      BytesAppend(a[1..], b);
    }
  }

  lemma {:induction false} AppendRecord(a: seq<Sealed>, b: Sealed)
    ensures Bytes(a + [b]) == Bytes(a) + b.record
  {
    BytesAppend(a, [b]);
    assert [b][1..] == [];
  }

  lemma {:induction false} WireAppend(a: seq<seq<Sealed>>, p: seq<Sealed>)
    ensures Wire(a + [p]) == Wire(a) + [Bytes(p)]
  {
    if a == [] {
      assert a + [p] == [p];
      assert [p][1..] == [];
    } else {
      assert (a + [p])[1..] == a[1..] + [p];
      WireAppend(a[1..], p);
    }
  }

  lemma {:induction false} ValidCursor(s: Sender)
    requires s.Valid()
    ensures s.written <= |s.flight|
  {
  }

  lemma {:induction false} BytesEmpty()
    ensures Bytes([]) == [] && Wire([]) == []
  {
  }

  class Outgoing {
    var messages: seq<OutMessage>
    var written: nat
    var offset: nat
    var complete: bool
    var writeSeq: nat
    var mtu: nat
    var write: WriteState
    ghost var numbers: seq<(nat, nat)>
    ghost var wrapped: bool

    ghost function View(): Sender
      reads this
    {
      Sender(messages, written, offset, complete, writeSeq, Writes(write, numbers, wrapped))
    }

    constructor (write: WriteState)
      requires write.Valid()
      ensures View() == Sender([], 0, 0, false, 0, Writes(write, [], false)) && View().Valid() && mtu == 0
    {
      mtu := 0;
      messages, written, offset, complete, writeSeq := [], 0, 0, false, 0;
      this.write, numbers, wrapped := write, [], false;
    }

    /** `add_outgoing`. */
    method AddOutgoing(isCcs: bool, data: seq<byte>) returns (ok: bool)
      requires View().Valid() && (isCcs ==> data == [])
      modifies this
      ensures View().Valid()
      ensures match DtlsSend.AddOutgoing(old(View()), isCcs, data)
              case Some(s) => ok && View() == s
              case None => !ok && View() == if old(complete) then Clear(old(View())) else old(View())
    {
      if complete {
        messages, written, offset, complete := [], 0, 0, false;
      }
      if |messages| >= SSL_MAX_HANDSHAKE_FLIGHT || |data| > 0xFFFF_FFFF { return false; }
      if !isCcs { writeSeq := (writeSeq + 1) % TWO16; }
      messages := messages + [OutMessage(data, write.epoch, isCcs)];
      ok := true;
    }

    /** `dtls_seal_record` for the message at the cursor, into `out` from `at`. */
    method SealPiece(previous: bool, piece: Piece, out: array<byte>, at: nat, maxOut: nat, luck: Luck)
      returns (len: Option<nat>, ghost sealed: SealResult)
      requires View().Valid() && written < |messages| && (previous ==> write.epoch >= 1) && at + maxOut == out.Length
      modifies this`write, this`numbers, this`wrapped, out
      ensures (View(), sealed) == Seal(old(View()), previous, piece, maxOut, luck) && View().Valid()
      ensures sealed.Progress? <==> len.Some?
      ensures len.Some? ==> at + len.value <= out.Length && out[at..at + len.value] == sealed.sealed.record
      ensures out[..at] == old(out[..at])
    {
      hide SealRecord, Context.Valid;
      ghost var s := View();
      var r := SealRecord(write, previous, piece.Typ(), piece.Text(), maxOut, luck);
      ghost var log := Write(s.log, SealOp(previous, piece.Typ(), piece.Text(), maxOut, luck));
      sealed := Seal(s, previous, piece, maxOut, luck).1;
      write, numbers, wrapped := r.0, log.numbers, log.wrapped;
      if r.1.None? { return None, sealed; }
      var record := r.1.value;
      forall i | 0 <= i < |record| { out[at + i] := record[i]; }
      len := Some(|record|);
    }

    /** `seal_next_message`. */
    method SealNextMessage(out: array<byte>, at: nat, maxOut: nat, luck: Luck)
      returns (len: Option<nat>, partial: bool, error: bool, ghost sealed: SealResult)
      requires View().Valid() && written < |messages| && at + maxOut == out.Length
      modifies this`write, this`numbers, this`wrapped, this`offset, out
      ensures (View(), sealed) == SealMessage(old(View()), maxOut, luck) && View().Valid()
      ensures error == sealed.SealError? && len.Some? == sealed.Progress?
      ensures len.Some? ==> partial == sealed.partial && at + len.value <= out.Length && out[at..at + len.value] == sealed.sealed.record
      ensures out[..at] == old(out[..at])
    {
      hide Context.Valid, Seal, ParseFragment;
      var msg := messages[written];
      var previous := UsesPrevious(write, msg);
      if !previous && msg.epoch != write.epoch { return None, false, true, SealError; }
      var overhead := Overhead(write, previous);
      if msg.isCcs {
        if maxOut < 1 + overhead { return None, false, false, NoProgress; }
        len, sealed := SealPiece(previous, Ccs, out, at, maxOut, luck);
        return len, false, len.None?, sealed;
      }
      var whole := Whole(msg, offset);
      if whole.None? { return None, false, true, SealError; }
      var m := whole.value;
      var prefix := DTLS1_RT_HEADER_LENGTH + write.Context(previous).ExplicitNonceLen();
      if maxOut < DTLS1_HM_HEADER_LENGTH + 1 + overhead || maxOut < prefix { return None, false, false, NoProgress; }
      var frag := NextFragment(m, offset, maxOut - DTLS1_HM_HEADER_LENGTH - overhead);
      len, sealed := SealPiece(previous, Part(frag), out, at, maxOut, luck);
      if len.None? { return None, false, true, sealed; }
      partial := offset + |frag.body| < |m.body|;
      offset := if partial then offset + |frag.body| else 0;
      sealed := sealed.(partial := partial);
      error := false;
    }

    /** `seal_next_packet`: as many records as fit, packed from the start of the buffer. */
    method SealNextPacket(packet: array<byte>, lucks: nat -> Luck) returns (len: Option<nat>, ghost sealed: seq<Sealed>)
      requires View().Valid()
      modifies this`write, this`numbers, this`wrapped, this`offset, this`written, packet
      ensures View().Valid() && View() == SealPacket(old(View()), packet.Length, lucks).0
      ensures SealPacket(old(View()), packet.Length, lucks).1 == if len.Some? then Some(sealed) else None
      ensures len.Some? ==> len.value <= packet.Length && packet[..len.value] == Bytes(sealed)
    {
      hide SealMessage, Sender.Valid, PackLoop, Bytes;
      assert written <= |messages| by { ValidCursor(View()); }
      var total: nat := 0;
      sealed := [];
      ghost var all := PackLoop(View(), packet.Length, lucks);
      ghost var rest := all;
      assert sealed + rest.1 == all.1;
      BytesEmpty();
      while written < |messages|
        invariant View().Valid() && messages == old(messages) && total <= packet.Length && written <= |messages|
        invariant rest == PackLoop(View(), packet.Length - total, lucks)
        invariant all == (rest.0, all.1, rest.2) && all.1 == sealed + rest.1
        invariant packet[..total] == Bytes(sealed) && (sealed == [] <==> total == 0)
        decreases |messages| - written
      {
        PackLoopStep(View(), packet.Length - total, lucks);
        var length, partial, error;
        ghost var result;
        length, partial, error, result := SealNextMessage(packet, total, packet.Length - total, lucks(written));
        if error { return None, sealed; }
        if length.None? {
          assert all.1 == sealed;
          return if total == 0 then None else Some(total), sealed;
        }
        AppendRecord(sealed, result.sealed);
        assert packet[..total + length.value] == packet[..total] + packet[total..total + length.value];
        sealed := sealed + [result.sealed];
        total := total + length.value;
        if partial {
          assert all.1 == sealed;
          return Some(total), sealed;
        }
        written := written + 1;
        ghost var next := PackLoop(View(), packet.Length - total, lucks);
        assert all.1 == sealed + next.1;
        rest := next;
      }
      PackLoopStep(View(), packet.Length - total, lucks);
      assert all.1 == sealed;
      len := if total == 0 then None else Some(total);
    }

    /** `SSL_set_mtu`. */
    method SetMtu(value: nat) returns (ok: bool)
      modifies this`mtu
      ensures ok == (value >= kMinMTU) && mtu == if ok then value else old(mtu)
    {
      if value < kMinMTU { return false; }
      mtu := value;
      ok := true;
    }

    /** `send_flight`, with the datagrams the BIO took. A failed write rewinds to where its packet began. */
    method SendFlight(noQuery: bool, queried: int, turns: nat -> Turn)
      returns (wire: seq<seq<byte>>, ok: bool, ghost packets: seq<seq<Sealed>>)
      requires View().Valid()
      modifies this`write, this`numbers, this`wrapped, this`offset, this`written, this`mtu
      ensures old(mtu) < 228 && !noQuery ==> if 228 <= queried <= 0x4000_0000 then mtu == queried else mtu == 1472
      ensures old(mtu) >= 228 || noQuery ==> mtu == old(mtu)
      ensures forall i :: 0 <= i < |wire| ==> |wire[i]| <= mtu
      ensures (View(), packets, ok) == DtlsSend.SendFlight(old(View()), mtu, turns, 0) && View().Valid()
      ensures wire == Wire(packets)
    {
      hide SealPacket, Context.Valid, DtlsSend.SendFlight, Bytes, Wire;
      mtu := UpdateMtu(mtu, noQuery, queried);
      var packet := new byte[mtu](_ => 0);
      ghost var all := DtlsSend.SendFlight(View(), mtu, turns, 0);
      ghost var rest := all;
      var k: nat := 0;
      wire, packets := [], [];
      assert packets + rest.1 == all.1;
      BytesEmpty();
      while written < |messages|
        invariant View().Valid() && messages == old(messages) && packet.Length == mtu
        invariant rest == DtlsSend.SendFlight(View(), mtu, turns, k)
        invariant all == (rest.0, all.1, rest.2) && all.1 == packets + rest.1
        invariant wire == Wire(packets) && forall i :: 0 <= i < |wire| ==> |wire[i]| <= mtu
        decreases |messages| - written, View().Behind()
      {
        var oldWritten, oldOffset := written, offset;
        SendFlightStep(View(), mtu, turns, k);
        assert rest.1 == [] ==> all.1 == packets;
        var len;
        ghost var sealed;
        len, sealed := SealNextPacket(packet, turns(k).lucks);
        if len.None? { return wire, false, packets; }
        if turns(k).bio <= 0 {
          written, offset := oldWritten, oldOffset;
          return wire, false, packets;
        }
        wire := wire + [packet[..len.value]];
        WireAppend(packets, sealed);
        packets := packets + [sealed];
        k := k + 1;
        ghost var next := DtlsSend.SendFlight(View(), mtu, turns, k);
        assert all.1 == packets + next.1;
        rest := next;
      }
      SendFlightStep(View(), mtu, turns, k);
      assert all.1 == packets;
      ok := true;
    }

    /** `dtls1_flush_flight`. */
    method FlushFlight(noQuery: bool, queried: int, turns: nat -> Turn)
      returns (wire: seq<seq<byte>>, ok: bool, ghost packets: seq<seq<Sealed>>)
      requires View().Valid()
      modifies this
      ensures old(mtu) < 228 && !noQuery ==> if 228 <= queried <= 0x4000_0000 then mtu == queried else mtu == 1472
      ensures old(mtu) >= 228 || noQuery ==> mtu == old(mtu)
      ensures forall i :: 0 <= i < |wire| ==> |wire[i]| <= mtu
      ensures View().Valid() && (View(), packets, ok) == DtlsSend.SendFlight(old(View()).(complete := true), mtu, turns, 0)
      ensures wire == Wire(packets)
    {
      complete := true;
      wire, ok, packets := SendFlight(noQuery, queried, turns);
    }

    /** `dtls1_retransmit_outgoing_messages`. */
    method Retransmit(noQuery: bool, queried: int, turns: nat -> Turn)
      returns (wire: seq<seq<byte>>, ok: bool, ghost packets: seq<seq<Sealed>>)
      requires View().Valid()
      modifies this
      ensures old(mtu) < 228 && !noQuery ==> if 228 <= queried <= 0x4000_0000 then mtu == queried else mtu == 1472
      ensures old(mtu) >= 228 || noQuery ==> mtu == old(mtu)
      ensures forall i :: 0 <= i < |wire| ==> |wire[i]| <= mtu
      ensures View().Valid() && (View(), packets, ok) == DtlsSend.SendFlight(old(View()).(written := 0, offset := 0), mtu, turns, 0)
      ensures wire == Wire(packets)
    {
      written, offset := 0, 0;
      wire, ok, packets := SendFlight(noQuery, queried, turns);
    }
  }
}

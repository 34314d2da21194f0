/**
 * The wire format itself: what varints, fixed words and entries are byte by byte, for any input. The format is that of
 * the Protocol Buffers encoding, section "Message Structure" and the sections on base 128 varints and packed fields.
 */
module PbFormat {
  import opened Common
  import opened PbWire
  import opened PbSchema
  import opened PbCodec

  // ---- Varints -------------------------------------------------------------------------------

  /** The number seven-bit groups stand for, least significant first. */
  function Groups(s: seq<byte>): nat {
    if s == [] then 0 else s[0] % 128 + 128 * Groups(s[1..])
  }

  /** The place of the first byte without a continuation bit, or the length when there is none. */
  function LastByte(s: seq<byte>): (n: nat)
    ensures n <= |s|
  {
    if s == [] || s[0] < 128 then 0 else 1 + LastByte(s[1..])
  }

  lemma {:induction false} LastByteIsFirst(s: seq<byte>, i: nat)
    requires i < |s|
    ensures i == LastByte(s) ==> s[i] < 128
    ensures i < LastByte(s) ==> s[i] >= 128
  {
    if i > 0 && s[0] >= 128 { LastByteIsFirst(s[1..], i - 1); }
  }

  lemma {:induction false} ModAdd(a: nat, x: nat, y: nat, m: nat)
    requires m > 0
    ensures (a + x % m + y) % m == (a + x + y) % m
  {
    var q := x / m;
    assert x == q * m + x % m;
    assert (a + x % m + y) + q * m == a + x + y;
    AddMultiple(a + x % m + y, q, m);
  }

  lemma {:induction false} AddMultiple(x: nat, q: nat, m: nat)
    requires m > 0
    ensures (x + q * m) % m == x % m
  {
    var r := x % m;
    assert x == x / m * m + r;
    assert x + q * m == (x / m + q) * m + r by { Distribute(x / m, q, m); }
    ModUnique(x + q * m, m, x / m + q, r);
  }

  /** One group at a bit position below 64. */
  lemma {:induction false} GroupAdded(d: nat, bitpos: nat, acc: nat)
    requires d < 128 && bitpos < 64 && acc < Pow2(bitpos) && acc < TWO64
    ensures var x := Shl(d, bitpos) % TWO64;
            BitOr(acc, x) == acc + x < TWO64 && acc + x < Pow2(bitpos + 7)
  {
    hide BitOr, Shl, Pow2;
    assert Pow2(64) == TWO64 by { Pow2Values(); }
    ShlMod(d, bitpos, 64);
    BitOrDisjoint(acc, d % Pow2(64 - bitpos), bitpos);
    OrBelow(acc, d, bitpos);
    WordOr(acc, Shl(d, bitpos) % TWO64);
  }

  /** Adding a group and then those after it is adding them all. */
  lemma {:induction false} NextGroup(d: nat, g: nat, bitpos: nat, acc: nat)
    ensures (acc + Shl(d, bitpos) % TWO64 + Shl(g, bitpos + 7)) % TWO64 == (acc + Shl(d + 128 * g, bitpos)) % TWO64
  {
    hide Shl;
    ShlAdd(d, 128 * g, bitpos);
    ShlSeven(g, bitpos);
    ModAdd(acc, Shl(d, bitpos), Shl(g, bitpos + 7), TWO64);
  }

  /** What the reader makes of the groups up to the last byte. */
  function Read(s: seq<byte>, bitpos: nat, acc: nat): Option<(nat, seq<byte>)> {
    var n := LastByte(s);
    if n == |s| || bitpos + 7 * n >= 64 then None
    else Some(((acc + Shl(Groups(s[..n + 1]), bitpos)) % TWO64, s[n + 1..]))
  }

  lemma {:induction false} ReadLast(s: seq<byte>, bitpos: nat, acc: nat)
    requires s != [] && s[0] < 128 && bitpos < 64
    ensures Read(s, bitpos, acc) == Some(((acc + Shl(s[0] % 128, bitpos) % TWO64) % TWO64, s[1..]))
  {
    hide Shl;
    var one := s[..LastByte(s) + 1];
    assert one == [s[0]] && one[1..] == [] && Groups([]) == 0;
    assert Groups(one) == s[0] % 128;
    ModAdd(acc, Shl(s[0] % 128, bitpos), 0, TWO64);
  }

  lemma {:induction false} ReadMore(s: seq<byte>, bitpos: nat, acc: nat)
    requires s != [] && s[0] >= 128 && bitpos < 64
    ensures Read(s, bitpos, acc) == Read(s[1..], bitpos + 7, acc + Shl(s[0] % 128, bitpos) % TWO64)
  {
    hide Shl;
    var rest, n := s[1..], LastByte(s[1..]);
    assert LastByte(s) == n + 1;
    if n < |rest| {
      var g := Groups(rest[..n + 1]);
      assert Groups(s[..n + 2]) == s[0] % 128 + 128 * g by { assert s[..n + 2][1..] == rest[..n + 1]; }
      assert s[n + 2..] == rest[n + 1..];
      NextGroup(s[0] % 128, g, bitpos, acc);
    }
  }

  lemma {:induction false} DecodeFromMeans(s: seq<byte>, bitpos: nat, acc: nat)
    requires acc < Pow2(bitpos) && acc < TWO64
    ensures DecodeVarintFrom(s, bitpos, acc) == Read(s, bitpos, acc)
    decreases |s|
  {
    hide BitOr, Shl, Pow2, Read;
    if s == [] || bitpos >= 64 {
      ReadNone(s, bitpos, acc);
    } else {
      GroupAdded(s[0] % 128, bitpos, acc);
      if s[0] < 128 {
        ReadLast(s, bitpos, acc);
      } else {
        ReadMore(s, bitpos, acc);
        DecodeFromMeans(s[1..], bitpos + 7, acc + Shl(s[0] % 128, bitpos) % TWO64);
      }
    }
  }

  lemma {:induction false} ReadNone(s: seq<byte>, bitpos: nat, acc: nat)
    requires s == [] || bitpos >= 64
    ensures Read(s, bitpos, acc) == None
  {
  }

  /**
   * The 64-bit reader on any bytes: the first ten hold a last byte, or it fails; the value is that of the groups up to it,
   * modulo 2^64, and the rest follows it.
   */
  lemma {:induction false} DecodeVarintMeans(s: seq<byte>)
    ensures var n := LastByte(s);
            DecodeVarint(s) == if n == |s| || n >= 10 then None else Some((Groups(s[..n + 1]) % TWO64, s[n + 1..]))
  {
    DecodeFromMeans(s, 0, 0);
  }

  /** What the encoder emits for a number: its groups, with a continuation bit on all but the last. */
  lemma {:induction false} EncodeVarintMeans(v: nat)
    ensures Groups(EncodeVarint(v)) == v && LastByte(EncodeVarint(v)) == |EncodeVarint(v)| - 1
  {
    var s := EncodeVarint(v);
    if v < 128 {
      assert s[1..] == [];
    } else {
      assert s[1..] == EncodeVarint(v / 128);
      EncodeVarintMeans(v / 128);
    }
  }

  // ---- Fixed words ---------------------------------------------------------------------------

  function Power256(i: nat): (p: nat)
    ensures p > 0
  {
    if i == 0 then 1 else 256 * Power256(i - 1)
  }

  /** Byte `i` of a fixed word is digit `i` of the number in base 256: least significant first. */
  lemma {:induction false} FixedMeans(v: nat, n: nat, i: nat)
    requires i < n
    ensures EncodeFixed(v, n)[i] == v / Power256(i) % 256
    decreases i
  {
    if i > 0 {
      FixedMeans(v / 256, n - 1, i - 1);
      DivTwice(v, 256, Power256(i - 1));
    }
  }

  lemma {:induction false} DivTwice(v: nat, a: nat, b: nat)
    requires a > 0 && b > 0
    ensures v / a / b == v / (a * b)
  {
    var q, r := v / a, v % a;
    var q', r' := q / b, q % b;
    assert v == (q' * b + r') * a + r;
    assert (q' * b + r') * a + r == q' * (a * b) + (r' * a + r) by { Distribute(q' * b, r', a); Associate(q', b, a); assert b * a == a * b; }
    assert r' * a + r < a * b by { Bound(r', b, a); }
    DivUnique(v, a * b, q', r' * a + r);
  }

  lemma {:induction false} Bound(r: nat, b: nat, a: nat)
    requires r < b
    ensures r * a + a <= a * b
  {
    MulMono(r + 1, b, a);
    Distribute(r, 1, a);
    assert b * a == a * b;
  }

  lemma {:induction false} DivUnique(x: nat, m: nat, q: nat, r: nat)
    requires m > 0 && r < m && x == q * m + r
    ensures x / m == q
  {
    ModUnique(x, m, q, r);
  }

  // ---- The examples of the format's documentation --------------------------------------------

  function Plain(tag: uint32, ltype: LType, size: uint32): Field { Field(tag, ltype, REQUIRED, Layout(0, 0), size, 0, Null) }

  /** Field 1 with the number 150 (section "A Simple Message"). */
  lemma {:induction false} SimpleMessage()
    ensures EncodeSlot(Plain(1, VARINT, 4), Single(Int(150))) == Some([0x08, 0x96, 0x01])
  {
    assert EncodeVarint(8) == [8] && EncodeVarint(150) == [0x96] + EncodeVarint(1);
    assert [8] + ([0x96] + [1]) == [0x08, 0x96, 0x01];
  }

  /** Field 2 with the string "testing" (section "Length-Delimited Records"). */
  lemma {:induction false} TestingString()
    ensures EncodeSlot(Plain(2, STRING, 16), Single(Raw([0x74, 0x65, 0x73, 0x74, 0x69, 0x6e, 0x67])))
         == Some([0x12, 0x07, 0x74, 0x65, 0x73, 0x74, 0x69, 0x6e, 0x67])
  {
    var text := [0x74, 0x65, 0x73, 0x74, 0x69, 0x6e, 0x67];
    assert EncodeVarint(18) == [0x12] && EncodeVarint(7) == [7];
    assert [0x12] + ([7] + text) == [0x12, 0x07, 0x74, 0x65, 0x73, 0x74, 0x69, 0x6e, 0x67];
  }

  /** Field 3 with the simple message inside (section "Submessages"). */
  lemma {:induction false} NestedMessage()
    ensures var inner := Plain(1, VARINT, 4);
            EncodeSlot(Plain(3, SUBMESSAGE, 4).(ptr := Fields(Desc([inner]))), Single(Msg([Single(Int(150))])))
            == Some([0x1a, 0x03, 0x08, 0x96, 0x01])
  {
    var inner, slots := Plain(1, VARINT, 4), [Single(Int(150))];
    SimpleMessage();
    assert [inner][1..] == [] && slots[1..] == [];
    assert EncodeSlots([inner], slots) == Append(Some([0x08, 0x96, 0x01]), Some([]));
    assert [0x08, 0x96, 0x01] + [] == [0x08, 0x96, 0x01];
    assert EncodeVarint(26) == [0x1a] && EncodeVarint(3) == [3];
    assert [0x1a] + ([3] + [0x08, 0x96, 0x01]) == [0x1a, 0x03, 0x08, 0x96, 0x01];
  }

  lemma {:induction false} LongerVarints()
    ensures EncodeVarint(270) == [0x8e, 0x02] && EncodeVarint(86942) == [0x9e, 0xa7, 0x05]
  {
    assert EncodeVarint(270) == [0x8e] + EncodeVarint(2);
    assert EncodeVarint(86942) == [0x9e] + EncodeVarint(679) && EncodeVarint(679) == [0xa7] + EncodeVarint(5);
    assert [0x9e] + ([0xa7] + [5]) == [0x9e, 0xa7, 0x05];
  }

  /** Field 4, packed, with 3, 270 and 86942 (section "Packed Repeated Fields"). */
  lemma {:induction false} PackedNumbers()
    ensures EncodeSlot(Plain(4, VARINT, 4).(htype := REPEATED, layout := Layout(0, 4), arraySize := 8), Items([Int(3), Int(270), Int(86942)]))
         == Some([0x22, 0x06, 0x03, 0x8e, 0x02, 0x9e, 0xa7, 0x05])
  {
    var f := Plain(4, VARINT, 4).(htype := REPEATED, layout := Layout(0, 4), arraySize := 8);
    assert EncodeVarint(3) == [3] && EncodeVarint(34) == [0x22] && EncodeVarint(6) == [6];
    LongerVarints();
    var items := [Int(3), Int(270), Int(86942)];
    assert items[1..] == [Int(270), Int(86942)] && items[1..][1..] == [Int(86942)] && items[1..][1..][1..] == [];
    assert EncodePacked(f, items[1..][1..]) == Some([0x9e, 0xa7, 0x05] + []);
    assert EncodePacked(f, items[1..]) == Some([0x8e, 0x02] + ([0x9e, 0xa7, 0x05] + []));
    var data := [3] + ([0x8e, 0x02] + ([0x9e, 0xa7, 0x05] + []));
    assert EncodePacked(f, items) == Some(data);
    assert data == [0x03, 0x8e, 0x02, 0x9e, 0xa7, 0x05];
    assert [0x22] + ([6] + data) == [0x22, 0x06, 0x03, 0x8e, 0x02, 0x9e, 0xa7, 0x05];
  }

  /** A fixed word of four bytes (section "Non-varint Numbers"). */
  lemma {:induction false} FixedWord()
    ensures EncodeSlot(Plain(5, FIXED32, 4), Single(Int(0x01020304))) == Some([0x2d, 4, 3, 2, 1])
  {
    hide EncodeFixed;
    assert EncodeVarint(45) == [0x2d];
    FixedWordBytes();
    assert [0x2d] + [4, 3, 2, 1] == [0x2d, 4, 3, 2, 1];
  }

  lemma {:induction false} FixedWordBytes()
    ensures EncodeFixed(0x01020304, 4) == [4, 3, 2, 1]
  {
    assert EncodeFixed(0x0102, 2) == [2, 1] by { assert EncodeFixed(1, 1) == [1]; }
    assert EncodeFixed(0x010203, 3) == [3] + EncodeFixed(0x0102, 2);
    assert EncodeFixed(0x01020304, 4) == [4] + EncodeFixed(0x010203, 3);
  }

  lemma {:induction false} FixedZeros(n: nat)
    ensures EncodeFixed(0, n) == Zeros(n)
  {
    if n > 0 { FixedZeros(n - 1); }
  }

  /** And one of eight. */
  lemma {:induction false} LongWord()
    ensures EncodeSlot(Plain(6, FIXED64, 8), Single(Int(1))) == Some([0x31, 1, 0, 0, 0, 0, 0, 0, 0])
  {
    hide EncodeFixed;
    assert EncodeVarint(49) == [0x31];
    LongWordBytes();
    assert [0x31] + [1, 0, 0, 0, 0, 0, 0, 0] == [0x31, 1, 0, 0, 0, 0, 0, 0, 0];
  }

  lemma {:induction false} LongWordBytes()
    ensures EncodeFixed(1, 8) == [1, 0, 0, 0, 0, 0, 0, 0]
  {
    FixedZeros(7);
    assert EncodeFixed(1, 8) == [1 % 256] + EncodeFixed(1 / 256, 8 - 1);
    assert [1] + Zeros(7) == [1, 0, 0, 0, 0, 0, 0, 0];
  }

  /** A zigzag number (section "Signed Integers"). */
  lemma {:induction false} SignedNumber()
    ensures EncodeSlot(Plain(7, SVARINT, 4), Single(Int(-2))) == Some([0x38, 3])
  {
    assert EncodeVarint(56) == [0x38] && EncodeVarint(3) == [3];
    assert [0x38] + [3] == [0x38, 3];
  }
}

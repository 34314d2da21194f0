/** The scalar encodings of nanopb: base-128 varints, zigzag and little-endian fixed words. */
module PbWire {
  import opened Common

  /** The bytes `pb_encode_varint` emits: least significant group first, high bit on all but the last. */
  function EncodeVarint(v: nat): (s: seq<byte>)
    ensures |s| >= 1
  {
    if v < 128 then [v] else [v % 128 + 128] + EncodeVarint(v / 128)
  }

  /** `pb_decode_varint` from bit position `bitpos` with `acc` collected: the value and the unread suffix. */
  function DecodeVarintFrom(s: seq<byte>, bitpos: nat, acc: nat): (r: Option<(nat, seq<byte>)>)
    requires acc < TWO64
    ensures r.Some? ==> r.value.0 < TWO64 && |r.value.1| < |s| && r.value.1 == s[|s| - |r.value.1|..]
  {
    if bitpos >= 64 || s == [] then None
    else
      WordOr(acc, Shl(s[0] % 128, bitpos) % TWO64);
      var acc' := BitOr(acc, Shl(s[0] % 128, bitpos) % TWO64);
      if s[0] >= 128 then DecodeVarintFrom(s[1..], bitpos + 7, acc') else Some((acc', s[1..]))
  }

  function DecodeVarint(s: seq<byte>): (r: Option<(nat, seq<byte>)>)
    ensures r.Some? ==> r.value.0 < TWO64 && |r.value.1| < |s| && r.value.1 == s[|s| - |r.value.1|..]
  {
    DecodeVarintFrom(s, 0, 0)
  }

  /**
   * One byte of the multi-byte loop of `pb_decode_varint32_eof`: bits shifted past position 31 are lost,
   * and from position 32 on only the bytes of a sign extension are tolerated.
   */
  function Accumulate32(b: byte, bitpos: nat, acc: nat): Option<nat> {
    if bitpos < 32 then Some(BitOr(acc, Shl(b % 128, bitpos) % TWO32))
    else if b % 128 != 0 && (acc / TWO31 == 0 || b != (if bitpos < 63 then 0xFF else 0x01)) then None
    else Some(acc)
  }

  /** The whole loop. The bit position is a `uint_fast8_t` and wraps. */
  function DecodeVarint32From(s: seq<byte>, bitpos: nat, acc: nat): (r: Option<(nat, seq<byte>)>)
    ensures r.Some? ==> |r.value.1| < |s| && r.value.1 == s[|s| - |r.value.1|..]
  {
    if s == [] then None
    else match Accumulate32(s[0], bitpos, acc)
      case None => None
      case Some(acc') =>
        var bitpos' := (bitpos + 7) % 256;
        if s[0] >= 128 then DecodeVarint32From(s[1..], bitpos', acc')
        else if bitpos' == 35 && s[0] / 16 % 8 != 0 then None
        else Some((acc', s[1..]))
  }

  function DecodeVarint32(s: seq<byte>): (r: Option<(nat, seq<byte>)>)
    ensures r.Some? ==> |r.value.1| < |s| && r.value.1 == s[|s| - |r.value.1|..]
  {
    if s == [] then None
    else if s[0] < 128 then Some((s[0], s[1..]))
    else DecodeVarint32From(s[1..], 7, s[0] % 128)
  }

  // ---- 64-bit round trip --------------------------------------------------------------------

  lemma {:induction false} DecodeVarintFromEncode(v: nat, bitpos: nat, acc: nat, rest: seq<byte>)
    requires bitpos < 64 && acc < Pow2(bitpos) && acc < TWO64 && Shl(v, bitpos) < TWO64
    ensures DecodeVarintFrom(EncodeVarint(v) + rest, bitpos, acc) == Some((acc + Shl(v, bitpos), rest))
    decreases v
  {
    hide BitOr, Shl, Pow2;
    EncodedBytes(v, rest);
    FirstGroup(v, bitpos, acc);
    if v >= 128 {
      BitposInRange(v / 128, bitpos + 7);
      assert acc + Shl(v % 128, bitpos) < TWO64 by { Pow2Mono(bitpos + 7, 64); Pow2Values(); }
      DecodeVarintFromEncode(v / 128, bitpos + 7, acc + Shl(v % 128, bitpos), rest);
    }
  }

  lemma {:induction false} EncodedBytes(w: nat, rest: seq<byte>)
    ensures var s := EncodeVarint(w) + rest;
            && s[0] == (if w < 128 then w else w % 128 + 128)
            && s[1..] == (if w < 128 then rest else EncodeVarint(w / 128) + rest)
  {
    if w >= 128 {
      assert EncodeVarint(w) + rest == [w % 128 + 128] + (EncodeVarint(w / 128) + rest);
    } else {
      assert EncodeVarint(w) + rest == [w] + rest;
    }
  }

  /** What the first group of `v` adds at position `bitpos`, and what it leaves for position `bitpos + 7`. */
  lemma {:induction false} FirstGroup(v: nat, bitpos: nat, acc: nat)
    requires bitpos < 64 && acc < Pow2(bitpos) && Shl(v, bitpos) < TWO64
    ensures var d := Shl(v % 128, bitpos);
            d < TWO64 && BitOr(acc, d) == acc + d && acc + d < Pow2(bitpos + 7)
    ensures Shl(v, bitpos) == Shl(v % 128, bitpos) + Shl(v / 128, bitpos + 7)
  {
    SplitShl(v, bitpos);
    BitOrDisjoint(acc, v % 128, bitpos);
    GroupBelow(v % 128, bitpos);
  }

  lemma {:induction false} SplitShl(v: nat, bitpos: nat)
    ensures Shl(v, bitpos) == Shl(v % 128, bitpos) + Shl(v / 128, bitpos + 7)
  {
    ShlAdd(v % 128, v / 128 * 128, bitpos);
    ShlSeven(v / 128, bitpos);
  }

  /** Seven bits at position `bitpos` leave room for anything below it. */
  lemma {:induction false} GroupBelow(d: nat, bitpos: nat)
    requires d < 128
    ensures Shl(d, bitpos) + Pow2(bitpos) <= Pow2(bitpos + 7)
  {
    ShlAdd(d, 1, bitpos);
    ShlMono(d + 1, 128, bitpos);
    ShlSeven(1, bitpos);
    ShlOne(bitpos);
    ShlOne(bitpos + 7);
  }

  lemma {:induction false} BitposInRange(q: nat, bitpos: nat)
    requires q >= 1 && Shl(q, bitpos) < TWO64
    ensures bitpos < 64
  {
    ShlMono(1, q, bitpos);
    ShlOne(bitpos);
    Pow2Values();
    if bitpos >= 64 { Pow2Mono(64, bitpos); }
  }

  /** Every uint64 survives the 64-bit varint round trip, and the reader stops exactly at its end. */
  lemma {:induction false} VarintRoundTrip(v: nat, rest: seq<byte>)
    requires v < TWO64
    ensures DecodeVarint(EncodeVarint(v) + rest) == Some((v, rest))
  {
    DecodeVarintFromEncode(v, 0, 0, rest);
  }

  /** The encoded length: `n` bytes exactly when `v` has `n` base-128 digits. */
  lemma {:induction false} VarintLength(v: nat, n: nat)
    requires n >= 1
    ensures |EncodeVarint(v)| <= n <==> v < Pow2(7 * n)
    decreases v
  {
    Pow2Values();
    if v < 128 {
      Pow2Mono(7, 7 * n);
    } else if n > 1 {
      VarintLength(v / 128, n - 1);
      assert 7 * n == 7 * (n - 1) + 7;
      Pow2Sum(7 * (n - 1), 7);
      assert v / 128 < Pow2(7 * (n - 1)) <==> v < 128 * Pow2(7 * (n - 1));
    }
  }

  /** The ten-byte buffer of `pb_encode_varint` suffices for every uint64. */
  lemma {:induction false} VarintAtMostTenBytes(v: nat)
    requires v < TWO64
    ensures |EncodeVarint(v)| <= 10
  {
    Pow2Values();
    Pow2Mono(64, 70);
    VarintLength(v, 10);
  }

  lemma {:induction false} DecodedBelow(s: seq<byte>, bitpos: nat, acc: nat)
    requires acc < Pow2(bitpos) && acc < TWO64
    requires DecodeVarintFrom(s, bitpos, acc).Some?
    ensures var r := DecodeVarintFrom(s, bitpos, acc).value;
            r.0 < Pow2(bitpos + 7 * (|s| - |r.1|))
    decreases |s|
  {
    var r := DecodeVarintFrom(s, bitpos, acc).value;
    OrBelow(acc, s[0] % 128, bitpos);
    WordOr(acc, Shl(s[0] % 128, bitpos) % TWO64);
    if s[0] >= 128 {
      DecodedBelow(s[1..], bitpos + 7, BitOr(acc, Shl(s[0] % 128, bitpos) % TWO64));
      assert bitpos + 7 + 7 * (|s[1..]| - |r.1|) == bitpos + 7 * (|s| - |r.1|);
    } else {
      assert |s| - |r.1| == 1;
    }
  }

  lemma {:induction false} OrBelow(acc: nat, d: nat, bitpos: nat)
    requires acc < Pow2(bitpos) && d < 128 && bitpos < 64
    ensures BitOr(acc, Shl(d, bitpos) % TWO64) < Pow2(bitpos + 7)
  {
    var c := d % Pow2(64 - bitpos);
    assert Pow2(64) == TWO64 by { Pow2Values(); }
    ShlMod(d, bitpos, 64);
    ModAtMost(d, Pow2(64 - bitpos));
    BitOrDisjoint(acc, c, bitpos);
    GroupBelow(c, bitpos);
  }

  /** No byte string shorter than the emitted one decodes to `v`. */
  lemma {:induction false} VarintShortest(v: nat, s: seq<byte>)
    requires DecodeVarint(s).Some? && DecodeVarint(s).value.0 == v
    ensures |EncodeVarint(v)| <= |s| - |DecodeVarint(s).value.1|
  {
    DecodedBelow(s, 0, 0);
    VarintLength(v, |s| - |DecodeVarint(s).value.1|);
  }

  // ---- 32-bit decoding ----------------------------------------------------------------------

  /** The 64-bit values outside 32 bits that the 32-bit reader takes for a sign extension. */
  predicate LooksSignExtended(v: nat) {
    && v >= TWO63
    && v / TWO31 % 2 == 1
    && AllZerosOrOnes(v / 0x8_0000_0000 % 128)
    && AllZerosOrOnes(v / 0x400_0000_0000 % 128)
    && AllZerosOrOnes(v / 0x2_0000_0000_0000 % 128)
    && AllZerosOrOnes(v / 0x100_0000_0000_0000 % 128)
  }

  predicate AllZerosOrOnes(group: nat) {
    group == 0 || group == 127
  }

  /** A group wholly inside the 32-bit word. */
  lemma {:induction false} LowGroup32(b: byte, bitpos: nat, acc: nat)
    requires bitpos <= 25 && acc < Pow2(bitpos)
    ensures Accumulate32(b, bitpos, acc) == Some(acc + Shl(b % 128, bitpos))
    ensures acc + Shl(b % 128, bitpos) < Pow2(bitpos + 7)
  {
    hide BitOr, Shl, Pow2;
    BitOrDisjoint(acc, b % 128, bitpos);
    GroupBelow(b % 128, bitpos);
    assert Shl(b % 128, bitpos) < TWO32 by {
      Pow2Mono(bitpos + 7, 32);
      Pow2Values();
    }
  }

  lemma {:induction false} LowGroups32(w: nat, bitpos: nat, acc: nat, rest: seq<byte>)
    requires bitpos == 7 || bitpos == 14 || bitpos == 21
    requires acc < Pow2(bitpos)
    ensures var r := DecodeVarint32From(EncodeVarint(w) + rest, bitpos, acc);
            if w < 128 then r == Some((acc + Shl(w, bitpos), rest))
            else r == DecodeVarint32From(EncodeVarint(w / 128) + rest, bitpos + 7, acc + Shl(w % 128, bitpos))
  {
    hide Accumulate32, BitOr, Shl, Pow2;
    EncodedBytes(w, rest);
    LowGroup32((EncodeVarint(w) + rest)[0], bitpos, acc);
  }

  /** The group at bit position 28, of which only four bits fit. */
  lemma {:induction false} FifthGroup32(b: byte, bitpos: nat, acc: nat)
    requires bitpos == 28 && acc < Pow2(bitpos)
    ensures Accumulate32(b, bitpos, acc) == Some(acc + Shl(b % 16, bitpos))
  {
    hide BitOr, Shl, Pow2;
    var d := b % 128;
    assert d % 16 == b % 16;
    assert Shl(d, bitpos) % TWO32 == Shl(b % 16, bitpos) by {
      Pow2Values();
      ShlMod(d, bitpos, 32);
      assert 32 - bitpos == 4;
    }
    BitOrDisjoint(acc, b % 16, bitpos);
  }

  lemma {:induction false} FifthStep32(w: nat, bitpos: nat, acc: nat, rest: seq<byte>)
    requires bitpos == 28 && acc < Pow2(bitpos)
    ensures var r := DecodeVarint32From(EncodeVarint(w) + rest, bitpos, acc);
            if w < 16 then r == Some((acc + Shl(w, bitpos), rest))
            else if w < 128 then r == None
            else r == DecodeVarint32From(EncodeVarint(w / 128) + rest, 35, acc + Shl(w % 16, bitpos))
  {
    hide Accumulate32, BitOr, Shl, Pow2;
    EncodedBytes(w, rest);
    FifthGroup32((EncodeVarint(w) + rest)[0], bitpos, acc);
  }

  /** A group past the 32-bit word. */
  lemma {:induction false} HighStep32(w: nat, bitpos: nat, acc: nat, rest: seq<byte>)
    requires w >= 1 && 35 <= bitpos <= 63
    ensures var r := DecodeVarint32From(EncodeVarint(w) + rest, bitpos, acc);
            if w < 128 then r == if bitpos == 63 && w == 1 && acc / TWO31 != 0 then Some((acc, rest)) else None
            else bitpos < 63 ==>
                 r == if w % 128 == 0 || (w % 128 == 127 && acc / TWO31 != 0)
                      then DecodeVarint32From(EncodeVarint(w / 128) + rest, bitpos + 7, acc)
                      else None
  {
    EncodedBytes(w, rest);
  }

  /** The groups from bit position 35 on are accepted only as the tail of a ten-byte sign extension. */
  predicate SignTail(w: nat, bitpos: nat, negative: bool)
    decreases w
  {
    if w < 128 then bitpos == 63 && w == 1 && negative
    else bitpos < 63 && (w % 128 == 0 || (w % 128 == 127 && negative)) && SignTail(w / 128, bitpos + 7, negative)
  }

  lemma {:induction false} HighGroups32(w: nat, bitpos: nat, acc: nat, rest: seq<byte>)
    requires w >= 1 && 35 <= bitpos <= 63 && Shl(w, bitpos) < TWO64
    ensures DecodeVarint32From(EncodeVarint(w) + rest, bitpos, acc)
         == if SignTail(w, bitpos, acc / TWO31 != 0) then Some((acc, rest)) else None
    decreases w
  {
    HighStep32(w, bitpos, acc, rest);
    if w >= 128 {
      SplitShl(w, bitpos);
      BitposInRange(w / 128, bitpos + 7);
      HighGroups32(w / 128, bitpos + 7, acc, rest);
    }
  }

  lemma {:induction false} ShlTimes(x: nat, k: nat)
    ensures Shl(x, k) == x * Pow2(k)
  {
    if k > 0 {
      ShlTimes(x, k - 1);
      Associate(x, Pow2(k - 1), 2);
    }
  }

  /** The first four groups, up to bit position 28. */
  lemma {:induction false} FirstGroups32(v: nat, rest: seq<byte>)
    ensures var r := DecodeVarint32(EncodeVarint(v) + rest);
            var w := v / 0x1000_0000;
            if w == 0 then r == Some((v, rest))
            else r == DecodeVarint32From(EncodeVarint(w) + rest, 28, v % 0x1000_0000)
  {
    hide BitOr, Shl, Pow2, DecodeVarint32From;
    EncodedBytes(v, rest);
    Pow2Values();
    var v1, v2, v3 := v / 0x80, v / 0x4000, v / 0x20_0000;
    DivMod(v, 0x80, 128);
    DivMod(v, 0x4000, 128);
    DivMod(v, 0x20_0000, 128);
    LowGroups32(v1, 7, v % 0x80, rest);
    LowGroups32(v2, 14, v % 0x4000, rest);
    LowGroups32(v3, 21, v % 0x20_0000, rest);
    ShlTimes(v1, 7);
    ShlTimes(v1 % 128, 7);
    ShlTimes(v2, 14);
    ShlTimes(v2 % 128, 14);
    ShlTimes(v3, 21);
    ShlTimes(v3 % 128, 21);
  }

  /** Peeling a base-`b` digit above the digits collected below `a`. */
  lemma {:induction false} DivMod(v: nat, a: nat, b: nat)
    requires a > 0 && b > 0
    ensures a * b > 0 && v / a / b == v / (a * b)
    ensures v % (a * b) == v % a + v / a % b * a
  {
    var q, r := v / a, v % a;
    var q', d := q / b, q % b;
    assert v == q' * (b * a) + (d * a + r) by {
      assert v == q * a + r && q == q' * b + d;
      Distribute(q' * b, d, a);
      Associate(q', b, a);
    }
    assert d * a + r < b * a by {
      MulMono(d + 1, b, a);
      Distribute(d, 1, a);
    }
    ModUnique(v, b * a, q', d * a + r);
  }

  /** From the fifth group on. */
  lemma {:induction false} LateGroups32(v: nat, rest: seq<byte>)
    requires 0x1000_0000 <= v < TWO64
    ensures DecodeVarint32(EncodeVarint(v) + rest)
         == if v < TWO32 then Some((v, rest))
            else if v < 0x8_0000_0000 then None
            else if SignTail(v / 0x8_0000_0000, 35, v % TWO32 / TWO31 != 0) then Some((v % TWO32, rest))
            else None
  {
    hide BitOr, Shl, Pow2, DecodeVarint32From, DecodeVarint32, EncodeVarint, SignTail;
    FirstGroups32(v, rest);
    var w := v / 0x1000_0000;
    assert Pow2(28) == 0x1000_0000 && Pow2(35) == 0x8_0000_0000 by { Pow2Values(); }
    ShlTimes(w, 28);
    ShlTimes(w % 16, 28);
    FifthStep32(w, 28, v % 0x1000_0000, rest);
    assert v % TWO32 == v % 0x1000_0000 + w % 16 * 0x1000_0000 by { DivMod(v, 0x1000_0000, 16); }
    if v >= 0x8_0000_0000 {
      assert v / 0x8_0000_0000 == w / 128 by { DivMod(v, 0x1000_0000, 128); }
      ShlTimes(v / 0x8_0000_0000, 35);
      HighGroups32(v / 0x8_0000_0000, 35, v % TWO32, rest);
    }
  }

  /**
   * What the 32-bit reader makes of any encoded uint64: 32-bit values come back, values that look like
   * a sign-extended int32 come back modulo 2^32, and everything else is an overflow error.
   */
  lemma {:induction false} Varint32OfEncoded(v: nat, rest: seq<byte>)
    requires v < TWO64
    ensures DecodeVarint32(EncodeVarint(v) + rest)
         == if v < TWO32 then Some((v, rest))
            else if LooksSignExtended(v) then Some((v % TWO32, rest))
            else None
  {
    hide DecodeVarint32, EncodeVarint, SignTail, LooksSignExtended;
    if v < 0x1000_0000 {
      FirstGroups32(v, rest);
    } else {
      LateGroups32(v, rest);
      if v >= 0x8_0000_0000 { SignTailMeans(v); }
    }
    if v < TWO63 { NotSignExtended(v); }
  }

  lemma {:induction false} NotSignExtended(v: nat)
    requires v < TWO63
    ensures !LooksSignExtended(v)
  {
  }

  lemma {:induction false} SignTailMeans(v: nat)
    requires 0x8_0000_0000 <= v < TWO64
    ensures SignTail(v / 0x8_0000_0000, 35, v % TWO32 / TWO31 != 0) <==> LooksSignExtended(v)
  {
    var w := v / 0x8_0000_0000;
    var w1, w2, w3, w4 := w / 128, w / 128 / 128, w / 128 / 128 / 128, w / 128 / 128 / 128 / 128;
    DivMod(v, 0x8_0000_0000, 128);
    DivMod(v, 0x400_0000_0000, 128);
    DivMod(v, 0x2_0000_0000_0000, 128);
    DivMod(v, 0x100_0000_0000_0000, 128);
    DivMod(v, TWO31, 2);
    assert v % TWO32 / TWO31 == v / TWO31 % 2;
    var n := v % TWO32 / TWO31 != 0;
    assert w >= 128 ==> SignTail(w, 35, n) == (AllZerosOrOnes(w % 128) && (w % 128 == 0 || n) && SignTail(w1, 42, n));
    assert w1 >= 128 ==> SignTail(w1, 42, n) == (AllZerosOrOnes(w1 % 128) && (w1 % 128 == 0 || n) && SignTail(w2, 49, n));
    assert w2 >= 128 ==> SignTail(w2, 49, n) == (AllZerosOrOnes(w2 % 128) && (w2 % 128 == 0 || n) && SignTail(w3, 56, n));
    assert w3 >= 128 ==> SignTail(w3, 56, n) == (AllZerosOrOnes(w3 % 128) && (w3 % 128 == 0 || n) && SignTail(w4, 63, n));
    assert SignTail(w4, 63, n) == (w4 == 1 && n);
  }

  /** Every sign-extended negative int32 is accepted, every value in [2^32, 2^63) is rejected. */
  lemma {:induction false} Varint32Extremes(v: nat, rest: seq<byte>)
    ensures TWO64 - TWO31 <= v < TWO64 ==> DecodeVarint32(EncodeVarint(v) + rest) == Some((v % TWO32, rest))
    ensures TWO32 <= v < TWO63 ==> DecodeVarint32(EncodeVarint(v) + rest).None?
  {
    hide DecodeVarint32, EncodeVarint, LooksSignExtended;
    if v < TWO64 {
      Varint32OfEncoded(v, rest);
      if v < TWO63 { NotSignExtended(v); }
      if v >= TWO64 - TWO31 { AllOnes(v); }
    }
  }

  lemma {:induction false} AllOnes(v: nat)
    requires TWO64 - TWO31 <= v < TWO64
    ensures LooksSignExtended(v)
  {
    assert v / TWO31 == 0x1_FFFF_FFFF;
    assert v / 0x8_0000_0000 == 0x1FFF_FFFF;
    assert v / 0x400_0000_0000 == 0x3F_FFFF;
    assert v / 0x2_0000_0000_0000 == 0x7FFF;
    assert v / 0x100_0000_0000_0000 == 0xFF;
  }

  // ---- Zigzag and fixed words ---------------------------------------------------------------

  predicate IsInt64(x: int) { -TWO63 <= x < TWO63 }

  /** The uint64 reinterpretation of an int64, as in the cast `(pb_uint64_t)value`. */
  function AsUint64(x: int): nat
    requires IsInt64(x)
  {
    if x < 0 then x + TWO64 else x
  }

  function AsInt64(u: nat): int
    requires u < TWO64
  {
    if u >= TWO63 then u - TWO64 else u
  }

  /** `pb_encode_svarint`: the doubled word, complemented for negative values. */
  function ZigZag(x: int): (z: nat)
    requires IsInt64(x)
    ensures z < TWO64
  {
    var doubled := AsUint64(x) * 2 % TWO64;
    if x < 0 then TWO64 - 1 - doubled else doubled
  }

  /** `pb_decode_svarint`: halve, and complement when the low bit is set. */
  function UnZigZag(z: nat): (x: int)
    requires z < TWO64
    ensures IsInt64(x)
  {
    if z % 2 == 1 then AsInt64(TWO64 - 1 - z / 2) else AsInt64(z / 2)
  }

  /** Zigzag is a bijection between int64 and uint64 that keeps small magnitudes small. */
  lemma {:induction false} ZigZagRoundTrip(x: int)
    requires IsInt64(x)
    ensures UnZigZag(ZigZag(x)) == x
    ensures ZigZag(x) == if x < 0 then -2 * x - 1 else 2 * x
  {
  }

  lemma {:induction false} UnZigZagRoundTrip(z: nat)
    requires z < TWO64
    ensures ZigZag(UnZigZag(z)) == z
  {
    ZigZagRoundTrip(UnZigZag(z));
  }

  /** `n` little-endian bytes of `v`. */
  function EncodeFixed(v: nat, n: nat): (s: seq<byte>)
    ensures |s| == n
  {
    if n == 0 then [] else [v % 256] + EncodeFixed(v / 256, n - 1)
  }

  function DecodeFixed(s: seq<byte>): nat {
    if s == [] then 0 else s[0] + 256 * DecodeFixed(s[1..])
  }

  lemma {:induction false} FixedRoundTrip(v: nat, n: nat)
    requires v < Pow2(8 * n)
    ensures DecodeFixed(EncodeFixed(v, n)) == v
  {
    if n > 0 {
      assert 8 * n == 8 * (n - 1) + 8;
      Pow2Sum(8 * (n - 1), 8);
      Pow2Values();
      assert v / 256 < Pow2(8 * (n - 1));
      FixedRoundTrip(v / 256, n - 1);
      assert EncodeFixed(v, n)[1..] == EncodeFixed(v / 256, n - 1);
    }
  }
}

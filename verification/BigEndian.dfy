/** Big-endian integers, as `CBB_add_uN` writes and `CBS_get_uN` reads them. */
module BigEndian {
  import opened Common

  /** `n` big-endian bytes of `v`. */
  function PutBe(v: nat, n: nat): (s: seq<byte>)
    ensures |s| == n
  {
    if n == 0 then [] else PutBe(v / 256, n - 1) + [v % 256]
  }

  function GetBe(s: seq<byte>): nat {
    if s == [] then 0 else 256 * GetBe(s[..|s| - 1]) + s[|s| - 1]
  }

  /** The number that two bytes stand for, the more significant one first. */
  function U16(high: byte, low: byte): (v: nat)
    ensures v < TWO16
  {
    256 * (high as int) + low as int
  }

  /** And that of three. */
  function U24(high: byte, middle: byte, low: byte): (v: nat)
    ensures v < 0x100_0000
  {
    65536 * (high as int) + 256 * (middle as int) + low as int
  }

  lemma {:induction false} TwoBytes(v: nat)
    requires v < TWO16
    ensures U16(PutBe(v, 2)[0], PutBe(v, 2)[1]) == v
  {
    assert PutBe(v / 256, 1) == [v / 256];
  }

  lemma {:induction false} ThreeBytes(v: nat)
    requires v < 0x100_0000
    ensures U24(PutBe(v, 3)[0], PutBe(v, 3)[1], PutBe(v, 3)[2]) == v
  {
    TwoBytes(v / 256);
    assert PutBe(v, 3) == PutBe(v / 256, 2) + [v % 256];
  }

  lemma {:induction false} BeRoundTrip(v: nat, n: nat)
    requires v < Pow2(8 * n)
    ensures GetBe(PutBe(v, n)) == v
  {
    if n > 0 {
      assert 8 * n == 8 * (n - 1) + 8;
      Pow2Sum(8 * (n - 1), 8);
      Pow2Values();
      BeRoundTrip(v / 256, n - 1);
      assert PutBe(v, n)[..n - 1] == PutBe(v / 256, n - 1);
    }
  }

  /** Bytes read and written again are the same bytes. */
  lemma {:induction false} BeBytes(s: seq<byte>)
    ensures PutBe(GetBe(s), |s|) == s
  {
    if s != [] {
      BeBytes(s[..|s| - 1]);
      assert s == s[..|s| - 1] + [s[|s| - 1]];
    }
  }

  lemma {:induction false} GetBeBelow(s: seq<byte>)
    ensures GetBe(s) < Pow2(8 * |s|)
  {
    if s != [] {
      GetBeBelow(s[..|s| - 1]);
      assert 8 * |s| == 8 * (|s| - 1) + 8;
      Pow2Sum(8 * (|s| - 1), 8);
      Pow2Values();
    }
  }
}

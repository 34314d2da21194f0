/** The RSA premaster check without branches (`do_read_client_key_exchange`, `constant_time_*`). */
module Premaster {
  const SSL_MAX_MASTER_KEY_LENGTH: nat := 48
  const AllOnes: bv64 := 0xFFFF_FFFF_FFFF_FFFF

  // ---- Masks ---------------------------------------------------------------------------------

  /** `constant_time_msb_w`: the most significant bit copied to all others. */
  function MsbW(a: bv64): (m: bv64)
    ensures m == if a >= 0x8000_0000_0000_0000 then AllOnes else 0
  {
    0 - (a >> 63)
  }

  /** `constant_time_lt_w`. */
  function LtW(a: bv64, b: bv64): (m: bv64)
    ensures m == if a < b then AllOnes else 0
  {
    LtTop(a, b);
    MsbW(a ^ ((a ^ b) | ((a - b) ^ a)))
  }

  /** The top bit of the combination is the borrow of the subtraction, or decided by the operands' own top bits. */
  lemma {:induction false} LtTop(a: bv64, b: bv64)
    ensures a ^ ((a ^ b) | ((a - b) ^ a)) >= 0x8000_0000_0000_0000 <==> a < b
  {
    if a ^ b < 0x8000_0000_0000_0000 { SameTop(a, b); } else { OtherTop(a, b); }
  }

  lemma {:induction false} SameTop(a: bv64, b: bv64)
    requires a ^ b < 0x8000_0000_0000_0000
    ensures a ^ ((a ^ b) | ((a - b) ^ a)) >= 0x8000_0000_0000_0000 <==> a < b
  {
  }

  lemma {:induction false} OtherTop(a: bv64, b: bv64)
    requires a ^ b >= 0x8000_0000_0000_0000
    ensures a ^ ((a ^ b) | ((a - b) ^ a)) >= 0x8000_0000_0000_0000 <==> a < b
  {
  }

  /** `constant_time_is_zero_w`. */
  function IsZeroW(a: bv64): (m: bv64)
    ensures m == if a == 0 then AllOnes else 0
  {
    MsbW(!a & (a - 1))
  }

  /** `constant_time_eq_w`. */
  function EqW(a: bv64, b: bv64): (m: bv64)
    ensures m == if a == b then AllOnes else 0
  {
    IsZeroW(a ^ b)
  }

  /** The low byte of a word. */
  function Low8(w: bv64): (b: bv8) {
    (w & 0xFF) as bv8
  }

  function IsZero8(a: bv8): (m: bv8)
    ensures m == if a == 0 then 0xFF else 0
  {
    Low8(IsZeroW(a as bv64))
  }

  function Eq8(a: bv8, b: bv8): (m: bv8)
    ensures m == if a == b then 0xFF else 0
  {
    Low8(EqW(a as bv64, b as bv64))
  }

  /** `constant_time_select_8`: the masks are widened to words and complemented there. */
  function Select8(mask: bv8, a: bv8, b: bv8): (r: bv8)
    ensures mask == 0xFF ==> r == a
    ensures mask == 0 ==> r == b
  {
    Low8(((mask as bv64) & (a as bv64)) | (!(mask as bv64) & (b as bv64)))
  }

  // ---- The check -----------------------------------------------------------------------------

  /** PKCS#1 padding around a premaster that starts with the client's version (section 7.2.2 of RFC 3447). */
  predicate WellPadded(buf: seq<bv8>, major: bv8, minor: bv8)
    requires |buf| >= 11 + SSL_MAX_MASTER_KEY_LENGTH
  {
    var padding := |buf| - SSL_MAX_MASTER_KEY_LENGTH;
    && buf[0] == 0 && buf[1] == 2
    && (forall i :: 2 <= i < padding - 1 ==> buf[i] != 0)
    && buf[padding - 1] == 0
    && buf[padding] == major && buf[padding + 1] == minor
  }

  /**
   * The premaster taken from a decrypted buffer: its tail when padding and version are right, otherwise the random
   * one, with no branch on the buffer's contents; only a buffer too short for any padding is an error.
   */
  method SelectPremaster(buf: seq<bv8>, premaster: array<bv8>, major: bv8, minor: bv8) returns (ok: bool)
    requires premaster.Length == SSL_MAX_MASTER_KEY_LENGTH
    modifies premaster
    ensures ok <==> |buf| >= 11 + SSL_MAX_MASTER_KEY_LENGTH
    ensures premaster[..] == if ok && WellPadded(buf, major, minor) then buf[|buf| - SSL_MAX_MASTER_KEY_LENGTH..] else old(premaster[..])
  {
    if |buf| < 11 + premaster.Length { return false; }
    var paddingLen := |buf| - premaster.Length;
    var good := Mask(buf, paddingLen, major, minor);
    ghost var random := premaster[..];
    var i := 0;
    while i < premaster.Length
      invariant 0 <= i <= premaster.Length
      invariant forall k :: 0 <= k < i ==> premaster[k] == if good == 0xFF then buf[paddingLen + k] else random[k]
      invariant forall k :: i <= k < premaster.Length ==> premaster[k] == random[k]
    {
      premaster[i] := Select8(good, buf[paddingLen + i], premaster[i]);
      i := i + 1;
    }
    ok := true;
  }

  /** The mask `good`: all ones when the buffer is well padded, zero otherwise. */
  method Mask(buf: seq<bv8>, paddingLen: nat, major: bv8, minor: bv8) returns (good: bv8)
    requires |buf| >= 11 + SSL_MAX_MASTER_KEY_LENGTH && paddingLen == |buf| - SSL_MAX_MASTER_KEY_LENGTH
    ensures good == if WellPadded(buf, major, minor) then 0xFF else 0
  {
    good := Eq8(buf[0], 0) & Eq8(buf[1], 2);
    var i := 2;
    while i < paddingLen - 1
      invariant 2 <= i <= paddingLen - 1
      invariant good == if buf[0] == 0 && buf[1] == 2 && (forall k :: 2 <= k < i ==> buf[k] != 0) then 0xFF else 0
    {
      good := good & !IsZero8(buf[i]);
      i := i + 1;
    }
    good := good & IsZero8(buf[paddingLen - 1]);
    good := good & Eq8(buf[paddingLen], major);
    good := good & Eq8(buf[paddingLen + 1], minor);
  }
}

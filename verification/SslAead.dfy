/** Nonces, additional data and lengths of sealed records (`ssl_aead_ctx.cc`). */
module SslAead {
  import opened Common
  import opened Bits
  import opened BigEndian

  /** The bulk cipher under `EVP_AEAD_CTX`, with its key: sealing appends a tag of a length that may depend on the input. */
  datatype Evp = Evp(
    seal: (seq<byte>, seq<byte>, seq<byte>) -> seq<byte>,
    open: (seq<byte>, seq<byte>, seq<byte>) -> Option<seq<byte>>,
    tagLen: nat -> nat,
    maxOverhead: nat)
  {
    ghost predicate Valid() {
      && forall nonce, ad, text ::
           && |seal(nonce, ad, text)| == |text| + tagLen(|text|)
           && tagLen(|text|) <= maxOverhead
           && open(nonce, ad, seal(nonce, ad, text)) == Some(text)
    }
  }

  /** The families `SSLAEADContext::Create` tells apart, below TLS 1.3. */
  datatype Kind = Null | Stateful | AesGcm | ChaCha20Poly1305 | OtherAead

  /** `SSLAEADContext`, with the flags its constructor and `Create` set for the kind of cipher. */
  datatype Context = Context(kind: Kind, version: nat, fixedNonce: seq<byte>, nonceLen: nat, evp: Evp) {
    predicate Included() { kind.Stateful? || kind.AesGcm? }

    predicate Random() { kind.Stateful? }

    predicate OmitsLength() { kind.Stateful? }

    predicate Xors() { kind.ChaCha20Poly1305? }

    /** `variable_nonce_len_`. */
    function VariableLen(): int {
      if kind.Null? then 0 else if Xors() then 8 else nonceLen - |fixedNonce|
    }

    /** What `Create` and the uses of the context assert. */
    ghost predicate Valid() {
      && version < TWO16
      && (!kind.Null? ==> evp.Valid())
      && (kind.Stateful? ==> fixedNonce == [])
      && (kind.AesGcm? || kind.OtherAead? ==> nonceLen == |fixedNonce| + 8)
      && (Xors() ==> |fixedNonce| >= 8 && nonceLen == |fixedNonce|)
    }

    function ExplicitNonceLen(): (n: nat)
      requires Valid()
    {
      if Included() then VariableLen() else 0
    }

    function MaxOverhead(): nat
      requires Valid()
    {
      ExplicitNonceLen() + if kind.Null? then 0 else evp.maxOverhead
    }

    /** `SuffixLen` without extra input. */
    function SuffixLen(n: nat): nat {
      if kind.Null? then 0 else evp.tagLen(n)
    }

    function AdditionalData(typ: byte, version: nat, seqNum: seq<byte>, plainLen: nat): seq<byte>
      requires |seqNum| == 8
    {
      seqNum + [typ] + PutBe(version, 2) + if OmitsLength() then [] else PutBe(plainLen, 2)
    }

    /** The nonce for a variable part: prepended fixed part, or the fixed part XORed over the zero-padded variable part. */
    function Nonce(variable: seq<byte>): seq<byte>
      requires Xors() ==> |variable| <= |fixedNonce|
    {
      if Xors() then XorBytes(seq(|fixedNonce| - |variable|, _ => 0) + variable, fixedNonce)
      else fixedNonce + variable
    }

    /** `Seal`: the explicit nonce, the ciphertext and the tag; None when the output does not fit. */
    function Seal(typ: byte, version: nat, seqNum: seq<byte>, text: seq<byte>, rand: seq<byte>, maxOut: nat): (r: Option<seq<byte>>)
      requires Valid() && |seqNum| == 8 && |rand| == VariableLen()
      ensures r.Some? ==> |r.value| == ExplicitNonceLen() + |text| + SuffixLen(|text|) <= maxOut
      ensures r.Some? <==> ExplicitNonceLen() + |text| + SuffixLen(|text|) <= maxOut
    {
      if |text| + ExplicitNonceLen() + SuffixLen(|text|) > maxOut then None
      else if kind.Null? then Some(text)
      else
        var variable := if Random() then rand else seqNum;
        var ad := AdditionalData(typ, version, seqNum, |text|);
        Some((if Included() then variable else []) + evp.seal(Nonce(variable), ad, text))
    }

    function Open(typ: byte, version: nat, seqNum: seq<byte>, input: seq<byte>): Option<seq<byte>>
      requires Valid() && |seqNum| == 8
    {
      if kind.Null? then Some(input)
      else if !OmitsLength() && |input| < MaxOverhead() then None
      else
        var plainLen := if OmitsLength() then 0 else |input| - MaxOverhead();
        var ad := AdditionalData(typ, version, seqNum, plainLen);
        if Included() then
          if |input| < VariableLen() then None
          else evp.open(Nonce(input[..VariableLen()]), ad, input[VariableLen()..])
        else evp.open(Nonce(seqNum), ad, input)
    }
  }

  function XorByte(a: byte, b: byte): byte {
    assert Pow2(8) == 256 by { Pow2Values(); }
    BitXorBelow(a, b, 8);
    BitXor(a, b)
  }

  function XorBytes(a: seq<byte>, b: seq<byte>): (r: seq<byte>)
    requires |a| == |b|
    ensures |r| == |a|
  {
    seq(|a|, i requires 0 <= i < |a| => XorByte(a[i], b[i]))
  }

  lemma {:induction false} XorBytesCancels(a: seq<byte>, b: seq<byte>)
    requires |a| == |b|
    ensures XorBytes(XorBytes(a, b), b) == a
  {
    forall i | 0 <= i < |a| ensures XorByte(XorByte(a[i], b[i]), b[i]) == a[i] {
      Pow2Values();
      BitXorCancels(a[i], b[i], 8);
    }
  }

  /** Under one context, different sequence numbers give different nonces. */
  lemma {:induction false} NonceInjective(c: Context, s: seq<byte>, t: seq<byte>)
    requires c.Valid() && |s| == |t| == 8
    ensures c.Nonce(s) == c.Nonce(t) <==> s == t
  {
    if c.Xors() && c.Nonce(s) == c.Nonce(t) {
      var pad: seq<byte> := seq(|c.fixedNonce| - 8, _ => 0);
      XorBytesCancels(pad + s, c.fixedNonce);
      XorBytesCancels(pad + t, c.fixedNonce);
      assert s == (pad + s)[|pad|..] && t == (pad + t)[|pad|..];
    } else if !c.Xors() && c.Nonce(s) == c.Nonce(t) {
      assert s == c.Nonce(s)[|c.fixedNonce|..] && t == c.Nonce(t)[|c.fixedNonce|..];
    }
  }

  /**
   * The reader rebuilds the sealer's additional data exactly when the length is left out of it or the tag
   * has its maximal length.
   */
  lemma {:induction false} AdditionalDataAgrees(c: Context, typ: byte, version: nat, s: seq<byte>, n: nat)
    requires c.Valid() && |s| == 8 && !c.kind.Null? && n + c.SuffixLen(n) < TWO16 && c.SuffixLen(n) + n >= c.evp.maxOverhead
    ensures var onWire := c.ExplicitNonceLen() + n + c.SuffixLen(n);
            var plainLen := if c.OmitsLength() then 0 else onWire - c.MaxOverhead();
            c.AdditionalData(typ, version, s, plainLen) == c.AdditionalData(typ, version, s, n)
            <==> c.OmitsLength() || c.SuffixLen(n) == c.evp.maxOverhead
  {
    var onWire := c.ExplicitNonceLen() + n + c.SuffixLen(n);
    if !c.OmitsLength() {
      var plainLen := onWire - c.MaxOverhead();
      var a, b := c.AdditionalData(typ, version, s, plainLen), c.AdditionalData(typ, version, s, n);
      Pow2Values();
      BeRoundTrip(plainLen, 2);
      BeRoundTrip(n, 2);
      assert a[11..] == PutBe(plainLen, 2) && b[11..] == PutBe(n, 2);
    }
  }

  /** Opening undoes sealing under the same type, version and sequence number, wherever the additional data agrees. */
  lemma {:induction false} OpenSeal(c: Context, typ: byte, version: nat, s: seq<byte>, text: seq<byte>, rand: seq<byte>, maxOut: nat)
    requires c.Valid() && |s| == 8 && |rand| == c.VariableLen()
    requires c.Seal(typ, version, s, text, rand, maxOut).Some?
    requires c.OmitsLength() || c.kind.Null? || c.SuffixLen(|text|) == c.evp.maxOverhead
    ensures c.Open(typ, version, s, c.Seal(typ, version, s, text, rand, maxOut).value) == Some(text)
  {
    if !c.kind.Null? {
      var sealed := c.Seal(typ, version, s, text, rand, maxOut).value;
      var variable := if c.Random() then rand else s;
      var ad := c.AdditionalData(typ, version, s, |text|);
      var inner := c.evp.seal(c.Nonce(variable), ad, text);
      assert c.AdditionalData(typ, version, s, if c.OmitsLength() then 0 else |text|) == ad;
      if c.Included() {
        assert sealed[..c.VariableLen()] == variable && sealed[c.VariableLen()..] == inner;
      } else {
        assert sealed == inner;
      }
    }
  }

  // ---- What a record is bound to -------------------------------------------------------------

  lemma {:induction false} PutBeInjective(a: nat, b: nat)
    requires a < TWO16 && b < TWO16
    ensures PutBe(a, 2) == PutBe(b, 2) <==> a == b
  {
    assert Pow2(16) == TWO16 by { Pow2Values(); }
    BeRoundTrip(a, 2);
    BeRoundTrip(b, 2);
  }

  /** The additional data tell apart sequence numbers, types, versions and, where it is part of them, lengths. */
  lemma {:induction false} AdditionalDataInjective(c: Context, typ: byte, version: nat, s: seq<byte>, n: nat,
                                                   typ': byte, version': nat, s': seq<byte>, n': nat)
    requires |s| == |s'| == 8 && version < TWO16 && version' < TWO16 && n < TWO16 && n' < TWO16
    ensures c.AdditionalData(typ, version, s, n) == c.AdditionalData(typ', version', s', n')
       <==> s == s' && typ == typ' && version == version' && (c.OmitsLength() || n == n')
  {
    hide PutBe;
    var a, b := c.AdditionalData(typ, version, s, n), c.AdditionalData(typ', version', s', n');
    PutBeInjective(version, version');
    PutBeInjective(n, n');
    assert a[..8] == s && a[8] == typ && a[9..11] == PutBe(version, 2);
    assert b[..8] == s' && b[8] == typ' && b[9..11] == PutBe(version', 2);
    assert !c.OmitsLength() ==> a[11..] == PutBe(n, 2) && b[11..] == PutBe(n', 2);
  }

  /** The layout of the additional data: sequence number, type, version, and the length unless it is left out. */
  lemma {:induction false} AdditionalDataBytes(c: Context, typ: byte, version: nat, s: seq<byte>, n: nat)
    requires |s| == 8 && version < TWO16 && n < TWO16
    ensures var ad := c.AdditionalData(typ, version, s, n);
            && |ad| == (if c.kind.Stateful? then 11 else 13) && ad[..8] == s && ad[8] == typ
            && U16(ad[9], ad[10]) == version && (!c.kind.Stateful? ==> U16(ad[11], ad[12]) == n)
  {
    TwoBytes(version);
    TwoBytes(n);
  }

  /** A nonce byte by byte: the fixed part before the variable one, or the fixed part with the variable one in its last eight bytes. */
  lemma {:induction false} NonceBytes(c: Context, s: seq<byte>, i: nat)
    requires c.Valid() && |s| == 8 && (c.Xors() || c.kind.AesGcm? || c.kind.OtherAead?) && i < c.nonceLen
    ensures |c.Nonce(s)| == c.nonceLen
    ensures c.Nonce(s)[i] ==
            if c.kind.ChaCha20Poly1305? then (if i < c.nonceLen - 8 then c.fixedNonce[i] else XorByte(s[i - (c.nonceLen - 8)], c.fixedNonce[i]))
            else if i < |c.fixedNonce| then c.fixedNonce[i] else s[i - |c.fixedNonce|]
  {
    if c.Xors() && i < c.nonceLen - 8 { XorZero(c.fixedNonce[i]); }
  }

  /**
   * The layout of a sealed body, cipher by cipher: a CBC cipher draws its explicit IV at random, AES-GCM sends the sequence
   * number along as its explicit nonce (section 3 of RFC 5288), and ChaCha20-Poly1305 sends none (section 2 of RFC 7905).
   */
  lemma {:induction false} SealedLayout(c: Context, typ: byte, version: nat, s: seq<byte>, text: seq<byte>, rand: seq<byte>, maxOut: nat)
    requires c.Valid() && |s| == 8 && |rand| == c.VariableLen() && c.Seal(typ, version, s, text, rand, maxOut).Some?
    ensures var sealed, ad := c.Seal(typ, version, s, text, rand, maxOut).value, c.AdditionalData(typ, version, s, |text|);
            match c.kind
            case Null => sealed == text
            case Stateful => sealed == rand + c.evp.seal(c.Nonce(rand), ad, text)
            case AesGcm => sealed == s + c.evp.seal(c.Nonce(s), ad, text)
            case _ => sealed == c.evp.seal(c.Nonce(s), ad, text)
  {
    hide PutBe;
    assert forall q: seq<byte> :: [] + q == q;
  }

  lemma {:induction false} XorZero(b: byte)
    ensures XorByte(0, b) == b
  {
  }

  /** The cipher accepts a text only under the additional data it was sealed with, and only what sealing made of it. */
  ghost predicate Authentic(e: Evp) {
    && (forall nonce, ad, text, nonce', ad' :: e.open(nonce', ad', e.seal(nonce, ad, text)).Some? ==> ad' == ad)
    && (forall nonce, ad, input :: e.open(nonce, ad, input).Some? ==> input == e.seal(nonce, ad, e.open(nonce, ad, input).value))
  }

  /** A sealed record opens only under its own sequence number, type and version, whoever changes them on the way. */
  lemma {:induction false} BoundToHeader(c: Context, typ: byte, version: nat, s: seq<byte>, text: seq<byte>, rand: seq<byte>, maxOut: nat,
                                         typ': byte, version': nat, s': seq<byte>)
    requires c.Valid() && !c.kind.Null? && Authentic(c.evp) && |s| == |s'| == 8 && |rand| == c.VariableLen()
    requires version < TWO16 && version' < TWO16 && c.ExplicitNonceLen() + |text| + c.SuffixLen(|text|) < TWO16
    requires c.Seal(typ, version, s, text, rand, maxOut).Some?
    requires c.Open(typ', version', s', c.Seal(typ, version, s, text, rand, maxOut).value).Some?
    ensures s' == s && typ' == typ && version' == version
  {
    hide PutBe, Context.AdditionalData, Context.Nonce;
    var sealed := c.Seal(typ, version, s, text, rand, maxOut).value;
    var variable := if c.Random() then rand else s;
    var ad := c.AdditionalData(typ, version, s, |text|);
    var inner := c.evp.seal(c.Nonce(variable), ad, text);
    var n := if c.OmitsLength() then 0 else |sealed| - c.MaxOverhead();
    if c.Included() {
      assert sealed[..c.VariableLen()] == variable && sealed[c.VariableLen()..] == inner;
    } else {
      assert sealed == inner;
    }
    AdditionalDataInjective(c, typ', version', s', n, typ, version, s, |text|);
  }

  /**
   * With such a cipher, what opens is exactly what was sealed: the explicit nonce, if it is on the wire, and the text
   * sealed under the header at hand.
   */
  lemma {:induction false} OpensOnlySealed(c: Context, typ: byte, version: nat, s: seq<byte>, input: seq<byte>)
    requires c.Valid() && !c.kind.Null? && Authentic(c.evp) && |s| == 8 && c.Open(typ, version, s, input).Some?
    ensures var text := c.Open(typ, version, s, input).value;
            var skip := if c.Included() then c.VariableLen() else 0;
            && skip <= |input|
            && var n := if c.OmitsLength() then 0 else |input| - c.MaxOverhead();
               n >= 0 && input[skip..] == c.evp.seal(c.Nonce(if c.Included() then input[..skip] else s), c.AdditionalData(typ, version, s, n), text)
  {
  }

  // ---- The buffers ---------------------------------------------------------------------------

  /** Nonce assembly in place: padding or fixed part, variable part, then the XOR pass. */
  method AssembleNonce(c: Context, variable: seq<byte>) returns (nonce: array<byte>)
    requires c.Xors() ==> |variable| <= |c.fixedNonce|
    ensures fresh(nonce) && nonce[..] == c.Nonce(variable)
  {
    var prefix := if c.Xors() then |c.fixedNonce| - |variable| else |c.fixedNonce|;
    nonce := new byte[prefix + |variable|];
    forall i | 0 <= i < prefix { nonce[i] := if c.Xors() then 0 else c.fixedNonce[i]; }
    forall i | 0 <= i < |variable| { nonce[prefix + i] := variable[i]; }
    if c.Xors() {
      ghost var plain := nonce[..];
      assert plain == seq(prefix, _ => 0) + variable;
      var i := 0;
      while i < nonce.Length
        invariant 0 <= i <= nonce.Length
        invariant forall k :: 0 <= k < i ==> nonce[k] == XorByte(plain[k], c.fixedNonce[k])
        invariant forall k :: i <= k < nonce.Length ==> nonce[k] == plain[k]
      {
        nonce[i] := XorByte(nonce[i], c.fixedNonce[i]);
        i := i + 1;
      }
      assert nonce[..] == XorBytes(plain, c.fixedNonce);
    }
  }
}

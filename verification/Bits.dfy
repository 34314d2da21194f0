/** Machine words as naturals, and their bits. */
module Bits {
  import opened Common

  /** Bit `k` of `w`. */
  predicate Bit(w: nat, k: nat) {
    if k == 0 then w % 2 == 1 else Bit(w / 2, k - 1)
  }

  /** Bitwise and. */
  function BitAnd(a: nat, b: nat): nat
    decreases a
  {
    if a == 0 then 0 else (if a % 2 == 1 && b % 2 == 1 then 1 else 0) + 2 * BitAnd(a / 2, b / 2)
  }

  /** The low `n` bits set: `(1 << n) - 1`. */
  function Ones(n: nat): nat {
    Pow2(n) - 1
  }

  lemma {:induction false} BitZero(k: nat)
    ensures !Bit(0, k)
  {
    if k > 0 { BitZero(k - 1); }
  }

  lemma {:induction false} BitOrHalves(a: nat, b: nat)
    ensures BitOr(a, b) % 2 == if a % 2 == 1 || b % 2 == 1 then 1 else 0
    ensures BitOr(a, b) / 2 == BitOr(a / 2, b / 2)
  {
    var rest: nat := BitOr(a / 2, b / 2);
    if a != 0 && b != 0 {
      var low: nat := if a % 2 == 1 || b % 2 == 1 then 1 else 0;
      assert BitOr(a, b) == low + 2 * rest;
      OddEven(rest, low);
    }
  }

  lemma {:induction false} BitOrBit(a: nat, b: nat, k: nat)
    ensures Bit(BitOr(a, b), k) <==> Bit(a, k) || Bit(b, k)
    decreases k
  {
    hide BitOr;
    BitOrHalves(a, b);
    if k > 0 { BitOrBit(a / 2, b / 2, k - 1); }
  }

  lemma {:induction false} BitAndBit(a: nat, b: nat, k: nat)
    ensures Bit(BitAnd(a, b), k) <==> Bit(a, k) && Bit(b, k)
    decreases k
  {
    if a == 0 {
      BitZero(k);
    } else if k > 0 {
      BitAndBit(a / 2, b / 2, k - 1);
      assert BitAnd(a, b) / 2 == BitAnd(a / 2, b / 2);
    }
  }

  lemma {:induction false} BitAndBelow(a: nat, b: nat)
    ensures BitAnd(a, b) <= a && BitAnd(a, b) <= b
    decreases a
  {
    if a != 0 { BitAndBelow(a / 2, b / 2); }
  }

  lemma {:induction false} BitPow2(i: nat, k: nat)
    ensures Bit(Pow2(i), k) <==> k == i
  {
    if i == 0 {
      if k > 0 { BitZero(k - 1); }
    } else if k > 0 {
      BitPow2(i - 1, k - 1);
    }
  }

  lemma {:induction false} BitOnes(n: nat, k: nat)
    ensures Bit(Ones(n), k) <==> k < n
  {
    if n == 0 {
      BitZero(k);
    } else if k > 0 {
      BitOnes(n - 1, k - 1);
      assert Ones(n) / 2 == Ones(n - 1);
    }
  }

  /** A word has no bits past its width. */
  lemma {:induction false} BitPastWidth(w: nat, n: nat, k: nat)
    requires w < Pow2(n) && k >= n
    ensures !Bit(w, k)
  {
    if n == 0 {
      BitZero(k);
    } else {
      BitPastWidth(w / 2, n - 1, k - 1);
    }
  }

  /** Complement within `n` bits. */
  lemma {:induction false} BitComplement(w: nat, n: nat, k: nat)
    requires w < Pow2(n)
    ensures Bit(Ones(n) - w, k) <==> k < n && !Bit(w, k)
  {
    if n == 0 {
      BitZero(k);
    } else if k > 0 {
      BitComplement(w / 2, n - 1, k - 1);
      assert (Ones(n) - w) / 2 == Ones(n - 1) - w / 2;
    }
  }

  /** Words of the same width with the same bits are equal. */
  lemma {:induction false} SameBits(a: nat, b: nat, n: nat)
    requires a < Pow2(n) && b < Pow2(n)
    requires forall k: nat :: k < n ==> Bit(a, k) == Bit(b, k)
    ensures a == b
  {
    if n > 0 {
      assert Bit(a, 0) == Bit(b, 0);
      forall k: nat | k < n - 1 ensures Bit(a / 2, k) == Bit(b / 2, k) {
        assert Bit(a, k + 1) == Bit(b, k + 1);
      }
      SameBits(a / 2, b / 2, n - 1);
    }
  }

  lemma {:induction false} BitShl(w: nat, s: nat, k: nat)
    ensures Bit(Shl(w, s), k) <==> k >= s && Bit(w, k - s)
  {
    if s > 0 && k > 0 { BitShl(w, s - 1, k - 1); }
  }

  /** Truncation to `n` bits drops the higher ones. */
  lemma {:induction false} BitMod(w: nat, n: nat, k: nat)
    ensures Bit(w % Pow2(n), k) <==> k < n && Bit(w, k)
  {
    if n == 0 {
      BitZero(k);
    } else {
      var m := Pow2(n - 1);
      HalfMod(w, m);
      if k > 0 { BitMod(w / 2, n - 1, k - 1); }
    }
  }

  lemma {:induction false} HalfMod(w: nat, m: nat)
    requires m > 0
    ensures w % (2 * m) % 2 == w % 2 && w % (2 * m) / 2 == w / 2 % m
  {
    var q, r := w / 2 / m, w / 2 % m;
    assert w / 2 == q * m + r;
    Associate(q, 2, m);
    assert w == q * (2 * m) + (2 * r + w % 2);
    ModUnique(w, 2 * m, q, 2 * r + w % 2);
  }

  /** Bitwise exclusive or. */
  function BitXor(a: nat, b: nat): nat
    decreases a + b
  {
    if a == 0 then b
    else if b == 0 then a
    else (if a % 2 != b % 2 then 1 else 0) + 2 * BitXor(a / 2, b / 2)
  }

  lemma {:induction false} BitXorBelow(a: nat, b: nat, n: nat)
    requires a < Pow2(n) && b < Pow2(n)
    ensures BitXor(a, b) < Pow2(n)
    decreases n
  {
    if n > 0 { BitXorBelow(a / 2, b / 2, n - 1); }
  }

  lemma {:induction false} BitXorHalves(a: nat, b: nat)
    ensures BitXor(a, b) % 2 == if a % 2 != b % 2 then 1 else 0
    ensures BitXor(a, b) / 2 == BitXor(a / 2, b / 2)
  {
    var rest: nat := BitXor(a / 2, b / 2);
    if a != 0 && b != 0 {
      var low: nat := if a % 2 != b % 2 then 1 else 0;
      assert BitXor(a, b) == low + 2 * rest;
      OddEven(rest, low);
    }
  }

  lemma {:induction false} OddEven(rest: nat, low: nat)
    requires low < 2
    ensures (low + 2 * rest) % 2 == low && (low + 2 * rest) / 2 == rest
  {
  }

  /** Exclusive or with the same mask twice gives the word back. */
  lemma {:induction false} BitXorCancels(a: nat, b: nat, n: nat)
    requires a < Pow2(n) && b < Pow2(n)
    ensures BitXor(BitXor(a, b), b) == a
    decreases n
  {
    if n > 0 {
      var x := BitXor(a, b);
      BitXorHalves(a, b);
      BitXorHalves(x, b);
      BitXorCancels(a / 2, b / 2, n - 1);
    }
  }
}

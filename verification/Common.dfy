/** Types and arithmetic shared by the models of the vendored C and C++ libraries. */
module Common {

  datatype Option<+T> = None | Some(value: T)

  /** An octet of a wire format. */
  type byte = x: int | 0 <= x < 256

  const TWO16: int := 0x1_0000
  const TWO31: int := 0x8000_0000
  const TWO32: int := 0x1_0000_0000
  const TWO63: int := 0x8000_0000_0000_0000
  const TWO64: int := 0x1_0000_0000_0000_0000

  type uint32 = x: int | 0 <= x < TWO32

  function Pow2(n: nat): (p: nat)
    ensures p >= 1
  {
    if n == 0 then 1 else 2 * Pow2(n - 1)
  }

  /** The values of `Pow2` at the bit positions the decoders visit. */
  lemma {:induction false} Pow2Values()
    ensures Pow2(4) == 16 && Pow2(7) == 128 && Pow2(8) == 256 && Pow2(14) == 0x4000 && Pow2(16) == TWO16
    ensures Pow2(21) == 0x20_0000 && Pow2(24) == 0x100_0000 && Pow2(28) == 0x1000_0000
    ensures Pow2(31) == TWO31 && Pow2(32) == TWO32 && Pow2(35) == 0x8_0000_0000
    ensures Pow2(42) == 0x400_0000_0000 && Pow2(49) == 0x2_0000_0000_0000
    ensures Pow2(56) == 0x100_0000_0000_0000 && Pow2(63) == TWO63 && Pow2(64) == TWO64
  {
    assert Pow2(7) == 128;
    assert Pow2(8) == 256;
    assert Pow2(14) == 0x4000 by { Pow2Sum(7, 7); }
    assert Pow2(16) == TWO16 by { Pow2Sum(8, 8); }
    assert Pow2(21) == 0x20_0000 by { Pow2Sum(14, 7); }
    assert Pow2(24) == 0x100_0000 by { Pow2Sum(16, 8); }
    assert Pow2(28) == 0x1000_0000 by { Pow2Sum(21, 7); }
    assert Pow2(32) == TWO32 by { Pow2Sum(16, 16); }
    assert Pow2(31) == TWO31;
    assert Pow2(35) == 0x8_0000_0000 by { Pow2Sum(28, 7); }
    assert Pow2(42) == 0x400_0000_0000 by { Pow2Sum(35, 7); }
    assert Pow2(49) == 0x2_0000_0000_0000 by { Pow2Sum(42, 7); }
    assert Pow2(56) == 0x100_0000_0000_0000 by { Pow2Sum(49, 7); }
    assert Pow2(63) == TWO63 by { Pow2Sum(56, 7); }
    assert Pow2(64) == TWO64;
  }

  lemma {:induction false} Pow2Sum(m: nat, n: nat)
    ensures Pow2(m + n) == Pow2(m) * Pow2(n)
  {
    if n > 0 {
      Pow2Sum(m, n - 1);
      assert m + n - 1 == m + (n - 1);
      assert Pow2(m) * Pow2(n) == 2 * (Pow2(m) * Pow2(n - 1));
    }
  }

  /** Bitwise or of two naturals, bit by bit from the least significant end. */
  function BitOr(a: nat, b: nat): nat
    decreases a + b
  {
    if a == 0 then b
    else if b == 0 then a
    else (if a % 2 == 1 || b % 2 == 1 then 1 else 0) + 2 * BitOr(a / 2, b / 2)
  }

  /** `x` shifted left by `k` places, without truncation. */
  function Shl(x: nat, k: nat): nat {
    if k == 0 then x else 2 * Shl(x, k - 1)
  }

  lemma {:induction false} ShlAdd(a: nat, b: nat, k: nat)
    ensures Shl(a + b, k) == Shl(a, k) + Shl(b, k)
  {
    if k > 0 { ShlAdd(a, b, k - 1); }
  }

  lemma {:induction false} ShlMono(a: nat, b: nat, k: nat)
    requires a <= b
    ensures Shl(a, k) <= Shl(b, k)
  {
    ShlAdd(a, b - a, k);
  }

  lemma {:induction false} ShlOne(k: nat)
    ensures Shl(1, k) == Pow2(k)
  {
    if k > 0 { ShlOne(k - 1); }
  }

  lemma {:induction false} ShlShl(x: nat, j: nat, k: nat)
    ensures Shl(x, j + k) == Shl(Shl(x, j), k)
  {
    if k > 0 {
      ShlShl(x, j, k - 1);
      assert j + k - 1 == j + (k - 1);
    }
  }

  lemma {:induction false} ShlSeven(x: nat, k: nat)
    ensures Shl(x, k + 7) == 128 * Shl(x, k)
    ensures Shl(x, k + 7) == Shl(128 * x, k)
  {
    ShlByFour(x, k);
    ShlByFour(Shl(x, k), 0);
    ShlByFour(x, 0);
    ShlShl(x, 7, k);
    assert k + 7 == 7 + k;
  }

  lemma {:induction false} ShlByFour(x: nat, k: nat)
    ensures Shl(x, k + 4) == 16 * Shl(x, k) && Shl(x, k + 7) == 128 * Shl(x, k)
  {
    assert Shl(x, k + 2) == 4 * Shl(x, k);
    assert Shl(x, k + 4) == 4 * Shl(x, k + 2);
    assert Shl(x, k + 6) == 4 * Shl(x, k + 4);
  }

  /** When the operands share no bit position, or is addition. */
  lemma {:induction false} BitOrDisjoint(a: nat, c: nat, k: nat)
    requires a < Pow2(k)
    ensures BitOr(a, Shl(c, k)) == a + Shl(c, k)
    decreases k
  {
    if a != 0 && Shl(c, k) != 0 {
      assert k > 0;
      BitOrDisjoint(a / 2, c, k - 1);
    }
  }

  lemma {:induction false} BitOrBelow(a: nat, b: nat, k: nat)
    requires a < Pow2(k) && b < Pow2(k)
    ensures BitOr(a, b) < Pow2(k)
    decreases k
  {
    if k > 0 { BitOrBelow(a / 2, b / 2, k - 1); }
  }

  lemma {:induction false} WordOr(a: nat, b: nat)
    requires a < TWO64 && b < TWO64
    ensures BitOr(a, b) < TWO64
  {
    assert Pow2(64) == TWO64 by { Pow2Values(); }
    BitOrBelow(a, b, 64);
  }

  /** A left shift truncated to `w` bits keeps the low `w - k` bits of its operand. */
  lemma {:induction false} ShlMod(d: nat, k: nat, w: nat)
    requires k <= w
    ensures Shl(d, k) % Pow2(w) == Shl(d % Pow2(w - k), k)
  {
    if k > 0 {
      ShlMod(d, k - 1, w - 1);
      assert w - 1 - (k - 1) == w - k;
      DoubleMod(Shl(d, k - 1), Pow2(w - 1));
    }
  }

  lemma {:induction false} DoubleMod(x: nat, m: nat)
    requires m > 0
    ensures 2 * x % (2 * m) == 2 * (x % m)
  {
    var q, r := x / m, x % m;
    assert x == q * m + r;
    Associate(q, 2, m);
    ModUnique(2 * x, 2 * m, q, 2 * r);
  }

  lemma {:induction false} MulMono(a: nat, b: nat, p: nat)
    requires a <= b
    ensures a * p <= b * p
  {
  }

  lemma {:induction false} Pow2Mono(m: nat, n: nat)
    requires m <= n
    ensures Pow2(m) <= Pow2(n)
    decreases n
  {
    if m < n {
      Pow2Mono(m, n - 1);
    }
  }

  lemma {:induction false} ModAtMost(d: nat, m: nat)
    requires m > 0
    ensures d % m <= d
  {
    var q := d / m;
    assert d == m * q + d % m;
    assert m * q >= 0;
  }

  lemma {:induction false} Distribute(a: int, b: int, p: int)
    ensures (a + b) * p == a * p + b * p
  {
  }

  lemma {:induction false} Associate(a: int, b: int, p: int)
    ensures a * b * p == a * (b * p)
  {
  }

  lemma {:induction false} SmallMultiple(k: int, m: nat)
    requires -(m as int) < k * m < m
    ensures k == 0
  {
    var n := if k < 0 then -k else k;
    assert n * m < m;
    if n >= 1 { MulMono(1, n, m); }
  }

  lemma {:induction false} ModUnique(x: int, m: nat, q: int, r: nat)
    requires x == q * m + r && r < m
    ensures x % m == r && x / m == q
  {
    var q', r' := x / m, x % m;
    assert x == q' * m + r';
    var k: int := q' - q;
    Distribute(k, q, m);
    SmallMultiple(k, m);
  }

  /** `n` bytes from elsewhere: the allocator or the random number generator. */
  function Supplied(n: nat, source: nat -> byte): (s: seq<byte>)
    ensures |s| == n
  {
    seq(n, i requires 0 <= i < n => source(i))
  }
}

/** Bitwise operators of the C code on unsigned integers, and the arithmetic they amount to. */
module Bits {

  const U64: nat := 0x1_0000_0000_0000_0000

  function Pow2(k: nat): (p: nat)
    ensures p > 0
  {
    if k == 0 then 1 else 2 * Pow2(k - 1)
  }

  function Or(a: nat, b: nat): nat
    decreases a + b
  {
    if a == 0 then b
    else if b == 0 then a
    else (if a % 2 == 1 || b % 2 == 1 then 1 else 0) + 2 * Or(a / 2, b / 2)
  }

  function And(a: nat, b: nat): nat
  {
    if a == 0 || b == 0 then 0
    else (if a % 2 == 1 && b % 2 == 1 then 1 else 0) + 2 * And(a / 2, b / 2)
  }

  /** `x << s` on an unsigned 64-bit integer, one position at a time, high bits lost. */
  function Shl64(x: nat, s: nat): (r: nat)
    ensures r < U64
  {
    if s == 0 then x % U64 else 2 * Shl64(x, s - 1) % U64
  }

  lemma DoubleMod(y: nat)
    ensures 2 * (y % U64) % U64 == 2 * y % U64
  {
    var q := y / U64;
    assert 2 * y == 2 * q * U64 + 2 * (y % U64);
  }

  lemma {:induction false} ShlMultiplies(x: nat, s: nat)
    ensures Shl64(x, s) == x * Pow2(s) % U64
  {
    if s > 0 {
      ShlMultiplies(x, s - 1);
      DoubleMod(x * Pow2(s - 1));
      assert x * Pow2(s) == 2 * (x * Pow2(s - 1));
    }
  }

  lemma Pow2Adds(a: nat, b: nat)
    ensures Pow2(a + b) == Pow2(a) * Pow2(b)
  {
    if a == 0 {
    } else {
      Pow2Adds(a - 1, b);
      assert Pow2(a + b) == 2 * Pow2(a - 1 + b);
    }
  }

  lemma Pow2Values()
    ensures Pow2(7) == 128 && Pow2(8) == 256 && Pow2(9) == 512 && Pow2(63) == 0x8000_0000_0000_0000 && Pow2(64) == U64
    ensures Pow2(16) == 0x1_0000 && Pow2(24) == 0x100_0000 && Pow2(32) == 0x1_0000_0000
  {
    Pow2Adds(8, 8);
    Pow2Adds(8, 16);
    Pow2Adds(16, 16);
    Pow2Adds(32, 32);
  }

  lemma Pow2Monotone(a: nat, b: nat)
    requires a <= b
    ensures Pow2(a) <= Pow2(b)
  {
    if a < b {
      Pow2Monotone(a, b - 1);
    }
  }

  /** Setting bits above position k in a number below 2^k is addition. */
  lemma {:induction false} OrDisjoint(a: nat, b: nat, k: nat)
    requires a < Pow2(k)
    ensures Or(a, b * Pow2(k)) == a + b * Pow2(k)
  {
    if k == 0 || a == 0 || b == 0 {
    } else {
      var p := b * Pow2(k - 1);
      assert b * Pow2(k) == 2 * p;
      OrDisjoint(a / 2, b, k - 1);
    }
  }

  /** Masking with 2^k - 1 is the remainder modulo 2^k. */
  lemma {:induction false} AndMask(n: nat, k: nat)
    ensures And(n, Pow2(k) - 1) == n % Pow2(k)
  {
    if k == 0 {
      assert n % 1 == 0;
    } else {
      AndMask(n / 2, k - 1);
      MaskStep(n, Pow2(k - 1) - 1);
      assert Pow2(k) - 1 == 2 * (Pow2(k - 1) - 1) + 1;
    }
  }

  lemma MaskStep(n: nat, m: nat)
    requires And(n / 2, m) == n / 2 % (m + 1)
    ensures And(n, 2 * m + 1) == n % (2 * (m + 1))
  {
    AndOdd(n, m);
    HalfMod(n, m + 1);
  }

  lemma AndOdd(n: nat, m: nat)
    ensures And(n, 2 * m + 1) == n % 2 + 2 * And(n / 2, m)
  {
    assert (2 * m + 1) / 2 == m;
  }

  lemma HalfMod(n: nat, p: nat)
    requires p > 0
    ensures n % (2 * p) == n % 2 + 2 * (n / 2 % p)
  {
    var q, m := n / 2 / p, n / 2 % p;
    assert n == q * (2 * p) + (2 * m + n % 2) by {
      assert n / 2 == q * p + m;
      assert q * (2 * p) == 2 * (q * p);
    }
    DivModUnique(n, 2 * p, q, 2 * m + n % 2);
  }

  lemma DivModUnique(n: nat, d: nat, q: nat, r: nat)
    requires d > 0 && r < d && n == q * d + r
    ensures n % d == r && n / d == q
  {
    var k := n / d - q;
    assert k * d == r - n % d by {
      assert n == n / d * d + n % d;
      assert k * d == n / d * d - q * d;
    }
    SmallMultiple(k, d);
  }

  lemma SmallMultiple(k: int, d: int)
    requires -d < k * d < d
    ensures k == 0
  {
  }
}

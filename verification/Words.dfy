/** 32-bit unsigned words: wrap-around, bitwise and, powers of two. */
module Words {
  import opened Bytes

  const WRAP := 0x1_0000_0000

  type word = x: int | 0 <= x < WRAP

  function Min(a: int, b: int): int {
    if a < b then a else b
  }

  /** Bitwise and. */
  function And(a: nat, b: nat): nat {
    if a == 0 || b == 0 then 0 else 2 * And(a / 2, b / 2) + (a % 2) * (b % 2)
  }

  ghost predicate IsPow2(n: nat) {
    exists k: nat :: n == Pow2(k)
  }

  // ---------------------------------------------------------------- division with remainder

  lemma ModUnique(x: int, d: nat, q: int, r: int)
    requires x == q * d + r && 0 <= r < d
    ensures x % d == r && x / d == q
  {
    var q', r' := x / d, x % d;
    assert x == q' * d + r' && 0 <= r' < d;
    assert (q - q') * d == r' - r;
    TimesAtLeast(q - q', d);
  }

  lemma DivTwice(n: nat, p: nat)
    requires 0 < p
    ensures n / 2 / p == n / (2 * p)
  {
    var q, r := n / 2 / p, n / 2 % p;
    assert n / 2 == q * p + r;
    assert n == q * (2 * p) + (2 * r + n % 2);
    ModUnique(n, 2 * p, q, 2 * r + n % 2);
  }

  lemma TimesAtLeast(e: int, d: int)
    requires 0 <= d
    ensures e >= 1 ==> e * d >= d
    ensures e <= -1 ==> e * d <= -d
  {
  }

  lemma ModStep(a: nat, i: nat, d: nat)
    requires 0 < d && i <= d
    ensures (a + i) % d == if a % d + i < d then a % d + i else a % d + i - d
  {
    var q := a / d;
    assert a == q * d + a % d;
    if a % d + i < d {
      ModUnique(a + i, d, q, a % d + i);
    } else {
      assert (q + 1) * d == q * d + d;
      ModUnique(a + i, d, q + 1, a % d + i - d);
    }
  }

  /** Fewer than d consecutive indices fall into different slots. */
  lemma ModDistinct(a: nat, i: nat, j: nat, d: nat)
    requires i < j < i + d
    ensures (a + i) % d != (a + j) % d
  {
    ModStep(a + i, j - i, d);
  }

  lemma ModMultiple(x: int, d: nat, m: nat)
    requires 0 < d && 0 < m
    ensures 0 < d * m && (x % (d * m)) % d == x % d
  {
    assert 0 < d * m;
    var q, r := x / (d * m), x % (d * m);
    assert x == q * (d * m) + r;
    var s := r / d;
    assert r == s * d + r % d;
    assert q * (d * m) == (q * m) * d;
    assert x == (q * m + s) * d + r % d by {
      assert (q * m + s) * d == (q * m) * d + s * d;
    }
    ModUnique(x, d, q * m + s, r % d);
  }

  // ---------------------------------------------------------------- powers of two

  lemma {:induction false} Pow2Positive(k: nat)
    ensures 0 < Pow2(k)
  {
    if k == 0 {
    } else {
      Pow2Positive(k - 1);
    }
  }

  lemma {:induction false} Pow2Add(j: nat, k: nat)
    ensures Pow2(j + k) == Pow2(j) * Pow2(k)
  {
    if j == 0 {
    } else {
      Pow2Add(j - 1, k);
      assert Pow2(j) * Pow2(k) == 2 * (Pow2(j - 1) * Pow2(k));
    }
  }

  lemma Pow2Of31()
    ensures Pow2(31) == 0x8000_0000 && Pow2(32) == WRAP
  {
    assert Pow2(8) == 256;
    Pow2Add(8, 8);
    Pow2Add(16, 8);
    Pow2Add(24, 7);
    Pow2Add(31, 1);
  }

  /** The 32-bit wrap-around is invisible modulo a smaller power of two. */
  lemma WrapMod(x: int, k: nat)
    requires k <= 32
    ensures 0 < Pow2(k) && (x % WRAP) % Pow2(k) == x % Pow2(k)
  {
    Pow2Of31();
    Pow2Add(k, 32 - k);
    Pow2Positive(k);
    Pow2Positive(32 - k);
    ModMultiple(x, Pow2(k), Pow2(32 - k));
  }

  // ---------------------------------------------------------------- masks

  lemma DoubleMod(x: nat, p: nat)
    requires 0 < p
    ensures x % (2 * p) == 2 * (x / 2 % p) + x % 2
  {
    var q, r := x / 2 / p, x / 2 % p;
    assert x / 2 == q * p + r;
    assert x == q * (2 * p) + (2 * r + x % 2) by {
      assert q * (2 * p) == 2 * (q * p);
    }
    ModUnique(x, 2 * p, q, 2 * r + x % 2);
  }

  /** Masking with a power of two less one is the remainder. */
  lemma {:induction false} AndMask(x: nat, k: nat)
    ensures 0 < Pow2(k) && And(x, Pow2(k) - 1) == x % Pow2(k)
    decreases k
  {
    Pow2Positive(k);
    if k == 0 {
    } else {
      Pow2Positive(k - 1);
      AndMask(x / 2, k - 1);
      MaskStep(x, Pow2(k - 1));
    }
  }

  lemma MaskStep(x: nat, p: nat)
    requires 0 < p && And(x / 2, p - 1) == x / 2 % p
    ensures And(x, 2 * p - 1) == x % (2 * p)
  {
    var m: nat := 2 * p - 1;
    assert m / 2 == p - 1 && m % 2 == 1;
    AndHalves(x, m);
    DoubleMod(x, p);
  }

  lemma AndHalves(a: nat, b: nat)
    ensures And(a, b) == 2 * And(a / 2, b / 2) + (a % 2) * (b % 2)
  {
  }

  lemma {:induction false} AndSelf(n: nat)
    ensures And(n, n) == n
  {
    if n == 0 {
    } else {
      AndSelf(n / 2);
    }
  }

  lemma Pow2Parity(k: nat)
    ensures Pow2(k) == 1 || Pow2(k) % 2 == 0
  {
  }

  /** The test n & (n - 1) recognises exactly the powers of two. */
  lemma {:induction false} PowerTest(n: nat)
    requires 0 < n
    ensures And(n, n - 1) == 0 <==> IsPow2(n)
  {
    if n == 1 {
      assert n == Pow2(0);
    } else if n % 2 == 0 {
      PowerTest(n / 2);
      assert (n - 1) / 2 == n / 2 - 1;
      if IsPow2(n) {
        var k: nat :| n == Pow2(k);
        assert k != 0;
        assert n / 2 == Pow2(k - 1);
      }
      if IsPow2(n / 2) {
        var k: nat :| n / 2 == Pow2(k);
        assert n == Pow2(k + 1);
      }
    } else {
      AndSelf(n / 2);
      assert (n - 1) / 2 == n / 2;
      if IsPow2(n) {
        var k: nat :| n == Pow2(k);
        Pow2Parity(k);
      }
    }
  }

  /** A single bit at or above the top of n. */
  lemma {:induction false} AndTopBit(j: nat, n: nat)
    requires n < 2 * Pow2(j)
    ensures And(Pow2(j), n) == 0 <==> n < Pow2(j)
    decreases j
  {
    Pow2Positive(j);
    if j != 0 && n != 0 {
      AndTopBit(j - 1, n / 2);
    }
  }

  lemma {:induction false} Pow2Monotone(j: nat, k: nat)
    requires j <= k
    ensures Pow2(j) <= Pow2(k)
    decreases k
  {
    if j == k {
    } else {
      Pow2Monotone(j, k - 1);
      Pow2Positive(k - 1);
    }
  }
}

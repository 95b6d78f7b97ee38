/** Powers of two and bitwise operations on non-negative integers. */
module Bits {
  function Pow2(k: nat): (p: nat)
    ensures p > 0
  {
    if k == 0 then 1 else 2 * Pow2(k - 1)
  }

  /** bin(n).count('1') */
  function PopCount(n: nat): nat {
    if n == 0 then 0 else n % 2 + PopCount(n / 2)
  }

  /** n & m on non-negative integers. */
  function BitAnd(n: nat, m: nat): nat
    decreases n
  {
    if n == 0 || m == 0 then 0
    else (if n % 2 == 1 && m % 2 == 1 then 1 else 0) + 2 * BitAnd(n / 2, m / 2)
  }

  /** n | m on non-negative integers. */
  function BitOr(n: nat, m: nat): nat
    decreases n + m
  {
    if n == 0 then m else if m == 0 then n
    else (if n % 2 + m % 2 > 0 then 1 else 0) + 2 * BitOr(n / 2, m / 2)
  }

  lemma Pow2Of32()
    ensures Pow2(8) == 256 && Pow2(16) == 0x1_0000 && Pow2(24) == 0x100_0000 && Pow2(32) == 0x1_0000_0000
  {
    assert Pow2(4) == 16;
    assert Pow2(8) == 16 * Pow2(4);
    assert Pow2(12) == 16 * Pow2(8);
    assert Pow2(16) == 16 * Pow2(12);
    assert Pow2(20) == 16 * Pow2(16);
    assert Pow2(24) == 16 * Pow2(20);
    assert Pow2(28) == 16 * Pow2(24);
    assert Pow2(32) == 16 * Pow2(28);
  }

  lemma {:induction false} Pow2Add(a: nat, b: nat)
    ensures Pow2(a + b) == Pow2(a) * Pow2(b)
    decreases a
  {
    if a > 0 {
      Pow2Add(a - 1, b);
    }
  }

  lemma {:induction false} PopCountOnes(m: nat, k: nat)
    ensures PopCount(Ones(m, k)) == m
    decreases k, m
  {
    if k > 0 {
      PopCountOnes(m, k - 1);
      assert Ones(m, k) / 2 == Ones(m, k - 1);
    } else if m > 0 {
      PopCountOnes(m - 1, 0);
      assert Ones(m, 0) / 2 == Ones(m - 1, 0);
    }
  }

  /** The one bits of a number are those above and those below any position. */
  lemma {:induction false} PopCountSplit(n: nat, low: nat, k: nat)
    requires low < Pow2(k)
    ensures PopCount(n * Pow2(k) + low) == PopCount(n) + PopCount(low)
    decreases k
  {
    if k > 0 {
      var m := n * Pow2(k - 1);
      assert n * Pow2(k) == 2 * m;
      assert (2 * m + low) % 2 == low % 2 && (2 * m + low) / 2 == m + low / 2;
      PopCountSplit(n, low / 2, k - 1);
    }
  }

  /** The low bit and the rest of an and are independent. */
  lemma BitAndLow(low: nat, high: nat, m: nat)
    requires low <= 1 && m != 0 && low <= m % 2
    ensures BitAnd(low + 2 * high, m) == low + 2 * BitAnd(high, m / 2)
  {
    var r := low + 2 * high;
    assert r % 2 == low && r / 2 == high;
  }

  lemma {:induction false} BitAndTwice(n: nat, m: nat)
    ensures BitAnd(BitAnd(n, m), m) == BitAnd(n, m) <= m
    decreases n
  {
    if n != 0 && m != 0 {
      BitAndTwice(n / 2, m / 2);
      var low := if n % 2 == 1 && m % 2 == 1 then 1 else 0;
      BitAndLow(low, BitAnd(n / 2, m / 2), m);
    }
  }

  /** m one bits above k zero bits. */
  function Ones(m: nat, k: nat): nat
    decreases k, m
  {
    if k > 0 then 2 * Ones(m, k - 1) else if m > 0 then 1 + 2 * Ones(m - 1, 0) else 0
  }

  lemma {:induction false} OnesIs(m: nat, k: nat)
    ensures Ones(m, k) + Pow2(k) == Pow2(m + k)
    decreases k, m
  {
    if k > 0 {
      OnesIs(m, k - 1);
    } else if m > 0 {
      OnesIs(m - 1, 0);
    }
  }

  /** n with its k low bits cleared. */
  function ClearLow(n: nat, k: nat): nat
    decreases k
  {
    if k == 0 then n else 2 * ClearLow(n / 2, k - 1)
  }

  lemma {:induction false} ClearLowIs(n: nat, k: nat)
    ensures ClearLow(n, k) == n - n % Pow2(k)
    decreases k
  {
    if k > 0 {
      ClearLowIs(n / 2, k - 1);
      HalfMod(n, Pow2(k - 1));
    }
  }

  lemma BitAndStep(n: nat, m: nat)
    ensures BitAnd(n, m) == (if n % 2 == 1 && m % 2 == 1 then 1 else 0) + 2 * BitAnd(n / 2, m / 2)
  {}

  lemma {:induction false} BitAndOnes(n: nat, m: nat, k: nat)
    requires n < Pow2(m + k)
    ensures BitAnd(n, Ones(m, k)) == ClearLow(n, k)
    decreases k, m
  {
    hide BitAnd;
    if k == 0 && m == 0 {
      BitAndStep(n, 0);
    }
    if k > 0 {
      BitAndOnes(n / 2, m, k - 1);
      BitAndStep(n, Ones(m, k));
      assert Ones(m, k) / 2 == Ones(m, k - 1) && Ones(m, k) % 2 == 0;
    } else if m > 0 {
      BitAndOnes(n / 2, m - 1, 0);
      BitAndStep(n, Ones(m, 0));
      assert Ones(m, 0) / 2 == Ones(m - 1, 0) && Ones(m, 0) % 2 == 1;
    }
  }

  lemma HalfMod(n: nat, h: nat)
    requires h > 0
    ensures n % (2 * h) == n % 2 + 2 * ((n / 2) % h)
  {
    var q, r := (n / 2) / h, (n / 2) % h;
    assert n / 2 == q * h + r;
    var low := n % 2 + 2 * r;
    assert n == 2 * (q * h + r) + n % 2;
    assert n == q * (2 * h) + low by { assert 2 * (q * h) == q * (2 * h); }
    ModIs(n, 2 * h, q, low);
  }

  lemma MultipleOutside(k: int, d: nat)
    ensures k >= 1 ==> k * d >= d
    ensures k <= -1 ==> k * d + d <= 0
  {
    if k >= 1 {
      assert (k - 1) * d >= 0;
    } else if k <= -1 {
      assert (-1 - k) * d >= 0;
    }
  }

  /** Quotient and remainder are unique. */
  lemma ModIs(n: nat, d: nat, q: nat, r: nat)
    requires d > 0 && n == q * d + r && r < d
    ensures n % d == r && n / d == q
  {
    var k := n / d - q;
    assert k * d == (n / d) * d - q * d;
    assert n == (n / d) * d + n % d;
    MultipleOutside(k, d);
  }

  lemma {:induction false} BitOrDisjoint(n: nat, low: nat, k: nat)
    requires low < Pow2(k)
    ensures BitOr(n * Pow2(k), low) == n * Pow2(k) + low
    decreases k
  {
    if k > 0 {
      var m := n * Pow2(k);
      assert m == 2 * (n * Pow2(k - 1));
      assert m % 2 == 0 && m / 2 == n * Pow2(k - 1);
      BitOrDisjoint(n, low / 2, k - 1);
    }
  }
}

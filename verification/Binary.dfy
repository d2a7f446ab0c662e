/**
 Binary arithmetic behind the Merkle Mountain Range positions. Shifts are defined by doubling,
 so every fact below is linear in the solver's eyes.
 */
module Binary {

  /** First value outside an unsigned 64-bit word. */
  const U64_LIMIT := 0x1_0000_0000_0000_0000

  /** Half of it: the greatest leaf count whose node count still fits in a word. */
  const MAX_LEAVES := 0x8000_0000_0000_0000

  /** 2^k. */
  function Pow2(k: nat): (p: nat)
    ensures p >= 1
  {
    if k == 0 then 1 else 2 * Pow2(k - 1)
  }

  /** x << h. */
  function Shl(x: nat, h: nat): (r: nat)
    ensures r >= x
    decreases h
  {
    if h == 0 then x else Shl(2 * x, h - 1)
  }

  /** x >> h. */
  function Shr(x: nat, h: nat): nat {
    if h == 0 then x else Shr(x, h - 1) / 2
  }

  /** Number of set bits, Rust's `count_ones`. */
  function PopCount(n: nat): (c: nat)
    ensures c <= n
  {
    if n == 0 then 0 else n % 2 + PopCount(n / 2)
  }

  /** Index of the highest set bit, `63 - leading_zeros` on a 64-bit word. */
  function Log2(n: nat): (k: nat)
    requires n > 0
    ensures Pow2(k) <= n < Pow2(k + 1)
  {
    if n == 1 then 0 else 1 + Log2(n / 2)
  }

  lemma Pow2Next(k: nat)
    ensures Pow2(k + 1) == 2 * Pow2(k)
  {
  }

  lemma ShrNext(x: nat, k: nat)
    ensures Shr(x, k + 1) == Shr(x, k) / 2
  {
  }

  lemma ShlZero(x: nat)
    ensures Shl(x, 0) == x
  {
  }

  lemma {:induction false} ShlAdd(x: nat, y: nat, h: nat)
    ensures Shl(x + y, h) == Shl(x, h) + Shl(y, h)
    decreases h
  {
    if h > 0 {
      ShlAdd(2 * x, 2 * y, h - 1);
    }
  }

  lemma {:induction false} ShlOne(h: nat)
    ensures Shl(1, h) == Pow2(h)
    ensures Shl(0, h) == 0
  {
    if h > 0 {
      ShlOne(h - 1);
      ShlAdd(1, 1, h - 1);
    }
  }

  lemma ShlNext(x: nat, h: nat)
    ensures Shl(x + 1, h) == Shl(x, h) + Pow2(h)
  {
    ShlAdd(x, 1, h);
    ShlOne(h);
  }

  /** Shifting keeps order, strictly. */
  lemma ShlOrder(x: nat, y: nat, h: nat)
    ensures x < y <==> Shl(x, h) < Shl(y, h)
  {
    if x < y {
      ShlAdd(x, y - x, h);
    } else {
      ShlAdd(y, x - y, h);
    }
  }

  lemma {:induction false} ShlShl(x: nat, a: nat, b: nat)
    ensures Shl(Shl(x, a), b) == Shl(x, a + b)
    decreases a
  {
    if a > 0 {
      ShlShl(2 * x, a - 1, b);
    }
  }

  lemma ShlDouble(x: nat, h: nat)
    ensures Shl(2 * x, h) == 2 * Shl(x, h) == Shl(x, h + 1)
  {
    ShlAdd(x, x, h);
  }

  lemma PopCountDouble(m: nat)
    ensures PopCount(2 * m) == PopCount(m)
    ensures PopCount(2 * m + 1) == PopCount(m) + 1
  {
    assert 2 * m / 2 == m && 2 * m % 2 == 0;
    assert (2 * m + 1) / 2 == m && (2 * m + 1) % 2 == 1;
  }

  lemma {:induction false} PopCountShl(x: nat, h: nat)
    ensures PopCount(Shl(x, h)) == PopCount(x)
    decreases h
  {
    if h > 0 {
      hide PopCount;
      PopCountDouble(x);
      PopCountShl(2 * x, h - 1);
    }
  }

  /** The number just below a multiple of 2^h has h trailing ones. */
  lemma {:induction false} PopCountBelowShl(x: nat, h: nat)
    requires x >= 1
    ensures PopCount(Shl(x, h) - 1) == PopCount(x - 1) + h
    decreases h
  {
    hide PopCount;
    if h > 0 {
      PopCountDouble(x - 1);
      assert 2 * (x - 1) + 1 == 2 * x - 1;
      PopCountBelowShl(2 * x, h - 1);
      assert Shl(x, h) == Shl(2 * x, h - 1);
    }
  }

  lemma {:induction false} PopCountNext(n: nat)
    ensures PopCount(n + 1) <= PopCount(n) + 1
  {
    hide PopCount;
    var m := n / 2;
    PopCountDouble(m);
    if n == 2 * m + 1 {
      PopCountDouble(m + 1);
      PopCountNext(m);
    }
  }

  lemma {:induction false} Pow2Order(a: nat, b: nat)
    requires a <= b
    ensures Pow2(a) <= Pow2(b)
    decreases b
  {
    if a < b {
      Pow2Order(a, b - 1);
    }
  }

  lemma {:induction false} Pow2Beats(k: nat)
    ensures Pow2(k) >= k + 1
  {
    if k > 0 {
      Pow2Beats(k - 1);
    }
  }

  lemma Pow2Byte(k: nat)
    ensures Pow2(k + 8) == 256 * Pow2(k)
  {
    assert Pow2(k + 2) == 4 * Pow2(k);
    assert Pow2(k + 4) == 4 * Pow2(k + 2);
    assert Pow2(k + 6) == 4 * Pow2(k + 4);
  }

  lemma Pow2Word(k: nat)
    ensures Pow2(k + 32) == 0x1_0000_0000 * Pow2(k)
  {
    hide Pow2;
    Pow2Byte(k);
    Pow2Byte(k + 8);
    Pow2Byte(k + 16);
    Pow2Byte(k + 24);
  }

  lemma WordSizes()
    ensures Pow2(63) == MAX_LEAVES && Pow2(64) == U64_LIMIT
  {
    assert Pow2(0) == 1 && Pow2(64) == 2 * Pow2(63);
    hide Pow2;
    Pow2Word(0);
    Pow2Word(32);
  }

  lemma {:induction false} PopCountPositive(n: nat)
    requires n > 0
    ensures PopCount(n) > 0
  {
    if n % 2 == 0 {
      PopCountPositive(n / 2);
    }
  }
}

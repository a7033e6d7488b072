/**
  The bit expressions of the directory, defined digit by digit so that every fact about them
  is linear: `1 << d`, `n & ((1 << d) - 1)` and `n ^ (1 << k)`.
 */
module Bits {
  import opened Arithmetic

  /** `1 << d` */
  function Pow2(d: nat): (p: nat)
    ensures p >= 1
    ensures d >= 1 ==> p % 2 == 0
  {
    if d == 0 then 1 else 2 * Pow2(d - 1)
  }

  /** `n & ((1 << d) - 1)`: the low `d` bits of `n`. */
  function Low(n: nat, d: nat): nat
    decreases d
  {
    if d == 0 then 0 else n % 2 + 2 * Low(n / 2, d - 1)
  }

  /** `n ^ (1 << k)`: `n` with bit `k` inverted. */
  function Flip(n: nat, k: nat): nat
    decreases k
  {
    if k == 0 then (if n % 2 == 0 then n + 1 else n - 1)
    else n % 2 + 2 * Flip(n / 2, k - 1)
  }

  lemma {:induction false} Pow2Monotone(a: nat, b: nat)
    requires a <= b
    ensures Pow2(a) <= Pow2(b)
    decreases b
  {
    if a < b {
      Pow2Monotone(a, b - 1);
    }
  }

  /** A mask keeps a number below its power of two, and small numbers as they are. */
  lemma {:induction false} LowBounds(n: nat, d: nat)
    ensures Low(n, d) < Pow2(d)
    ensures Low(n, d) <= n
    ensures n < Pow2(d) ==> Low(n, d) == n
    decreases d
  {
    if d > 0 {
      LowBounds(n / 2, d - 1);
    }
  }

  /** Masking is the remainder modulo the power of two. */
  lemma {:induction false} LowIsRemainder(n: nat, d: nat)
    ensures Low(n, d) == n % Pow2(d)
    decreases d
  {
    if d > 0 {
      LowIsRemainder(n / 2, d - 1);
      RemainderOfDouble(n, Pow2(d - 1), Pow2(d));
    }
  }

  /** Masking twice keeps the shorter mask. */
  lemma {:induction false} LowOfLow(n: nat, d: nat, m: nat)
    requires m <= d
    ensures Low(Low(n, d), m) == Low(n, m)
    decreases d
  {
    if m > 0 {
      LowOfLow(n / 2, d - 1, m - 1);
    }
  }

  /** Numbers that agree on `d` low bits agree on fewer. */
  lemma {:induction false} AgreeOnFewer(a: nat, b: nat, d: nat, m: nat)
    requires m <= d && Low(a, d) == Low(b, d)
    ensures Low(a, m) == Low(b, m)
    decreases d
  {
    if m > 0 {
      AgreeOnFewer(a / 2, b / 2, d - 1, m - 1);
    }
  }

  /** A stride of `1 << d` leaves the low `d` bits alone. */
  lemma {:induction false} LowAfterStride(a: nat, d: nat)
    ensures Low(a + Pow2(d), d) == Low(a, d)
    decreases d
  {
    if d > 0 {
      LowAfterStride(a / 2, d - 1);
      assert (a + Pow2(d)) / 2 == a / 2 + Pow2(d - 1);
    }
  }

  /** Two different numbers with the same low `d` bits are at least `1 << d` apart. */
  lemma {:induction false} LowGap(a: nat, b: nat, d: nat)
    requires a < b && Low(a, d) == Low(b, d)
    ensures b - a >= Pow2(d)
    decreases d
  {
    if d > 0 {
      assert a % 2 == b % 2;
      LowGap(a / 2, b / 2, d - 1);
    }
  }

  /** Around `a`, the nearest numbers with its low `d` bits are a stride away. */
  lemma NothingWithinStride(a: nat, d: nat)
    ensures forall j: nat :: j != a && a - Pow2(d) < j < a + Pow2(d) ==> Low(j, d) != Low(a, d)
    ensures a >= Pow2(d) ==> Low(a - Pow2(d), d) == Low(a, d)
  {
    forall j: nat | j != a && a - Pow2(d) < j < a + Pow2(d)
      ensures Low(j, d) != Low(a, d)
    {
      if Low(j, d) == Low(a, d) {
        if j < a {
          LowGap(j, a, d);
        } else {
          LowGap(a, j, d);
        }
      }
    }
    if a >= Pow2(d) {
      LowAfterStride(a - Pow2(d), d);
    }
  }

  /** Flipping bit `k` keeps the bits below it and changes the low `k+1` bits. */
  lemma {:induction false} FlipChangesOneBit(n: nat, k: nat)
    ensures Low(Flip(n, k), k) == Low(n, k)
    ensures Low(Flip(n, k), k + 1) != Low(n, k + 1)
    decreases k
  {
    if k == 0 {
      assert Low(n, 1) == n % 2 && Low(Flip(n, 0), 1) == Flip(n, 0) % 2;
    } else {
      FlipChangesOneBit(n / 2, k - 1);
      FlipHalves(n, k);
    }
  }

  lemma FlipHalves(n: nat, k: nat)
    requires k > 0
    ensures Flip(n, k) % 2 == n % 2 && Flip(n, k) / 2 == Flip(n / 2, k - 1)
  {
  }

  /** Flipping twice changes nothing. */
  lemma {:induction false} FlipTwice(n: nat, k: nat)
    ensures Flip(Flip(n, k), k) == n
    decreases k
  {
    if k > 0 {
      FlipTwice(n / 2, k - 1);
      FlipHalves(n, k);
    }
  }

  lemma {:induction false} FlipStaysBelow(n: nat, k: nat, g: nat)
    requires k < g && n < Pow2(g)
    ensures Flip(n, k) < Pow2(g)
    decreases k
  {
    if k > 0 {
      FlipStaysBelow(n / 2, k - 1, g - 1);
    }
  }

  /** What agrees with `b` on `k` low bits agrees on one more bit with one of `b` and `b ^ (1 << k)`. */
  lemma {:induction false} HalvesOfAClass(n: nat, b: nat, k: nat)
    ensures Low(n, k) == Low(b, k) <==> (Low(n, k + 1) == Low(b, k + 1) || Low(n, k + 1) == Low(Flip(b, k), k + 1))
    decreases k
  {
    LowEqual(n, b, k + 1);
    LowEqual(n, Flip(b, k), k + 1);
    if k > 0 {
      LowEqual(n, b, k);
      FlipHalves(b, k);
      HalvesOfAClass(n / 2, b / 2, k - 1);
    } else {
      LowOfOneBit(n, b);
    }
  }

  lemma LowEqual(n: nat, b: nat, k: nat)
    requires k > 0
    ensures Low(n, k) == Low(b, k) <==> n % 2 == b % 2 && Low(n / 2, k - 1) == Low(b / 2, k - 1)
  {
  }

  lemma LowOfOneBit(n: nat, b: nat)
    ensures n % 2 == b % 2 || n % 2 == Flip(b, 0) % 2
  {
  }
}

/** Quotients, remainders and multiples. */
module Arithmetic {
  lemma SmallMultiple(d: nat, k: int)
    requires d * k < d && d * k > 0 - d
    ensures k == 0
  {
  }

  lemma Quotient(x: nat, d: nat, q: nat, s: nat)
    requires d > 0 && x == q * d + s && s < d
    ensures x / d == q && x % d == s
  {
    assert d * (q - x / d) == x % d - s;
    SmallMultiple(d, q - x / d);
  }

  lemma QuotientTimes(x: nat, d: nat)
    requires d > 0
    ensures x == x / d * d + x % d && x % d < d
  {
  }

  /** `t` pages on, no further than the end of the lap. */
  lemma StepOn(m: nat, t: nat, d: nat)
    requires d > 0 && m % d + t <= d
    ensures m % d + t < d ==> (m + t) % d == m % d + t && (m + t) / d == m / d
    ensures m % d + t == d ==> (m + t) % d == 0 && (m + t) / d == m / d + 1
  {
    if m % d + t < d {
      Quotient(m + t, d, m / d, m % d + t);
    } else {
      assert (m / d + 1) * d == m / d * d + d;
      Quotient(m + t, d, m / d + 1, 0);
    }
  }

  lemma TimesIsMonotone(a: nat, b: nat, d: nat)
    requires a <= b
    ensures a * d <= b * d
  {
  }

  lemma Distribute(a: nat, b: nat, d: nat)
    ensures (a + b) * d == a * d + b * d
  {
  }

  lemma NextMultiple(x: nat, y: nat, d: nat)
    requires d > 0 && x % d == 0 && y % d == 0 && x < y
    ensures x + d <= y
  {
    var a, b := x / d, y / d;
    if b <= a {
      TimesIsMonotone(b, a, d);
    }
    TimesIsMonotone(a + 1, b, d);
  }

  lemma TimesIsMultiple(t: nat, q: int)
    requires t > 0 && t * q >= 0
    ensures (t * q) % t == 0
  {
    if q < 0 {
      SmallMultiple(t, q);
    } else {
      Quotient(t * q, t, q, 0);
    }
  }

  lemma Multiples(x: nat, y: nat, t: nat)
    requires t > 0 && x % t == 0 && y % t == 0
    ensures (x + y) % t == 0
    ensures x >= y ==> (x - y) % t == 0
  {
    Distribute(x / t, y / t, t);
    Quotient(x + y, t, x / t + y / t, 0);
    if x >= y {
      assert x - y == t * (x / t - y / t);
      TimesIsMultiple(t, x / t - y / t);
    }
  }

  lemma NonZero(a: nat, b: nat)
    requires a > 0 && b > 0
    ensures a * b > 0
  {
  }

  lemma Doubled(q: nat, h: nat)
    ensures q * (2 * h) == (2 * q) * h
  {
  }

  lemma ReduceOnce(k: nat, h: nat, q: nat, s: nat)
    requires h > 0 && k == q * h + s && s < 2 * h
    ensures k % h == if s < h then s else s - h
  {
    if s < h {
      Quotient(k, h, q, s);
    } else {
      Distribute(q, 1, h);
      Quotient(k, h, q + 1, s - h);
    }
  }

  lemma DivMod(k: nat, d: nat) returns (q: nat, s: nat)
    requires d > 0
    ensures k == q * d + s && s < d && s == k % d
  {
    q, s := k / d, k % d;
  }

  lemma RegroupHalves(k: nat, h: nat, d: nat, q: nat, s: nat)
    requires d == 2 * h && k == q * d + s
    ensures k == (2 * q) * h + s
  {
    Doubled(q, h);
  }

  /** Modulo twice as much, a number keeps its remainder or lies `h` above it. */
  lemma HalvesOfRemainder(k: nat, h: nat, d: nat)
    requires h > 0 && d == 2 * h
    ensures k % d == k % h || k % d == k % h + h
  {
    var q, s := DivMod(k, d);
    RegroupHalves(k, h, d, q, s);
    ReduceOnce(k, h, 2 * q, s);
  }

  lemma HalfOfProduct(n: nat, half: nat, m: nat, q: nat, rest: nat)
    requires half == q * m + rest && n == 2 * half + n % 2
    ensures n == q * (2 * m) + (2 * rest + n % 2)
  {
    Doubled(q, m);
    Distribute(q, q, m);
  }

  /** One more binary digit of the modulus. */
  lemma RemainderOfDouble(n: nat, m: nat, d: nat)
    requires m > 0 && d == 2 * m
    ensures n % d == 2 * (n / 2 % m) + n % 2
  {
    var half := n / 2;
    var q, rest := DivMod(half, m);
    HalfOfProduct(n, half, m, q, rest);
    Quotient(n, d, q, 2 * rest + n % 2);
  }
}

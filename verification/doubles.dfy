/** Whole-number arithmetic in double precision: exact results rounded to nearest, ties to even
    (IEEE 754-2019, section 4.3.1).  Magnitudes here stay far below overflow. */
module Doubles {

  const TWO52: nat := 0x10_0000_0000_0000
  const TWO53: nat := 2 * TWO52
  const MAX_SAFE: nat := TWO53 - 1

  /** The spacing of the doubles around a whole number, at least 1. */
  function Ulp(n: nat): (u: nat)
    ensures u > 0
  {
    if n < TWO53 then 1 else 2 * Ulp(n / 2)
  }

  function Round(n: nat): nat {
    var u := Ulp(n);
    var q, r := n / u, n % u;
    if 2 * r < u || (2 * r == u && q % 2 == 0) then q * u else (q + 1) * u
  }

  function RoundInt(n: int): int { if n < 0 then 0 - Round(-n) else Round(n) }

  /** A whole number that is a double. */
  predicate Representable(n: nat) { n % Ulp(n) == 0 }

  function Distance(a: int, b: int): nat { if a < b then b - a else a - b }

  predicate IsSafe(n: int) { 0 - MAX_SAFE <= n <= MAX_SAFE }

  // ---------------------------------------------------------------- spacing

  lemma {:induction false} UlpRange(n: nat)
    requires n >= TWO53
    ensures Ulp(n) >= 2 && TWO52 * Ulp(n) <= n < TWO53 * Ulp(n)
  {
    if n / 2 >= TWO53 {
      UlpRange(n / 2);
    }
  }

  lemma {:induction false} UlpOfBinade(n: nat)
    requires n >= TWO53
    ensures Ulp(TWO52 * Ulp(n)) == Ulp(n)
  {
    if n / 2 >= TWO53 {
      UlpOfBinade(n / 2);
      UlpRange(n);
      assert TWO52 * Ulp(n) / 2 == TWO52 * Ulp(n / 2);
    } else {
      assert Ulp(n / 2) == 1 && Ulp(n) == 2;
      assert Ulp(TWO53 / 2) == 1;
    }
  }

  lemma {:induction false} UlpDivides(a: nat, b: nat)
    requires a <= b
    ensures Ulp(b) % Ulp(a) == 0
  {
    if a >= TWO53 {
      UlpDivides(a / 2, b / 2);
      DoubleDivides(Ulp(b / 2), Ulp(a / 2));
    }
  }

  lemma DoubleDivides(x: nat, y: nat)
    requires y > 0 && x % y == 0
    ensures (2 * x) % (2 * y) == 0
  {
    var k := x / y;
    assert x == k * y;
    assert 2 * x == k * (2 * y);
    Divide(2 * x, 2 * y, k, 0);
  }

  lemma TimesGrows(a: int, b: int, m: nat)
    ensures a <= b ==> a * m <= b * m
  {}

  /** Quotient and remainder are determined by n == q * m + r. */
  lemma Divide(n: nat, m: nat, q: nat, r: nat)
    requires n == q * m + r && r < m
    ensures n / m == q && n % m == r
  {
    var k := n / m;
    assert n == k * m + n % m;
    TimesGrows(k + 1, q, m);
    TimesGrows(q + 1, k, m);
    assert (k + 1) * m == k * m + m && (q + 1) * m == q * m + m;
  }

  lemma DividesTransitive(a: nat, b: nat, c: nat)
    requires c > 0 && b > 0 && a % b == 0 && b % c == 0
    ensures a % c == 0
  {
    var i, j := a / b, b / c;
    assert a == i * b && b == j * c;
    assert a == (i * j) * c by {
      assert i * (j * c) == (i * j) * c;
    }
    Divide(a, c, i * j, 0);
  }

  // ---------------------------------------------------------------- rounding

  /** Rounding lands on the multiple of the spacing just below or just above. */
  lemma RoundBounds(n: nat)
    ensures var u := Ulp(n);
            && n / u * u <= Round(n) <= n / u * u + u
            && 2 * Distance(Round(n), n) <= u
  {
    var u := Ulp(n);
    var q, r := n / u, n % u;
    assert n == q * u + r;
    assert (q + 1) * u == q * u + u;
  }

  lemma NearestMultiple(n: nat, d: nat, u: nat)
    requires u > 0 && d % u == 0
    ensures Distance(d, n) >= n % u || Distance(d, n) >= u - n % u
  {
    var q, k := n / u, d / u;
    assert n == q * u + n % u && d == k * u;
    if k <= q {
      assert k * u <= q * u;
    } else {
      assert k * u >= (q + 1) * u == q * u + u;
    }
  }

  /** The spacing goes into a large number at least 2^52 times. */
  lemma QuotientIsLarge(n: nat)
    requires n >= TWO53
    ensures n / Ulp(n) * Ulp(n) >= TWO52 * Ulp(n) >= TWO53
  {
    var u := Ulp(n);
    UlpRange(n);
    assert n == n / u * u + n % u;
    TimesGrows(n / u + 1, TWO52, u);
    assert (n / u + 1) * u == n / u * u + u;
    TimesGrows(TWO52, n / u, u);
  }

  lemma DoubleAboveBinade(n: nat, d: nat)
    requires n >= TWO53 && Representable(d) && d >= TWO52 * Ulp(n)
    ensures d % Ulp(n) == 0
  {
    UlpOfBinade(n);
    UlpDivides(TWO52 * Ulp(n), d);
    DividesTransitive(d, Ulp(d), Ulp(n));
  }

  lemma RoundedDistance(n: nat)
    ensures var u := Ulp(n); Distance(Round(n), n) <= n % u && Distance(Round(n), n) <= u - n % u
  {
    var u := Ulp(n);
    var q, r := n / u, n % u;
    assert n == q * u + r;
    assert (q + 1) * u == q * u + u;
  }

  /** No double is closer to the exact value than the rounded one. */
  lemma RoundIsNearest(n: nat, d: nat)
    requires Representable(d)
    ensures Distance(Round(n), n) <= Distance(d, n)
  {
    hide Round, Representable, Ulp;
    var u := Ulp(n);
    if n < TWO53 {
      SafeIsExact(n);
    } else if d >= TWO52 * u {
      RoundedDistance(n);
      DoubleAboveBinade(n, d);
      NearestMultiple(n, d, u);
    } else {
      RoundedDistance(n);
      QuotientIsLarge(n);
      BelowFloor(n, d, u);
    }
  }

  lemma BelowFloor(n: nat, d: nat, u: nat)
    requires u > 0 && d <= n / u * u
    ensures Distance(d, n) >= n % u
  {
    assert n == n / u * u + n % u;
  }

  /** Halfway between two doubles, the even one is taken. */
  lemma TiesGoToEven(n: nat)
    requires 2 * (n % Ulp(n)) == Ulp(n)
    ensures Round(n) / Ulp(n) % 2 == 0
  {
    var u := Ulp(n);
    var q := n / u;
    Divide(q * u, u, q, 0);
    Divide((q + 1) * u, u, q + 1, 0);
  }

  lemma SafeIsExact(n: nat)
    requires n < TWO53
    ensures Round(n) == n
  {}

  /** Rounding never brings a large value back among the safe integers. */
  lemma LargeStaysLarge(n: nat)
    requires n >= TWO53
    ensures Round(n) >= TWO53
  {
    hide Round;
    RoundBounds(n);
    QuotientIsLarge(n);
  }

  /** So a rounded result is safe exactly when the exact one is, and then nothing was lost. */
  lemma SafeExactly(n: nat)
    ensures IsSafe(Round(n)) <==> n <= MAX_SAFE
    ensures IsSafe(Round(n)) ==> Round(n) == n
  {
    if n < TWO53 {
      SafeIsExact(n);
    } else {
      LargeStaysLarge(n);
    }
  }
}

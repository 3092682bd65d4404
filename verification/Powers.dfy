/** Arithmetic over the reals: powers, doubling and halving, fractions, monotone products and quotients; and division
    with remainder. */
module Powers {

  function Pow(b: real, n: nat): (r: real)
    ensures b >= 1.0 ==> r >= 1.0
  {
    if n == 0 then 1.0 else b * Pow(b, n - 1)
  }

  function Abs(x: real): real {
    if x < 0.0 then -x else x
  }

  /** Conversion to an integer drops the fraction, towards zero. */
  function Truncate(x: real): int {
    if x >= 0.0 then x.Floor else -((-x).Floor)
  }

  /** The integer nearest to `x` on the side of zero. */
  lemma TruncateTowardsZero(x: real)
    ensures Abs(Truncate(x) as real) <= Abs(x) < Abs(Truncate(x) as real) + 1.0
    ensures x >= 0.0 ==> Truncate(x) >= 0
    ensures x <= 0.0 ==> Truncate(x) <= 0
  {
  }

  lemma MulMonotone(a: real, x: real, y: real)
    requires a >= 0.0 && x <= y
    ensures a * x <= a * y
  {
    assert a * (y - x) >= 0.0;
  }

  lemma MulLess(a: real, x: real, y: real)
    requires a > 0.0 && x < y
    ensures a * x < a * y
  {
    assert a * (y - x) > 0.0;
  }

  lemma Cancel(a: real, x: real, y: real)
    requires a > 0.0 && a * x <= a * y
    ensures x <= y
  {
    if x > y {
      MulLess(a, y, x);
    }
  }

  lemma QuotientTimes(x: real, y: real)
    requires y > 0.0
    ensures y * (x / y) == x
  {
  }

  lemma QuotientAtMost(x: real, y: real, q: real)
    requires y > 0.0 && x <= y * q
    ensures x / y <= q
  {
    QuotientTimes(x, y);
    Cancel(y, x / y, q);
  }

  lemma QuotientAtLeast(x: real, y: real, q: real)
    requires y > 0.0 && x >= y * q
    ensures x / y >= q
  {
    QuotientTimes(x, y);
    Cancel(y, q, x / y);
  }

  /** `x` is less than the fraction `e` of `y`. */
  predicate Fraction(x: real, y: real, e: real) {
    x < y * e
  }

  lemma HalfTooMuch(y: real, e: real)
    requires y > 0.0 && e <= 0.5
    ensures !Fraction(y / 2.0, y, e) && !Fraction(y, y, e)
  {
    MulMonotone(y, e, 0.5);
  }

  /** `x` doubled, and `x` halved, `n` times. */
  function Doubled(x: real, n: nat): real {
    if n == 0 then x else 2.0 * Doubled(x, n - 1)
  }

  function Halved(x: real, n: nat): real {
    if n == 0 then x else Halved(x, n - 1) / 2.0
  }

  /** `Doubled(1.0, n)` is the `n`-th power of two and `Halved(1.0, n)` its reciprocal. */
  lemma {:induction false} HalvedReciprocal(n: nat)
    ensures Doubled(1.0, n) == Pow(2.0, n) && Halved(1.0, n) * Doubled(1.0, n) == 1.0
  {
    if n > 0 {
      HalvedReciprocal(n - 1);
      var h, d := Halved(1.0, n - 1), Doubled(1.0, n - 1);
      assert h / 2.0 * (2.0 * d) == h * d;
    }
  }

  lemma {:induction false} DoubledPositive(x: real, n: nat)
    requires x > 0.0
    ensures Doubled(x, n) > 0.0
  {
    if n > 0 {
      DoubledPositive(x, n - 1);
    }
  }

  /** Bernoulli: a power of 1 + x grows at least linearly, so it passes any bound. */
  lemma {:induction false} Bernoulli(x: real, n: nat)
    requires x >= 0.0
    ensures Pow(1.0 + x, n) >= 1.0 + n as real * x
  {
    if n > 0 {
      Bernoulli(x, n - 1);
      BernoulliStep(x, (n - 1) as real, Pow(1.0 + x, n - 1));
    }
  }

  lemma BernoulliStep(x: real, k: real, p: real)
    requires x >= 0.0 && k >= 0.0 && p >= 1.0 + k * x
    ensures (1.0 + x) * p >= 1.0 + (k + 1.0) * x
  {
    MulMonotone(1.0 + x, 1.0 + k * x, p);
    assert (1.0 + x) * (1.0 + k * x) == 1.0 + (k + 1.0) * x + k * x * x;
    MulMonotone(k * x, 0.0, x);
  }

  lemma {:induction false} HalvedShrinks(x: real, m: nat, n: nat)
    requires x > 0.0 && m <= n
    ensures 0.0 < Halved(x, n) <= Halved(x, m)
    ensures m < n ==> Halved(x, n) < Halved(x, m)
  {
    if m < n {
      HalvedShrinks(x, m, n - 1);
    } else if n > 0 {
      HalvedShrinks(x, n - 1, n - 1);
    }
  }

  lemma {:induction false} HalvedScales(c: real, x: real, n: nat)
    ensures Halved(c * x, n) == c * Halved(x, n)
  {
    if n > 0 {
      HalvedScales(c, x, n - 1);
    }
  }

  lemma {:induction false} HalvedSplits(x: real, m: nat, n: nat)
    ensures Halved(x, m + n) == Halved(Halved(x, m), n)
  {
    if n > 0 {
      HalvedSplits(x, m, n - 1);
    }
  }

  lemma {:induction false} HalvedOne(x: real, n: nat)
    ensures Halved(x, n) == x * Halved(1.0, n)
  {
    if n > 0 {
      HalvedOne(x, n - 1);
    }
  }

  /** `n` halvings bring `x` below the fraction `e` of anything larger than `x`, if they bring 1 to `e`. */
  lemma HalvedEnough(x: real, n: nat, v: real, e: real)
    requires x > 0.0 && v > x && 0.0 < Halved(1.0, n) <= e
    ensures Fraction(Halved(x, n), v, e)
  {
    HalvedOne(x, n);
    LessInBoth(x, v, Halved(1.0, n), e);
  }

  lemma LessInBoth(x: real, v: real, h: real, e: real)
    requires 0.0 < x < v && 0.0 < h <= e
    ensures x * h < v * e
  {
    MulMonotone(x, h, e);
    assert (v - x) * e > 0.0;
    assert v * e - x * e == (v - x) * e;
  }

  /** With one halving less than 1 needs to get below `e`, `x` is no smaller than that fraction of what is below `2x`. */
  lemma HalvedTooFew(x: real, n: nat, v: real, e: real)
    requires x > 0.0 && v < 2.0 * x && 0.0 < e <= Halved(1.0, n + 1)
    ensures !Fraction(Halved(x, n), v, e)
  {
    HalvedOne(x, n);
    MulMonotone(x, e, Halved(1.0, n) / 2.0);
    assert x * (Halved(1.0, n) / 2.0) == x * Halved(1.0, n) / 2.0;
    MulLess(e, v / 2.0, x);
    assert e * (v / 2.0) == v * e / 2.0;
  }

  lemma EnoughHalvings(e: real) returns (n: nat)
    requires e > 0.0
    ensures n > 0 && Halved(1.0, n) <= e
    decreases (1.0 / e).Floor
  {
    if e >= 0.5 {
      n := 1;
    } else {
      HalfReciprocal(e);
      n := EnoughHalvings(2.0 * e);
      n := n + 1;
    }
  }

  lemma HalfReciprocal(e: real)
    requires 0.0 < e < 0.5
    ensures 0.0 < 1.0 / (2.0 * e) < 1.0 / e - 1.0
  {
    var r := 1.0 / e;
    assert r * e == 1.0;
    assert r > 2.0 by {
      if r <= 2.0 {
        MulMonotone(e, r, 2.0);
      }
    }
    assert 1.0 / (2.0 * e) == r / 2.0;
  }

  lemma {:induction false} DoubledOne(x: real, n: nat)
    ensures Doubled(x, n) == x * Doubled(1.0, n)
    ensures Doubled(1.0, n) >= n as real + 1.0
  {
    if n > 0 {
      DoubledOne(x, n - 1);
    }
  }

  lemma DoublingReaches(x: real, t: real) returns (n: nat)
    requires x > 0.0
    ensures Doubled(x, n) >= t
  {
    n := if t <= 0.0 then 0 else (t / x).Floor + 1;
    DoubledOne(x, n);
    if t > 0.0 {
      MulMonotone(x, t / x, Doubled(1.0, n));
      assert x * (t / x) == t;
    } else {
      DoubledPositive(x, n);
    }
  }

  lemma HalvingReaches(x: real, t: real) returns (n: nat)
    requires x > 0.0 && t > 0.0
    ensures Halved(x, n) < t
  {
    var e := t / x / 2.0;
    assert x * e == t / 2.0;
    assert e > 0.0;
    n := EnoughHalvings(e);
    HalvedOne(x, n);
    MulMonotone(x, Halved(1.0, n), e);
  }

  // ----- division with remainder -----

  lemma Divide(n: int, b: nat, q: int, r: int)
    requires b > 0 && 0 <= r < b && n == b * q + r
    ensures n % b == r && n / b == q
  {
    if n / b < q {
      Apart(b, n / b, q);
    } else if q < n / b {
      Apart(b, q, n / b);
    }
  }

  lemma {:induction false} Apart(b: nat, x: int, y: int)
    requires x < y
    ensures b * x + b <= b * y
    decreases y - x
  {
    assert b * (y - 1) + b == b * y;
    if x < y - 1 {
      Apart(b, x, y - 1);
    }
  }
}

/** Facts about exact real arithmetic that the counter models share: the
    running sum of a counter that adds `target / d` per tick, and `Math.floor`
    (Dafny's `.Floor`). */
module RealMath {

  lemma FloorMonotone(a: real, b: real)
    requires a <= b
    ensures a.Floor <= b.Floor
  {
  }

  lemma FloorBelow(a: real, n: int)
    requires a < n as real
    ensures a.Floor < n
  {
  }

  lemma FloorAtLeast(a: real, n: int)
    requires n as real <= a
    ensures n <= a.Floor
  {
  }

  /** After k increments of `target / d` the sum is `k * target / d`; for a
      positive target it has reached the target exactly when k >= d. */
  lemma {:induction false} ReachedWhen(k: nat, target: real, d: real)
    requires target > 0.0 && d > 0.0
    ensures (k as real) * (target / d) >= target <==> k as real >= d
  {
    var q := target / d;
    assert target == q * d;
    assert q > 0.0;
    if k as real >= d {
      assert (k as real) * q >= d * q;
    } else {
      assert (k as real) * q < d * q;
    }
  }

  /** One more increment: (k + 1) * step == k * step + step. */
  lemma SumStep(k: nat, step: real)
    ensures ((k + 1) as real) * step == (k as real) * step + step
  {
  }

  /** A sum of nonnegative increments stays nonnegative and grows with k. */
  lemma {:induction false} SumMonotone(j: nat, k: nat, step: real)
    requires j <= k && step >= 0.0
    ensures 0.0 <= (j as real) * step <= (k as real) * step
  {
    assert (k as real) * step - (j as real) * step == ((k - j) as real) * step;
  }

  /** A sum of nonpositive increments stays nonpositive and shrinks with k. */
  lemma {:induction false} SumAntitone(j: nat, k: nat, step: real)
    requires j <= k && step <= 0.0
    ensures (k as real) * step <= (j as real) * step <= 0.0
  {
    assert (k as real) * step - (j as real) * step == ((k - j) as real) * step;
  }

  lemma MulNonneg(a: real, b: real)
    requires a >= 0.0 && b >= 0.0
    ensures a * b >= 0.0
  {
  }

  /** `start + (end - start) * e` for e in [0, 1] lies between start and end. */
  lemma {:induction false} Between(start: real, end: real, e: real)
    requires start <= end && 0.0 <= e <= 1.0
    ensures start <= start + (end - start) * e <= end
  {
    MulNonneg(end - start, e);
    MulNonneg(end - start, 1.0 - e);
    assert end - (start + (end - start) * e) == (end - start) * (1.0 - e);
  }

  /** Scaling by a nonnegative factor keeps the order. */
  lemma {:induction false} ScaleMonotone(c: real, a: real, b: real)
    requires c >= 0.0 && a <= b
    ensures c * a <= c * b
  {
    MulNonneg(c, b - a);
    assert c * b - c * a == c * (b - a);
  }

  /** The floor of `start + (end - start) * e` grows with e when start <= end. */
  lemma {:induction false} LerpFloorMonotone(start: real, end: real, a: real, b: real)
    requires start <= end && a <= b
    ensures (start + (end - start) * a).Floor <= (start + (end - start) * b).Floor
  {
    ScaleMonotone(end - start, a, b);
    FloorMonotone(start + (end - start) * a, start + (end - start) * b);
  }

  /** Dividing by a positive number keeps the order. */
  lemma {:induction false} DivMonotone(a: real, b: real, d: real)
    requires a <= b && d > 0.0
    ensures a / d <= b / d
  {
    var qa, qb := a / d, b / d;
    assert (qb - qa) * d == b - a;
    NonnegFactor(qb - qa, d);
  }

  lemma NonnegFactor(x: real, d: real)
    requires d > 0.0 && x * d >= 0.0
    ensures x >= 0.0
  {
  }

  /** A quotient times 100 is negative exactly when the two operands have
      opposite signs. */
  lemma QuotientSign(y: real, d: real)
    requires d != 0.0
    ensures y / d * 100.0 < 0.0 <==> (d > 0.0 && y < 0.0) || (d < 0.0 && y > 0.0)
  {
    var q := y / d;
    assert q * d == y;
    if d > 0.0 && q < 0.0 {
      MulNonneg(-q, d);
    } else if d < 0.0 && q < 0.0 {
      MulNonneg(-q, -d);
    } else if d > 0.0 {
      MulNonneg(q, d);
    } else {
      MulNonneg(q, -d);
    }
  }

  /** A quotient times 100 reaches 100 exactly when the dividend reaches the
      positive divisor. */
  lemma ScaledRatioReachesHundred(y: real, d: real)
    requires d > 0.0
    ensures y / d * 100.0 >= 100.0 <==> y >= d
  {
    var q := y / d;
    assert (q - 1.0) * d == y - d;
    if y >= d {
      NonnegFactor(q - 1.0, d);
    } else if q >= 1.0 {
      MulNonneg(q - 1.0, d);
    }
  }
}

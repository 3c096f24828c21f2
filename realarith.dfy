/** Small facts of real and integer arithmetic that the solver does not find unaided. */
module RealArith {

  lemma MulPositive(a: real, b: real)
    requires a > 0.0 && b > 0.0
    ensures a * b > 0.0
  {
  }

  lemma MulMonotone(a: real, b: real, d: real)
    requires a <= b && d > 0.0
    ensures a * d <= b * d
  {
    assert b * d - a * d == (b - a) * d;
  }

  lemma MulStrict(a: real, b: real, d: real)
    requires a < b && d > 0.0
    ensures a * d < b * d
  {
    MulPositive(b - a, d);
    assert b * d - a * d == (b - a) * d;
  }

  lemma DivMonotone(a: real, b: real, d: real)
    requires a <= b && d > 0.0
    ensures a / d <= b / d
  {
    assert b / d - a / d == (b - a) / d;
  }

  /** Dividing and multiplying back by a positive real is the identity. */
  lemma DivTimes(x: real, d: real)
    requires d > 0.0
    ensures (x / d) * d == x
  {
  }

  /** Scaling by a positive real keeps strict order. */
  lemma ScaleOrder(a: real, b: real, d: real)
    requires d > 0.0
    ensures a < b ==> a * d < b * d
  {
    if a < b {
      MulStrict(a, b, d);
    }
  }

  /** The quotient of a non-negative real by a positive one is non-negative. */
  lemma DivNonneg(x: real, d: real)
    requires x >= 0.0 && d > 0.0
    ensures x / d >= 0.0
  {
    DivTimes(x, d);
    ScaleOrder(x / d, 0.0, d);
  }

  /** A quotient q of x by d lying between t and t + 1 puts x between t * d and (t + 1) * d. */
  lemma QuotientBounds(x: real, d: real, q: real, t: int)
    requires d > 0.0 && q * d == x && t as real <= q < (t + 1) as real
    ensures t as real * d <= x < (t + 1) as real * d
  {
    MulMonotone(t as real, q, d);
    MulStrict(q, (t + 1) as real, d);
  }

  /** Removing one d from the numerator removes one from the quotient. */
  lemma DivShift(e: real, d: real)
    requires d > 0.0
    ensures (e - d) / d == e / d - 1.0
  {
    DivTimes(e, d);
    DivTimes(e - d, d);
    ShiftCore(e, d, e / d, (e - d) / d);
  }

  lemma ShiftCore(e: real, d: real, q: real, y: real)
    requires d > 0.0 && q * d == e && y * d == e - d
    ensures y == q - 1.0
  {
    var z := y - (q - 1.0);
    assert z * d == y * d - q * d + d;
    if z > 0.0 {
      MulPositive(z, d);
    } else if z < 0.0 {
      MulPositive(-z, d);
    }
  }

  lemma IntMulMonotone(a: int, b: int, n: int)
    requires a <= b && n >= 0
    ensures a * n <= b * n
  {
    assert b * n - a * n == (b - a) * n;
  }
}

/**
 * Facts about products of reals that the geometry proofs need. They live in a
 * module of their own, away from integer/real conversions, so that the solver
 * reasons about them in pure real arithmetic.
 */
module RealArith {

  lemma MulNonNegative(a: real, b: real)
    requires a >= 0.0 && b >= 0.0
    ensures a * b >= 0.0
  {
  }

  /** A non-positive product has a non-positive factor. */
  lemma FactorSign(a: real, b: real)
    requires a * b <= 0.0
    ensures a <= 0.0 || b <= 0.0
  {
  }

  lemma SquareNonNegative(v: real)
    ensures v * v >= 0.0
  {
  }

  /** k * v^2, for a positive factor k. */
  function ScaledSquare(k: real, v: real): (a: real)
    requires k > 0.0
    ensures a >= 0.0
  {
    k * (v * v)
  }

  /** d*d + e <= r*r with e >= 0 and r >= 0 bounds d by r on both sides. */
  lemma SquareBound(d: real, e: real, r: real)
    requires e >= 0.0 && r >= 0.0
    requires d * d + e <= r * r
    ensures -r <= d <= r
  {
    assert (d - r) * (d + r) == d * d - r * r;
    FactorSign(d - r, d + r);
  }

  /** Squaring is monotone on the non-negative reals. */
  lemma SquareMonotone(a: real, b: real)
    requires 0.0 <= a <= b
    ensures a * a <= b * b
  {
    assert b * b - a * a == (b - a) * (b + a);
    MulNonNegative(b - a, b + a);
  }

  lemma DoubleSquared(v: real)
    ensures (2.0 * v) * (2.0 * v) == 4.0 * (v * v)
  {
  }

  lemma QuarterOfFourfold(p: real, q: real)
    ensures p / 4.0 * (4.0 * q) == p * q
  {
  }

  /** n / d lies in [0, 1] when 0 <= n <= d and d > 0. */
  lemma RatioInUnit(n: real, d: real)
    requires 0.0 <= n <= d && d > 0.0
    ensures 0.0 <= n / d <= 1.0
  {
  }

  /** n / n is 1 for a positive n. */
  lemma SelfRatio(n: real)
    requires n > 0.0
    ensures n / n == 1.0
  {
  }

  /** The product u * d, kept as one term so that it is not expanded into u * hi - u * lo. */
  function Scale(u: real, d: real): real
  {
    u * d
  }

  lemma ScaleBelow(u: real, d: real)
    requires 0.0 <= u < 1.0 && d > 0.0
    ensures 0.0 <= Scale(u, d) < d
  {
  }

  lemma ScaleNegated(u: real, d: real)
    ensures Scale(u, -d) == -Scale(u, d)
  {
  }

  /** lo + u * (hi - lo) lies between lo (included) and hi (excluded), whichever is larger. */
  lemma Interpolation(u: real, lo: real, hi: real)
    requires 0.0 <= u < 1.0
    ensures lo < hi ==> lo <= Scale(u, hi - lo) + lo < hi
    ensures lo == hi ==> Scale(u, hi - lo) + lo == lo
    ensures hi < lo ==> hi < Scale(u, hi - lo) + lo <= lo
  {
    if lo < hi {
      ScaleBelow(u, hi - lo);
    } else if hi < lo {
      ScaleBelow(u, lo - hi);
      ScaleNegated(u, lo - hi);
      assert -(lo - hi) == hi - lo;
    }
  }
}

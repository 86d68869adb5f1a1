/**
 * The parts of JavaScript's number semantics the model depends on, stated over `real` and `int`.
 * Floating-point rounding error is not modelled: a JavaScript number is an exact real here.
 */
module JsMath {

  /** `Math.round`: the nearest integer, with halves rounded toward positive infinity. */
  function Round(x: real): (n: int)
    ensures (n as real) - 0.5 <= x < (n as real) + 0.5
  {
    (x + 0.5).Floor
  }

  /** `Math.floor` on a real. */
  function Floor(x: real): (n: int)
    ensures n as real <= x < n as real + 1.0
  {
    x.Floor
  }

  /** `Math.max` / `Math.min` on reals. */
  function MaxReal(a: real, b: real): (m: real)
    ensures m >= a && m >= b && (m == a || m == b)
  {
    if a >= b then a else b
  }

  function MinReal(a: real, b: real): (m: real)
    ensures m <= a && m <= b && (m == a || m == b)
  {
    if a <= b then a else b
  }

  /** `Math.abs` on a real. */
  function AbsReal(x: real): (r: real)
    ensures r >= 0.0 && (r == x || r == -x)
  {
    if x < 0.0 then -x else x
  }

  /**
   * JavaScript's `%` on integers: the remainder of truncating division, which takes the sign of
   * the dividend (Dafny's own `%` is Euclidean and never negative).
   */
  function RemInt(a: int, m: int): (r: int)
    requires m > 0
    ensures a >= 0 ==> r == a % m
    ensures a < 0 ==> -m < r <= 0
  {
    if a >= 0 then a % m else -((-a) % m)
  }

  /**
   * JavaScript's `x % 360` on numbers (both angle normalisations in the source use this divisor):
   * `x - 360 * trunc(x / 360)`, which keeps the sign of `x`.
   */
  function Rem360(x: real): (r: real)
    ensures x >= 0.0 ==> 0.0 <= r < 360.0
    ensures x < 0.0 ==> -360.0 < r <= 0.0
    ensures 0.0 <= x < 360.0 ==> r == x
    ensures 360.0 <= x < 720.0 ==> r == x - 360.0
  {
    if x >= 0.0 then x - 360.0 * (x / 360.0).Floor as real
    else -(-x - 360.0 * (-x / 360.0).Floor as real)
  }

  /**
   * The host's `Math.sqrt` and `Math.atan2` (the latter already converted to degrees, that is
   * multiplied by 180/pi). Their exact values are not computed by the model; the predicates
   * below state the laws a proof may rely on.
   */
  datatype Host = Host(sqrt: real -> real, atan2Deg: (real, real) -> real) {

    /** `sqrt` is the non-negative square root on non-negative arguments. */
    ghost predicate SqrtLaws()
    {
      forall x :: 0.0 <= x ==> 0.0 <= sqrt(x) && sqrt(x) * sqrt(x) == x
    }

    /**
     * `atan2` returns an angle in [-180, 180] degrees, and 0 at the origin with a positive zero
     * second argument (`atan2(±0, +0)` is ±0). Signed zeros are not otherwise modelled: `atan2(±0, -0)`
     * is ±180, and its one use, the direction of a zero drift, is modelled as a case of its own.
     */
    ghost predicate Atan2Range()
    {
      && (forall y, x :: -180.0 <= atan2Deg(y, x) <= 180.0)
      && atan2Deg(0.0, 0.0) == 0.0
    }
  }

  /** A square root of a positive number is positive. */
  lemma SqrtPositive(h: Host, x: real)
    requires h.SqrtLaws()
    requires 0.0 < x
    ensures 0.0 < h.sqrt(x)
  {
  }

  /**
   * Square root is strictly increasing, so comparing Euclidean distances is the same as
   * comparing squared distances: the justification for the squared comparisons in the model.
   */
  lemma SqrtStrictlyIncreasing(h: Host, a: real, b: real)
    requires h.SqrtLaws()
    requires 0.0 <= a < b
    ensures h.sqrt(a) < h.sqrt(b)
  {
    var sa, sb := h.sqrt(a), h.sqrt(b);
    assert 0.0 <= sa && sa * sa == a;
    assert 0.0 <= sb && sb * sb == b;
    assert (sb - sa) * (sb + sa) == b - a;
    SqrtPositive(h, b);
    assert (sb - sa) * (sb + sa) > 0.0;
    PositiveFactor(sb - sa, sb + sa);
  }

  lemma PositiveProduct(a: real, b: real)
    requires a > 0.0 && b > 0.0
    ensures a * b > 0.0
  {
  }

  lemma RealSquareNonNegative(x: real)
    ensures x * x >= 0.0
  {
    if x < 0.0 {
      PositiveProduct(-x, -x);
    }
  }

  lemma NonZeroSquare(x: real)
    requires x != 0.0
    ensures x * x > 0.0
  {
    if x < 0.0 {
      PositiveProduct(-x, -x);
    } else {
      PositiveProduct(x, x);
    }
  }

  lemma NonNegativeProduct(a: real, b: real)
    requires a >= 0.0 && b >= 0.0
    ensures a * b >= 0.0
  {
  }

  lemma PositiveFactor(u: real, v: real)
    requires v > 0.0 && u * v > 0.0
    ensures u > 0.0
  {
  }

  /** A mean of values in [lo, hi] lies in [lo, hi]. */
  lemma MeanBounds(sum: int, n: int, lo: int, hi: int)
    requires n > 0 && lo * n <= sum <= hi * n
    ensures lo as real <= sum as real / n as real <= hi as real
  {
    var m := sum as real / n as real;
    assert m * n as real == sum as real;
    assert (lo * n) as real == lo as real * n as real;
    assert (hi * n) as real == hi as real * n as real;
  }
}

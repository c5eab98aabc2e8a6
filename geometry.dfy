/**
 * Planar distance between a pickup point and a driver.
 *
 * The services compute the Euclidean distance `sqrt(dx^2 + dy^2)` and only
 * ever compare distances with `<`.  Over exact reals, square root is
 * strictly increasing on non-negative numbers (`SquaresOrderLikeRoots`), so
 * comparing squared distances selects the same driver; the model therefore
 * works with the squared distance on `real` (floating-point rounding is not
 * modelled).
 */
module Geometry {

  /** a * b, with the sign facts the proofs below rely on. */
  function Product(a: real, b: real): (r: real)
    ensures a > 0.0 && b > 0.0 ==> r > 0.0
    ensures a >= 0.0 && b >= 0.0 ==> r >= 0.0
  {
    a * b
  }

  /** a * a, written by the sign of a so that its sign facts follow from Product. */
  function Square(a: real): (r: real)
    ensures r >= 0.0
    ensures a != 0.0 ==> r > 0.0
  {
    if a >= 0.0 then Product(a, a) else Product(-a, -a)
  }

  /** The square of the Euclidean distance between (x1, y1) and (x2, y2). */
  function SquaredDistance(x1: real, y1: real, x2: real, y2: real): (d: real)
    ensures d >= 0.0
    ensures d == 0.0 <==> x1 == x2 && y1 == y2
  {
    Square(x2 - x1) + Square(y2 - y1)
  }

  /** The distance does not depend on which point is the pickup and which the driver. */
  lemma SquaredDistanceSymmetric(x1: real, y1: real, x2: real, y2: real)
    ensures SquaredDistance(x1, y1, x2, y2) == SquaredDistance(x2, y2, x1, y1)
  {
  }

  lemma DifferenceOfSquares(u: real, v: real)
    requires u >= 0.0 && v >= 0.0
    ensures Square(v) - Square(u) == Product(v - u, v + u)
  {
  }

  /**
   * For non-negative u and v (two distances, whose squares are the squared
   * distances), u < v exactly when Square(u) < Square(v): comparing squares
   * orders candidates as comparing the distances themselves does.
   */
  lemma SquaresOrderLikeRoots(u: real, v: real)
    requires u >= 0.0 && v >= 0.0
    ensures u < v <==> Square(u) < Square(v)
  {
    DifferenceOfSquares(u, v);
    DifferenceOfSquares(v, u);
  }
}

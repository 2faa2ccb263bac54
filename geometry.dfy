/** The 2-D point of the engine and its distance. */
module Geometry {

  datatype Point = Point(x: real, y: real)

  /** The squared Euclidean distance between two points. The engine takes the
      square root of this value; since the root is monotone on non-negative
      numbers, every comparison the engine makes between two distances comes
      out the same on squared distances (EuclideanOrderAgrees). */
  function SqDist(a: Point, b: Point): (d: real)
    ensures d >= 0.0
  {
    var dx := b.x - a.x;
    var dy := b.y - a.y;
    dx * dx + dy * dy
  }

  lemma SqDistSymmetric(a: Point, b: Point)
    ensures SqDist(a, b) == SqDist(b, a)
  {
  }

  lemma SqDistSelf(a: Point)
    ensures SqDist(a, a) == 0.0
  {
  }

  /** Over exact coordinates, the distance vanishes exactly between equal points. */
  lemma SqDistZeroIff(a: Point, b: Point)
    ensures SqDist(a, b) == 0.0 <==> a == b
  {
    var dx := b.x - a.x;
    var dy := b.y - a.y;
    if a != b {
      SumOfSquaresPositive(dx, dx, dy, dy, SqDist(a, b));
    }
  }

  /** If dab and dac are the (non-negative) Euclidean distances from a to b and
      from a to c, they compare exactly as the squared distances do. */
  lemma EuclideanOrderAgrees(a: Point, b: Point, c: Point, dab: real, dac: real)
    requires dab >= 0.0 && dac >= 0.0
    requires dab * dab == SqDist(a, b) && dac * dac == SqDist(a, c)
    ensures dab < dac <==> SqDist(a, b) < SqDist(a, c)
    ensures dab == dac <==> SqDist(a, b) == SqDist(a, c)
  {
    if dab < dac {
      SquareStrictlyIncreasing(dab, dac);
    } else if dac < dab {
      SquareStrictlyIncreasing(dac, dab);
    }
  }

  /** A sum of two squares u * u + v * v (each written with two equal factors)
      is positive unless both u and v are zero. */
  lemma SumOfSquaresPositive(u: real, u': real, v: real, v': real, s: real)
    requires u == u' && v == v'
    requires u * u' + v * v' == s
    requires u != 0.0 || v != 0.0
    ensures s > 0.0
  {
    SquareNonNegative(u, u');
    SquareNonNegative(v, v');
    if u != 0.0 {
      SquarePositive(u, u');
    } else {
      SquarePositive(v, v');
    }
  }

  lemma SquareNonNegative(u: real, u': real)
    requires u == u'
    ensures u * u' >= 0.0
  {
    if u != 0.0 {
      SquarePositive(u, u');
    }
  }

  lemma SquarePositive(u: real, u': real)
    requires u == u' && u != 0.0
    ensures u * u' > 0.0
  {
    if u > 0.0 {
      ProductPositive(u, u');
    } else {
      ProductPositive(-u, -u');
      assert (-u) * (-u') == u * u';
    }
  }

  lemma SquareStrictlyIncreasing(u: real, v: real)
    requires 0.0 <= u < v
    ensures u * u < v * v
  {
    ProductPositive(v - u, v + u);
    DifferenceOfSquares(u, v);
  }

  lemma ProductPositive(u: real, v: real)
    requires u > 0.0 && v > 0.0
    ensures u * v > 0.0
  {
  }

  lemma DifferenceOfSquares(u: real, v: real)
    ensures v * v - u * u == (v - u) * (v + u)
  {
  }
}

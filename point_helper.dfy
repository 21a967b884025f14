/**
 * PointHelper: Euclidean distance between two points and the centroid of a
 * list of points.
 */
module PointHelper {
  import opened Numerics

  /** The squared distance, the argument Distance hands to the square root. */
  function DistanceSquared(a: Point, b: Point): real {
    (a.X - b.X) * (a.X - b.X) + (a.Y - b.Y) * (a.Y - b.Y)
  }

  /** Math.Sqrt(Math.Pow(a.X - b.X, 2) + Math.Pow(a.Y - b.Y, 2)). */
  function Distance(a: Point, b: Point, sqrt: real -> real): real {
    sqrt(DistanceSquared(a, b))
  }

  lemma DistanceSquaredNonNegative(a: Point, b: Point)
    ensures 0.0 <= DistanceSquared(a, b)
  {
    assert 0.0 <= (a.X - b.X) * (a.X - b.X);
    assert 0.0 <= (a.Y - b.Y) * (a.Y - b.Y);
  }

  /** A distance is a non-negative number whose square is the squared distance. */
  lemma DistanceNonNegative(a: Point, b: Point, sqrt: real -> real)
    requires IsSqrt(sqrt)
    ensures 0.0 <= Distance(a, b, sqrt)
    ensures Distance(a, b, sqrt) * Distance(a, b, sqrt) == DistanceSquared(a, b)
  {
    DistanceSquaredNonNegative(a, b);
  }

  lemma DistanceToSelf(a: Point, sqrt: real -> real)
    requires IsSqrt(sqrt)
    ensures Distance(a, a, sqrt) == 0.0
  {
    SqrtUnique(sqrt, DistanceSquared(a, a), 0.0);
  }

  lemma DistanceSymmetric(a: Point, b: Point, sqrt: real -> real)
    ensures Distance(a, b, sqrt) == Distance(b, a, sqrt)
  {
    assert (a.X - b.X) * (a.X - b.X) == (b.X - a.X) * (b.X - a.X);
    assert (a.Y - b.Y) * (a.Y - b.Y) == (b.Y - a.Y) * (b.Y - a.Y);
  }

  /** `Distance(a, b) <= bound` holds exactly when the bound is non-negative and
      the squared distance is at most its square. */
  lemma DistanceAtMost(a: Point, b: Point, bound: real, sqrt: real -> real)
    requires IsSqrt(sqrt)
    ensures Distance(a, b, sqrt) <= bound <==> 0.0 <= bound && DistanceSquared(a, b) <= bound * bound
  {
    DistanceSquaredNonNegative(a, b);
    SqrtAtMost(sqrt, DistanceSquared(a, b), bound);
  }

  /** Sum of the X coordinates, accumulated front to back. */
  function SumX(points: seq<Point>): real {
    if points == [] then 0.0 else SumX(points[..|points| - 1]) + points[|points| - 1].X
  }

  function SumY(points: seq<Point>): real {
    if points == [] then 0.0 else SumY(points[..|points| - 1]) + points[|points| - 1].Y
  }

  /** The componentwise mean of a non-empty list of points. */
  function Mean(points: seq<Point>): Point
    requires |points| > 0
  {
    Point(SumX(points) / |points| as real, SumY(points) / |points| as real)
  }

  /**
   * CalculateCentroid: sums the coordinates and scales them by 1 / Count.
   * The list must not be empty (the source divides by its length).
   */
  method CalculateCentroid(points: seq<Point>) returns (centroid: Point)
    requires |points| > 0
    ensures centroid == Mean(points)
  {
    centroid := Origin;
    var j := 0;
    while j < |points|
      invariant 0 <= j <= |points|
      invariant centroid == Point(SumX(points[..j]), SumY(points[..j]))
    {
      assert points[..j + 1][..j] == points[..j];
      centroid := Point(centroid.X + points[j].X, centroid.Y + points[j].Y);
      j := j + 1;
    }
    assert points[..j] == points;
    var n := |points| as real;
    centroid := Point((1.0 / n) * centroid.X, (1.0 / n) * centroid.Y);
  }

  /** The centroid of a single point is that point. */
  lemma CentroidOfOnePoint(p: Point)
    ensures Mean([p]) == p
  {
    assert [p][..|[p]| - 1] == [];
    assert SumX([p]) == p.X && SumY([p]) == p.Y;
  }

  lemma {:induction false} SumXBounds(points: seq<Point>, lo: real, hi: real)
    requires forall k :: 0 <= k < |points| ==> lo <= points[k].X <= hi
    ensures |points| as real * lo <= SumX(points) <= |points| as real * hi
  {
    if points != [] {
      SumXBounds(points[..|points| - 1], lo, hi);
    }
  }

  lemma {:induction false} SumYBounds(points: seq<Point>, lo: real, hi: real)
    requires forall k :: 0 <= k < |points| ==> lo <= points[k].Y <= hi
    ensures |points| as real * lo <= SumY(points) <= |points| as real * hi
  {
    if points != [] {
      SumYBounds(points[..|points| - 1], lo, hi);
    }
  }

  /** The centroid lies in every axis-aligned box that holds all the points. */
  lemma CentroidWithinBounds(points: seq<Point>, lo: Point, hi: Point)
    requires |points| > 0
    requires forall k :: 0 <= k < |points| ==> lo.X <= points[k].X <= hi.X && lo.Y <= points[k].Y <= hi.Y
    ensures lo.X <= Mean(points).X <= hi.X
    ensures lo.Y <= Mean(points).Y <= hi.Y
  {
    MeanXWithin(points, lo.X, hi.X);
    MeanYWithin(points, lo.Y, hi.Y);
  }

  lemma MeanXWithin(points: seq<Point>, lo: real, hi: real)
    requires |points| > 0
    requires forall k :: 0 <= k < |points| ==> lo <= points[k].X <= hi
    ensures lo <= SumX(points) / |points| as real <= hi
  {
    SumXBounds(points, lo, hi);
    DivideBounds(SumX(points), |points| as real, lo, hi);
  }

  lemma MeanYWithin(points: seq<Point>, lo: real, hi: real)
    requires |points| > 0
    requires forall k :: 0 <= k < |points| ==> lo <= points[k].Y <= hi
    ensures lo <= SumY(points) / |points| as real <= hi
  {
    SumYBounds(points, lo, hi);
    DivideBounds(SumY(points), |points| as real, lo, hi);
  }

  lemma DivideBounds(s: real, n: real, lo: real, hi: real)
    requires 0.0 < n
    requires n * lo <= s <= n * hi
    ensures lo <= s / n <= hi
  {
    var q := s / n;
    assert q * n == s;
    NegativeTimesPositive(q - lo, n);
    NegativeTimesPositive(hi - q, n);
  }

  lemma NegativeTimesPositive(a: real, n: real)
    requires 0.0 < n
    ensures a < 0.0 ==> a * n < 0.0
  {
  }
}

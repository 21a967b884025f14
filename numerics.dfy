/**
 * The pieces of the .NET platform the simulation core leans on: the plane point
 * System.Windows.Point, the constant Math.PI and the function Math.Sqrt.
 *
 * Arithmetic is on mathematical reals, not IEEE doubles. Math.Sqrt has no exact
 * counterpart among Dafny's operations, so it enters the model as a parameter
 * `sqrt` that is only assumed to behave as a square root (see IsSqrt).
 */
module Numerics {

  /** A point (or vector) of the plane, as System.Windows.Point. */
  datatype Point = Point(X: real, Y: real)

  /** The origin, the value of `new Point()`. */
  const Origin: Point := Point(0.0, 0.0)

  /** Math.PI as C# declares it. */
  const PI: real := 3.14159265358979323846

  /** double.MaxValue, (2^53 - 1) * 2^971. */
  const MaxDouble: real := 179769313486231570814527423731704356798070567525844996598917476803157260780028538760589558632766878171540458953514382464234321326889464182768467546703537516986049910576551282076245490090389328944075868508455133942304583236903222948165808559332123348274797826204144723168738177180919299881250404026184124858368.0

  /** Componentwise sum of two points. */
  function Add(a: Point, b: Point): Point {
    Point(a.X + b.X, a.Y + b.Y)
  }

  /** `sqrt` is a square root on the non-negative reals, the role Math.Sqrt plays. */
  ghost predicate IsSqrt(sqrt: real -> real) {
    forall x :: 0.0 <= x ==> 0.0 <= sqrt(x) && sqrt(x) * sqrt(x) == x
  }

  lemma SquareStrictlyMonotone(a: real, b: real)
    requires 0.0 <= a < b
    ensures a * a < b * b
  {
    calc {
      a * a;
    <= { assert a * (b - a) >= 0.0; }
      a * b;
    < { assert (b - a) * b > 0.0; }
      b * b;
    }
  }

  /** A non-negative root of x is the root `sqrt` returns. */
  lemma SqrtUnique(sqrt: real -> real, x: real, r: real)
    requires IsSqrt(sqrt)
    requires 0.0 <= r && r * r == x
    ensures sqrt(x) == r
  {
    var s := sqrt(x);
    assert 0.0 <= s && s * s == x;
    if s < r {
      SquareStrictlyMonotone(s, r);
    } else if r < s {
      SquareStrictlyMonotone(r, s);
    }
  }

  lemma SqrtMonotone(sqrt: real -> real, x: real, y: real)
    requires IsSqrt(sqrt)
    requires 0.0 <= x <= y
    ensures sqrt(x) <= sqrt(y)
  {
    var a, b := sqrt(x), sqrt(y);
    assert 0.0 <= a && a * a == x;
    assert 0.0 <= b && b * b == y;
    if b < a {
      SquareStrictlyMonotone(b, a);
    }
  }

  /** Comparing a square root with a bound is comparing squares. */
  lemma SqrtAtMost(sqrt: real -> real, x: real, c: real)
    requires IsSqrt(sqrt)
    requires 0.0 <= x
    ensures sqrt(x) <= c <==> 0.0 <= c && x <= c * c
  {
    var s := sqrt(x);
    assert 0.0 <= s && s * s == x;
    if s <= c {
      assert s * s <= c * c by {
        if s < c { SquareStrictlyMonotone(s, c); }
      }
    }
    if 0.0 <= c && x <= c * c && c < s {
      SquareStrictlyMonotone(c, s);
    }
  }
}

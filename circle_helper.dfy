/**
 * CircleHelper: conversion between the radius of a circle and its area.
 */
module CircleHelper {
  import opened Numerics

  /** Math.PI * Math.Pow(radius, 2). */
  function GetAreaOfRadius(radius: real): real {
    PI * (radius * radius)
  }

  /** Math.Sqrt(area / Math.PI). */
  function GetRadiusFromArea(area: real, sqrt: real -> real): real {
    sqrt(area / PI)
  }

  lemma AreaNonNegative(radius: real)
    ensures 0.0 <= GetAreaOfRadius(radius)
  {
    assert 0.0 <= radius * radius;
  }

  lemma AreaOfNegatedRadius(radius: real)
    ensures GetAreaOfRadius(-radius) == GetAreaOfRadius(radius)
  {
    assert (-radius) * (-radius) == radius * radius;
  }

  /** The area of a circle grows with its radius. */
  lemma AreaMonotone(r: real, s: real)
    requires 0.0 <= r <= s
    ensures GetAreaOfRadius(r) <= GetAreaOfRadius(s)
  {
    assert r * r <= s * s by {
      if r < s { SquareStrictlyMonotone(r, s); }
    }
  }

  /** Radius -> area -> radius gives back every non-negative radius. */
  lemma RadiusOfAreaOfRadius(radius: real, sqrt: real -> real)
    requires IsSqrt(sqrt)
    requires 0.0 <= radius
    ensures GetRadiusFromArea(GetAreaOfRadius(radius), sqrt) == radius
  {
    assert GetAreaOfRadius(radius) / PI == radius * radius;
    SqrtUnique(sqrt, radius * radius, radius);
  }

  /** Area -> radius -> area gives back every non-negative area,
      through a non-negative radius. */
  lemma AreaOfRadiusOfArea(area: real, sqrt: real -> real)
    requires IsSqrt(sqrt)
    requires 0.0 <= area
    ensures 0.0 <= GetRadiusFromArea(area, sqrt)
    ensures GetAreaOfRadius(GetRadiusFromArea(area, sqrt)) == area
  {
    var r := GetRadiusFromArea(area, sqrt);
    assert 0.0 <= area / PI;
    assert r * r == area / PI;
    assert PI * (area / PI) == area;
  }
}

/**
 * OrbitalBody: the simulated body, its ID-based identity, and the merge
 * constructor that fuses a set of colliding bodies into one.
 */
module Models {
  import opened Numerics
  import opened CircleHelper

  /** A nullable reference, `OrbitalBody?` in the source. */
  datatype Option<T> = None | Some(value: T)

  /** The ten properties of a body. */
  datatype OrbitalBody = OrbitalBody(
    ID: int,
    IsStationary: bool,
    Location: Point,
    VelocityVector: Point,
    KgMass: real,
    Radius: real,
    IsNoclip: bool,
    HasAtmosphere: bool,
    AtmSeaLevelDensity: real,
    AtmTopLevel: real)

  /** The copy constructor: every property, ID included, is taken from `other`. */
  function Copy(other: OrbitalBody): (r: OrbitalBody)
    ensures r == other
  {
    OrbitalBody(other.ID, other.IsStationary, other.Location, other.VelocityVector, other.KgMass,
                other.Radius, other.IsNoclip, other.HasAtmosphere, other.AtmSeaLevelDensity, other.AtmTopLevel)
  }

  // ---------------------------------------------------------------------------
  // Identity
  // ---------------------------------------------------------------------------

  /** Equals(OrbitalBody? other): a non-null body with the same ID. */
  predicate Equals(body: OrbitalBody, other: Option<OrbitalBody>) {
    other.Some? && body.ID == other.value.ID
  }

  /**
   * operator ==: two nulls are equal, a null and a body are not, two bodies are
   * equal when Equals says so. (Reference equality of two bodies implies equal
   * IDs, so it adds nothing to the ID test.)
   */
  predicate SameBody(a: Option<OrbitalBody>, b: Option<OrbitalBody>) {
    match (a, b)
    case (None, None) => true
    case (None, Some(_)) => false
    case (Some(_), None) => false
    case (Some(x), Some(_)) => Equals(x, b)
  }

  /**
   * GetHashCode: HashCode.Combine(ID). The combiner's per-process seeded mixing
   * of the integer is the parameter `mix`.
   */
  function HashCode(body: OrbitalBody, mix: int -> int): int {
    mix(body.ID)
  }

  ghost predicate Injective(mix: int -> int) {
    forall x, y :: mix(x) == mix(y) ==> x == y
  }

  /** `==` on two bodies is equality of their IDs, whatever else differs. */
  lemma SameBodyIsSameId(a: OrbitalBody, b: OrbitalBody)
    ensures SameBody(Some(a), Some(b)) <==> a.ID == b.ID
    ensures SameBody(Some(a), Some(b)) == SameBody(Some(b), Some(a))
    ensures SameBody(None, None) && !SameBody(Some(a), None) && !SameBody(None, Some(a))
  {
  }

  /** `==` is an equivalence relation on bodies. */
  lemma SameBodyTransitive(a: OrbitalBody, b: OrbitalBody, c: OrbitalBody)
    requires SameBody(Some(a), Some(b)) && SameBody(Some(b), Some(c))
    ensures SameBody(Some(a), Some(c))
  {
  }

  /** Equal bodies have equal hash codes. */
  lemma EqualBodiesHashAlike(a: OrbitalBody, b: OrbitalBody, mix: int -> int)
    requires SameBody(Some(a), Some(b))
    ensures HashCode(a, mix) == HashCode(b, mix)
  {
  }

  /** A copy is equal to its original, hashes alike, and keeps every property. */
  lemma CopyEqualsOriginal(b: OrbitalBody, mix: int -> int)
    ensures SameBody(Some(Copy(b)), Some(b))
    ensures HashCode(Copy(b), mix) == HashCode(b, mix)
  {
  }

  /**
   * When the mixer is injective (HashCode.Combine of one int is a bijection on
   * 32-bit values), comparing hash codes is comparing IDs; so removing by hash
   * code, as CollisionCheck does, is removing by ID.
   */
  lemma HashMatchIsIdMatch(a: OrbitalBody, b: OrbitalBody, mix: int -> int)
    requires Injective(mix)
    ensures HashCode(a, mix) == HashCode(b, mix) <==> a.ID == b.ID
  {
  }

  // ---------------------------------------------------------------------------
  // Existence checks
  // ---------------------------------------------------------------------------

  /** IsAnyStationary: returns on the first stationary body. */
  function IsAnyStationary(bodies: seq<OrbitalBody>): (r: bool)
    ensures r <==> exists k :: 0 <= k < |bodies| && bodies[k].IsStationary
  {
    if bodies == [] then false
    else if bodies[0].IsStationary then true
    else
      var r := IsAnyStationary(bodies[1..]);
      assert forall k :: 1 <= k < |bodies| ==> bodies[k] == bodies[1..][k - 1];
      r
  }

  /** IsAnyAtmospheric: returns on the first body with an atmosphere. */
  function IsAnyAtmospheric(bodies: seq<OrbitalBody>): (r: bool)
    ensures r <==> exists k :: 0 <= k < |bodies| && bodies[k].HasAtmosphere
  {
    if bodies == [] then false
    else if bodies[0].HasAtmosphere then true
    else
      var r := IsAnyAtmospheric(bodies[1..]);
      assert forall k :: 1 <= k < |bodies| ==> bodies[k] == bodies[1..][k - 1];
      r
  }

  // ---------------------------------------------------------------------------
  // Sums over a collection of bodies
  // ---------------------------------------------------------------------------

  /** The sum of `f` over the bodies, in enumeration order. */
  function Sum(bodies: seq<OrbitalBody>, f: OrbitalBody -> real): real {
    if bodies == [] then 0.0 else f(bodies[0]) + Sum(bodies[1..], f)
  }

  function Mass(b: OrbitalBody): real { b.KgMass }
  function MomentumX(b: OrbitalBody): real { b.VelocityVector.X * b.KgMass }
  function MomentumY(b: OrbitalBody): real { b.VelocityVector.Y * b.KgMass }
  function MomentX(b: OrbitalBody): real { b.Location.X * b.KgMass }
  function MomentY(b: OrbitalBody): real { b.Location.Y * b.KgMass }
  function Area(b: OrbitalBody): real { GetAreaOfRadius(b.Radius) }
  function RadiusSquared(b: OrbitalBody): real { b.Radius * b.Radius }
  function AtmThickness(b: OrbitalBody): real { if b.HasAtmosphere then b.AtmTopLevel - b.Radius else 0.0 }
  function AtmDensity(b: OrbitalBody): real { if b.HasAtmosphere then b.AtmSeaLevelDensity else 0.0 }

  lemma {:induction false} SumAppend(a: seq<OrbitalBody>, b: seq<OrbitalBody>, f: OrbitalBody -> real)
    ensures Sum(a + b, f) == Sum(a, f) + Sum(b, f)
  {
    if a == [] {
      assert a + b == b;
    } else {
      assert (a + b)[1..] == a[1..] + b;
      SumAppend(a[1..], b, f);
    }
  }

  lemma MultisetRemoveAt(b: seq<OrbitalBody>, j: int)
    requires 0 <= j < |b|
    ensures multiset(b[..j] + b[j + 1..]) == multiset(b) - multiset{b[j]}
  {
    assert b == b[..j] + [b[j]] + b[j + 1..];
  }

  lemma SumRemoveAt(b: seq<OrbitalBody>, j: int, f: OrbitalBody -> real)
    requires 0 <= j < |b|
    ensures Sum(b, f) == f(b[j]) + Sum(b[..j] + b[j + 1..], f)
  {
    assert b == (b[..j] + [b[j]]) + b[j + 1..];
    SumAppend(b[..j] + [b[j]], b[j + 1..], f);
    SumAppend(b[..j], [b[j]], f);
    SumAppend(b[..j], b[j + 1..], f);
    assert [b[j]][1..] == [];
  }

  /** A sum does not depend on the enumeration order. */
  lemma {:induction false} SumPermutation(a: seq<OrbitalBody>, b: seq<OrbitalBody>, f: OrbitalBody -> real)
    requires multiset(a) == multiset(b)
    ensures Sum(a, f) == Sum(b, f)
  {
    if a == [] {
      assert |b| == |multiset(b)| == 0;
    } else {
      var x := a[0];
      assert x in multiset(b);
      var j :| 0 <= j < |b| && b[j] == x;
      var rest := b[..j] + b[j + 1..];
      assert a == [x] + a[1..];
      assert multiset(a[1..]) == multiset(a) - multiset{x};
      MultisetRemoveAt(b, j);
      SumPermutation(a[1..], rest, f);
      SumRemoveAt(b, j, f);
    }
  }

  /** Summing `f / c` is dividing the sum of `f` by c. */
  lemma {:induction false} SumDivided(bodies: seq<OrbitalBody>, f: OrbitalBody -> real, g: OrbitalBody -> real, c: real)
    requires c != 0.0
    requires forall k :: 0 <= k < |bodies| ==> g(bodies[k]) == f(bodies[k]) / c
    ensures Sum(bodies, g) == Sum(bodies, f) / c
  {
    if bodies != [] {
      assert forall k :: 1 <= k < |bodies| ==> bodies[1..][k - 1] == bodies[k];
      SumDivided(bodies[1..], f, g, c);
    }
  }

  /** Summing `c * f` is multiplying the sum of `f` by c. */
  lemma {:induction false} SumScaled(bodies: seq<OrbitalBody>, f: OrbitalBody -> real, g: OrbitalBody -> real, c: real)
    requires forall k :: 0 <= k < |bodies| ==> g(bodies[k]) == c * f(bodies[k])
    ensures Sum(bodies, g) == c * Sum(bodies, f)
  {
    if bodies != [] {
      assert forall k :: 1 <= k < |bodies| ==> bodies[1..][k - 1] == bodies[k];
      SumScaled(bodies[1..], f, g, c);
    }
  }

  /** Two equally long collections that agree on `f` body by body have equal sums. */
  lemma {:induction false} SumPointwise(a: seq<OrbitalBody>, b: seq<OrbitalBody>, f: OrbitalBody -> real)
    requires |a| == |b|
    requires forall k :: 0 <= k < |a| ==> f(a[k]) == f(b[k])
    ensures Sum(a, f) == Sum(b, f)
  {
    if a != [] {
      assert forall k :: 1 <= k < |a| ==> a[1..][k - 1] == a[k] && b[1..][k - 1] == b[k];
      SumPointwise(a[1..], b[1..], f);
    }
  }

  lemma {:induction false} SumPositive(bodies: seq<OrbitalBody>)
    requires |bodies| > 0
    requires forall k :: 0 <= k < |bodies| ==> bodies[k].KgMass > 0.0
    ensures Sum(bodies, Mass) > 0.0
  {
    if |bodies| > 1 {
      assert forall k :: 1 <= k < |bodies| ==> bodies[1..][k - 1] == bodies[k];
      SumPositive(bodies[1..]);
    } else {
      assert bodies[1..] == [];
    }
  }

  // ---------------------------------------------------------------------------
  // The merge constructor OrbitalBody(HashSet<OrbitalBody> bodys, int newID)
  // ---------------------------------------------------------------------------

  /** What the merge needs: at least one body and a positive total mass (it divides by the total). */
  ghost predicate MergeReady(bodys: seq<OrbitalBody>) {
    |bodys| > 0 && Sum(bodys, Mass) > 0.0
  }

  lemma MulDiv(v: real, m: real, c: real)
    requires c != 0.0
    ensures v * (m / c) == (v * m) / c
  {
    var q := m / c;
    assert q * c == m;
    assert (v * q) * c == v * m;
  }

  /**
   * The merged body. Its mass is the total; its velocity adds each input's
   * velocity weighted by mass / total; its location is the mass-weighted mean;
   * its radius gives the combined area; atmospheres are combined; it gets the
   * new ID and is not noclip.
   */
  function Merge(bodys: seq<OrbitalBody>, newID: int, sqrt: real -> real): (r: OrbitalBody)
    requires MergeReady(bodys)
    ensures r.ID == newID && !r.IsNoclip
    ensures r.IsStationary <==> exists k :: 0 <= k < |bodys| && bodys[k].IsStationary
    ensures r.HasAtmosphere <==> exists k :: 0 <= k < |bodys| && bodys[k].HasAtmosphere
    ensures r.KgMass == Sum(bodys, Mass) && 0.0 < r.KgMass
    ensures r.AtmTopLevel == if r.HasAtmosphere then r.Radius + Sum(bodys, AtmThickness) else 0.0
    ensures r.AtmSeaLevelDensity == if r.HasAtmosphere then Sum(bodys, AtmDensity) else 0.0
  {
    var M := Sum(bodys, Mass);
    var radius := GetRadiusFromArea(Sum(bodys, Area), sqrt);
    var atmospheric := IsAnyAtmospheric(bodys);
    OrbitalBody(
      newID,
      IsAnyStationary(bodys),
      Point(Sum(bodys, MomentX) / M, Sum(bodys, MomentY) / M),
      Point(Sum(bodys, WeightedVelocityX(M)), Sum(bodys, WeightedVelocityY(M))),
      M,
      radius,
      false,
      atmospheric,
      if atmospheric then Sum(bodys, AtmDensity) else 0.0,
      if atmospheric then radius + Sum(bodys, AtmThickness) else 0.0)
  }

  /** The velocity term a body adds to the merged velocity: v * (m / total). */
  function WeightedVelocityX(total: real): OrbitalBody -> real
    requires total != 0.0
  {
    (b: OrbitalBody) => b.VelocityVector.X * (b.KgMass / total)
  }

  function WeightedVelocityY(total: real): OrbitalBody -> real
    requires total != 0.0
  {
    (b: OrbitalBody) => b.VelocityVector.Y * (b.KgMass / total)
  }

  lemma {:induction false} WeightedVelocitySum(bodys: seq<OrbitalBody>, total: real)
    requires total != 0.0
    ensures Sum(bodys, WeightedVelocityX(total)) == Sum(bodys, MomentumX) / total
    ensures Sum(bodys, WeightedVelocityY(total)) == Sum(bodys, MomentumY) / total
  {
    if bodys != [] {
      var b := bodys[0];
      MulDiv(b.VelocityVector.X, b.KgMass, total);
      MulDiv(b.VelocityVector.Y, b.KgMass, total);
      WeightedVelocitySum(bodys[1..], total);
    }
  }

  /** The merge conserves momentum: the merged mass times the merged velocity is
      the sum of the inputs' m v, so the velocity is the mass-weighted average. */
  lemma MergeConservesMomentum(bodys: seq<OrbitalBody>, newID: int, sqrt: real -> real)
    requires MergeReady(bodys)
    ensures MomentumX(Merge(bodys, newID, sqrt)) == Sum(bodys, MomentumX)
    ensures MomentumY(Merge(bodys, newID, sqrt)) == Sum(bodys, MomentumY)
  {
    var r := Merge(bodys, newID, sqrt);
    var M := Sum(bodys, Mass);
    assert r.VelocityVector == Point(Sum(bodys, WeightedVelocityX(M)), Sum(bodys, WeightedVelocityY(M)));
    WeightedVelocitySum(bodys, M);
  }

  /** The merged location is the centre of mass: merged mass times merged
      location is the sum of the inputs' m p. */
  lemma MergeAtCentreOfMass(bodys: seq<OrbitalBody>, newID: int, sqrt: real -> real)
    requires MergeReady(bodys)
    ensures MomentX(Merge(bodys, newID, sqrt)) == Sum(bodys, MomentX)
    ensures MomentY(Merge(bodys, newID, sqrt)) == Sum(bodys, MomentY)
  {
  }

  /** The merged radius is non-negative and conserves the combined area:
      r^2 is the sum of the inputs' r^2, and pi r^2 the sum of their areas. */
  lemma MergeConservesArea(bodys: seq<OrbitalBody>, newID: int, sqrt: real -> real)
    requires IsSqrt(sqrt)
    requires MergeReady(bodys)
    ensures 0.0 <= Merge(bodys, newID, sqrt).Radius
    ensures RadiusSquared(Merge(bodys, newID, sqrt)) == Sum(bodys, RadiusSquared)
    ensures Area(Merge(bodys, newID, sqrt)) == Sum(bodys, Area)
  {
    MergedRadius(bodys, Merge(bodys, newID, sqrt).Radius, sqrt);
  }

  /** The radius GetRadiusFromArea gives for the bodies' total area. */
  lemma MergedRadius(bodys: seq<OrbitalBody>, radius: real, sqrt: real -> real)
    requires IsSqrt(sqrt)
    requires radius == GetRadiusFromArea(Sum(bodys, Area), sqrt)
    ensures 0.0 <= radius
    ensures radius * radius == Sum(bodys, RadiusSquared)
    ensures GetAreaOfRadius(radius) == Sum(bodys, Area)
  {
    forall k | 0 <= k < |bodys| ensures Area(bodys[k]) == PI * RadiusSquared(bodys[k]) {
    }
    SumScaled(bodys, RadiusSquared, Area, PI);
    SumSquaresNonNegative(bodys);
    RadiusOfSquares(Sum(bodys, RadiusSquared), Sum(bodys, Area), radius, sqrt);
  }

  /** The radius whose area is pi times a sum of squares has that sum as its square. */
  lemma RadiusOfSquares(squares: real, area: real, radius: real, sqrt: real -> real)
    requires IsSqrt(sqrt)
    requires 0.0 <= squares && area == PI * squares
    requires radius == GetRadiusFromArea(area, sqrt)
    ensures 0.0 <= radius
    ensures radius * radius == squares
    ensures GetAreaOfRadius(radius) == area
  {
    assert area / PI == squares;
  }

  lemma {:induction false} SumSquaresNonNegative(bodies: seq<OrbitalBody>)
    ensures 0.0 <= Sum(bodies, RadiusSquared)
  {
    if bodies != [] {
      assert 0.0 <= bodies[0].Radius * bodies[0].Radius;
      SumSquaresNonNegative(bodies[1..]);
    }
  }

  /** The merged body does not depend on the order in which the set enumerates its members. */
  lemma MergeOrderIndependent(a: seq<OrbitalBody>, b: seq<OrbitalBody>, newID: int, sqrt: real -> real)
    requires MergeReady(a)
    requires multiset(a) == multiset(b)
    ensures MergeReady(b)
    ensures Merge(a, newID, sqrt) == Merge(b, newID, sqrt)
  {
    assert |b| == |multiset(b)| == |multiset(a)| == |a|;
    SumPermutation(a, b, Mass);
    var ma, mb := Merge(a, newID, sqrt), Merge(b, newID, sqrt);
    SumPermutation(a, b, MomentumX);
    SumPermutation(a, b, MomentumY);
    SumPermutation(a, b, MomentX);
    SumPermutation(a, b, MomentY);
    SumPermutation(a, b, Area);
    SumPermutation(a, b, AtmThickness);
    SumPermutation(a, b, AtmDensity);
    MergeConservesMomentum(a, newID, sqrt);
    MergeConservesMomentum(b, newID, sqrt);
    MergeAtCentreOfMass(a, newID, sqrt);
    MergeAtCentreOfMass(b, newID, sqrt);
    assert ma.KgMass == mb.KgMass;
    assert MomentumX(ma) == MomentumX(mb) && MomentumY(ma) == MomentumY(mb);
    assert MomentX(ma) == MomentX(mb) && MomentY(ma) == MomentY(mb);
    SameMomentsSameMotion(ma, mb);
    assert ma.IsStationary == mb.IsStationary by {
      if ma.IsStationary {
        var k :| 0 <= k < |a| && a[k].IsStationary;
        assert a[k] in multiset(b);
      }
      if mb.IsStationary {
        var k :| 0 <= k < |b| && b[k].IsStationary;
        assert b[k] in multiset(a);
      }
    }
    assert ma.HasAtmosphere == mb.HasAtmosphere by {
      if ma.HasAtmosphere {
        var k :| 0 <= k < |a| && a[k].HasAtmosphere;
        assert a[k] in multiset(b);
      }
      if mb.HasAtmosphere {
        var k :| 0 <= k < |b| && b[k].HasAtmosphere;
        assert b[k] in multiset(a);
      }
    }
  }

  /** Two bodies of equal positive mass with equal momenta and moments have
      equal velocities and locations. */
  lemma SameMomentsSameMotion(a: OrbitalBody, b: OrbitalBody)
    requires a.KgMass == b.KgMass && a.KgMass > 0.0
    requires MomentumX(a) == MomentumX(b) && MomentumY(a) == MomentumY(b)
    requires MomentX(a) == MomentX(b) && MomentY(a) == MomentY(b)
    ensures a.VelocityVector == b.VelocityVector && a.Location == b.Location
  {
    CancelMass(a.VelocityVector.X, b.VelocityVector.X, a.KgMass, b.KgMass);
    CancelMass(a.VelocityVector.Y, b.VelocityVector.Y, a.KgMass, b.KgMass);
    CancelMass(a.Location.X, b.Location.X, a.KgMass, b.KgMass);
    CancelMass(a.Location.Y, b.Location.Y, a.KgMass, b.KgMass);
  }

  lemma CancelMass(x: real, y: real, m: real, n: real)
    requires m == n && m > 0.0 && x * m == y * n
    ensures x == y
  {
    assert (x - y) * m == 0.0;
  }

  /** Merging a single body gives that body back under the new ID and with noclip off,
      provided its radius is non-negative and, without an atmosphere, its atmosphere
      fields are zero. */
  lemma MergeOfOne(b: OrbitalBody, newID: int, sqrt: real -> real)
    requires IsSqrt(sqrt)
    requires b.KgMass > 0.0 && 0.0 <= b.Radius
    requires !b.HasAtmosphere ==> b.AtmSeaLevelDensity == 0.0 && b.AtmTopLevel == 0.0
    ensures Merge([b], newID, sqrt) == b.(ID := newID, IsNoclip := false)
  {
    var m := Merge([b], newID, sqrt);
    assert [b][1..] == [];
    assert Sum([b], Mass) == b.KgMass;
    assert Sum([b], MomentumX) == MomentumX(b);
    assert Sum([b], MomentumY) == MomentumY(b);
    assert Sum([b], MomentX) == MomentX(b);
    assert Sum([b], MomentY) == MomentY(b);
    assert Sum([b], AtmThickness) == AtmThickness(b);
    assert Sum([b], AtmDensity) == AtmDensity(b);
    MergeConservesMomentum([b], newID, sqrt);
    MergeAtCentreOfMass([b], newID, sqrt);
    CancelMass(m.VelocityVector.X, b.VelocityVector.X, m.KgMass, b.KgMass);
    CancelMass(m.VelocityVector.Y, b.VelocityVector.Y, m.KgMass, b.KgMass);
    CancelMass(m.Location.X, b.Location.X, m.KgMass, b.KgMass);
    CancelMass(m.Location.Y, b.Location.Y, m.KgMass, b.KgMass);
    assert Sum([b], Area) == Area(b);
    RadiusOfAreaOfRadius(b.Radius, sqrt);
    assert m.Radius == b.Radius;
  }
}

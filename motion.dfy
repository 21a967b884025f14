/**
 * Motion: the velocity update of one body against the others
 * (CalculateNextLocation), the in-place location pass over the whole store
 * (UpdateLocations) and the probe that PredictPath runs forward.
 *
 * The gravitational pull of one body on another and the drag inside an
 * atmosphere are computed in the source with Atan2, Cos, Sin and Exp. They
 * enter the model as the functions `gravity` and `drag` of a `Physics` value;
 * the rule that there is no drag above the top of the atmosphere is modelled
 * explicitly.
 */
module Motion {
  import opened Numerics
  import opened PointHelper
  import opened Models
  import opened BodySet

  /** The numerics the model leaves abstract. */
  datatype Physics = Physics(
    sqrt: real -> real,
    gravity: (OrbitalBody, OrbitalBody) -> Point,
    drag: (OrbitalBody, OrbitalBody) -> Point)

  /** The one thing assumed of the abstract numerics: `sqrt` is a square root. */
  ghost predicate Sound(ph: Physics) {
    IsSqrt(ph.sqrt)
  }

  /** GetAtmosphericDrag(dragBody, anchorBody): none beyond the top of the
      anchor's atmosphere, otherwise the abstract drag. */
  function AtmosphericDrag(ph: Physics, dragBody: OrbitalBody, anchor: OrbitalBody): Point {
    if Distance(dragBody.Location, anchor.Location, ph.sqrt) > anchor.AtmTopLevel then Origin
    else ph.drag(dragBody, anchor)
  }

  /** The drag acts exactly when the squared distance is within the squared
      (non-negative) top of the atmosphere. */
  lemma DragCutOff(ph: Physics, dragBody: OrbitalBody, anchor: OrbitalBody)
    requires Sound(ph)
    ensures AtmosphericDrag(ph, dragBody, anchor) ==
              if 0.0 <= anchor.AtmTopLevel
                 && DistanceSquared(dragBody.Location, anchor.Location) <= anchor.AtmTopLevel * anchor.AtmTopLevel
              then ph.drag(dragBody, anchor) else Origin
  {
    DistanceAtMost(dragBody.Location, anchor.Location, anchor.AtmTopLevel, ph.sqrt);
  }

  /** What `other` adds to the velocity of `body`: nothing when it is the
      same body (by ID) or noclip; else its gravity, plus its drag when it
      has an atmosphere. */
  function Contribution(ph: Physics, body: OrbitalBody, other: OrbitalBody): Point {
    if other.ID == body.ID || other.IsNoclip then Origin
    else if other.HasAtmosphere then Add(ph.gravity(body, other), AtmosphericDrag(ph, body, other))
    else ph.gravity(body, other)
  }

  /** The contributions of all bodies, in enumeration order. */
  function Pull(ph: Physics, bodies: seq<OrbitalBody>, body: OrbitalBody): Point {
    if bodies == [] then Origin
    else Add(Pull(ph, bodies[..|bodies| - 1], body), Contribution(ph, body, bodies[|bodies| - 1]))
  }

  /** CalculateNextLocation(body): the velocity it will have after one step. */
  function NextVelocity(ph: Physics, bodies: seq<OrbitalBody>, body: OrbitalBody): Point {
    if body.IsNoclip then body.VelocityVector else Add(body.VelocityVector, Pull(ph, bodies, body))
  }

  lemma {:induction false} PullAppend(ph: Physics, a: seq<OrbitalBody>, b: seq<OrbitalBody>, body: OrbitalBody)
    ensures Pull(ph, a + b, body) == Add(Pull(ph, a, body), Pull(ph, b, body))
    decreases |b|
  {
    if b == [] {
      assert a + b == a;
    } else {
      var n := |b|;
      assert (a + b)[..|a + b| - 1] == a + b[..n - 1];
      assert (a + b)[|a + b| - 1] == b[n - 1];
      PullAppend(ph, a, b[..n - 1], body);
    }
  }

  lemma PullSnoc(ph: Physics, bodies: seq<OrbitalBody>, j: int, body: OrbitalBody)
    requires 0 <= j < |bodies|
    ensures Pull(ph, bodies[..j + 1], body) == Add(Pull(ph, bodies[..j], body), Contribution(ph, body, bodies[j]))
  {
    assert bodies[..j + 1][..j] == bodies[..j];
  }

  /** A body that is the same as `body` or noclip does not affect its next
      velocity: removing it from the store changes nothing. */
  lemma IgnoredBodiesDoNotPull(ph: Physics, bodies: seq<OrbitalBody>, body: OrbitalBody, k: int)
    requires 0 <= k < |bodies|
    requires bodies[k].ID == body.ID || bodies[k].IsNoclip
    ensures NextVelocity(ph, bodies, body) == NextVelocity(ph, bodies[..k] + bodies[k + 1..], body)
  {
    PullWithout(ph, bodies, body, k);
  }

  lemma PullWithout(ph: Physics, bodies: seq<OrbitalBody>, body: OrbitalBody, k: int)
    requires 0 <= k < |bodies|
    ensures Pull(ph, bodies, body) == Add(Pull(ph, bodies[..k] + bodies[k + 1..], body), Contribution(ph, body, bodies[k]))
  {
    var pre, post := bodies[..k], bodies[k + 1..];
    var front := bodies[..k + 1];
    assert bodies == front + post;
    PullSnoc(ph, bodies, k, body);
    PullAppend(ph, front, post, body);
    PullAppend(ph, pre, post, body);
    AddSwap(Pull(ph, pre, body), Contribution(ph, body, bodies[k]), Pull(ph, post, body));
  }

  lemma AddSwap(a: Point, b: Point, c: Point)
    ensures Add(Add(a, b), c) == Add(Add(a, c), b)
  {
  }

  /** A body that no other non-noclip body pulls keeps its velocity; a noclip
      body always does. */
  lemma {:induction false} UnpulledKeepsVelocity(ph: Physics, bodies: seq<OrbitalBody>, body: OrbitalBody)
    requires body.IsNoclip || forall k :: 0 <= k < |bodies| ==> bodies[k].ID == body.ID || bodies[k].IsNoclip
    ensures NextVelocity(ph, bodies, body) == body.VelocityVector
  {
    if !body.IsNoclip {
      UnpulledPull(ph, bodies, body);
    }
  }

  lemma {:induction false} UnpulledPull(ph: Physics, bodies: seq<OrbitalBody>, body: OrbitalBody)
    requires forall k :: 0 <= k < |bodies| ==> bodies[k].ID == body.ID || bodies[k].IsNoclip
    ensures Pull(ph, bodies, body) == Origin
  {
    if bodies != [] {
      UnpulledPull(ph, bodies[..|bodies| - 1], body);
    }
  }

  // ---------------------------------------------------------------------------
  // UpdateLocations
  // ---------------------------------------------------------------------------

  /** A body moved one step of size `scale` against the store `bodies`: it takes
      its next velocity and moves by that velocity times `scale`. */
  function Move(ph: Physics, bodies: seq<OrbitalBody>, b: OrbitalBody, scale: real): OrbitalBody {
    var v := NextVelocity(ph, bodies, b);
    b.(Location := Point(b.Location.X + v.X * scale, b.Location.Y + v.Y * scale), VelocityVector := v)
  }

  lemma MoveUnfold(ph: Physics, bodies: seq<OrbitalBody>, b: OrbitalBody, scale: real, w: Point)
    requires w == NextVelocity(ph, bodies, b)
    ensures Move(ph, bodies, b, scale) ==
      b.(Location := Point(b.Location.X + w.X * scale, b.Location.Y + w.Y * scale), VelocityVector := w)
  {
    var m := Move(ph, bodies, b, scale);
    assert m.Location == Point(b.Location.X + w.X * scale, b.Location.Y + w.Y * scale);
    assert m.VelocityVector == w;
    assert m == b.(Location := m.Location, VelocityVector := m.VelocityVector);
  }

  /** A stationary body is skipped; every other body is moved. */
  function Advance(ph: Physics, bodies: seq<OrbitalBody>, b: OrbitalBody, scale: real): OrbitalBody {
    if b.IsStationary then b else Move(ph, bodies, b, scale)
  }

  /** The pass from index `i` on: each body is advanced against the store as
      it is at that moment, then written back. */
  function SweepFrom(ph: Physics, bodies: seq<OrbitalBody>, i: nat, scale: real): seq<OrbitalBody>
    decreases |bodies| - i
  {
    if i >= |bodies| then bodies
    else SweepFrom(ph, bodies[i := Advance(ph, bodies, bodies[i], scale)], i + 1, scale)
  }

  /** UpdateLocations(scale) as a function of the store. */
  function Sweep(ph: Physics, bodies: seq<OrbitalBody>, scale: real): seq<OrbitalBody> {
    SweepFrom(ph, bodies, 0, scale)
  }

  /** The pass only moves bodies: it keeps the length and every property but
      the location and velocity, leaves stationary bodies and bodies before `i`
      alone, and with scale 0 moves nothing. */
  lemma {:induction false} SweepFromShape(ph: Physics, bodies: seq<OrbitalBody>, i: nat, scale: real)
    ensures var r := SweepFrom(ph, bodies, i, scale);
      && |r| == |bodies|
      && (forall k :: 0 <= k < |r| ==> r[k] == bodies[k].(Location := r[k].Location, VelocityVector := r[k].VelocityVector))
      && (forall k :: 0 <= k < |r| && bodies[k].IsStationary ==> r[k] == bodies[k])
      && (forall k :: 0 <= k < |r| && k < i ==> r[k] == bodies[k])
      && (scale == 0.0 ==> forall k :: 0 <= k < |r| ==> r[k].Location == bodies[k].Location)
    decreases |bodies| - i
  {
    if i < |bodies| {
      var next := bodies[i := Advance(ph, bodies, bodies[i], scale)];
      SweepFromShape(ph, next, i + 1, scale);
    }
  }

  /** UpdateLocations never changes a stationary body or anything but a
      location and a velocity; with scale 0 it changes no location. */
  lemma SweepShape(ph: Physics, bodies: seq<OrbitalBody>, scale: real)
    ensures |Sweep(ph, bodies, scale)| == |bodies|
    ensures forall k :: 0 <= k < |bodies| ==>
      Sweep(ph, bodies, scale)[k] == bodies[k].(Location := Sweep(ph, bodies, scale)[k].Location,
                                                 VelocityVector := Sweep(ph, bodies, scale)[k].VelocityVector)
    ensures forall k :: 0 <= k < |bodies| && bodies[k].IsStationary ==> Sweep(ph, bodies, scale)[k] == bodies[k]
    ensures scale == 0.0 ==> forall k :: 0 <= k < |bodies| ==> Sweep(ph, bodies, scale)[k].Location == bodies[k].Location
  {
    SweepFromShape(ph, bodies, 0, scale);
  }

  lemma {:induction false} SweepFromSequential(ph: Physics, bodies: seq<OrbitalBody>, i: nat, scale: real, k: int)
    requires i <= k < |bodies|
    ensures var r := SweepFrom(ph, bodies, i, scale);
      |r| == |bodies| && r[k] == Advance(ph, r[..k] + bodies[k..], bodies[k], scale)
    decreases |bodies| - i
  {
    var next := bodies[i := Advance(ph, bodies, bodies[i], scale)];
    var r := SweepFrom(ph, bodies, i, scale);
    SweepFromShape(ph, next, i + 1, scale);
    if k == i {
      assert r[..k] == bodies[..k];
      assert bodies[..k] + bodies[k..] == bodies;
    } else {
      SweepFromSequential(ph, next, i + 1, scale, k);
      assert next[k..] == bodies[k..];
    }
  }

  /**
   * The pass is sequential and in place: body k is advanced once, against a
   * store in which the bodies before it already have their new location and
   * velocity and the bodies after it do not yet.
   */
  lemma SweepSequential(ph: Physics, bodies: seq<OrbitalBody>, scale: real, k: int)
    requires 0 <= k < |bodies|
    ensures |Sweep(ph, bodies, scale)| == |bodies|
    ensures Sweep(ph, bodies, scale)[k] == Advance(ph, Sweep(ph, bodies, scale)[..k] + bodies[k..], bodies[k], scale)
  {
    SweepFromSequential(ph, bodies, 0, scale, k);
  }

  /** The pass keeps the store well formed, and keeps it calm-relevant data:
      IDs, masses, radii and flags. */
  lemma SweepKeepsWellFormed(ph: Physics, bodies: seq<OrbitalBody>, scale: real, next: int)
    requires WellFormed(bodies, next)
    ensures WellFormed(Sweep(ph, bodies, scale), next)
  {
    SweepShape(ph, bodies, scale);
    var r := Sweep(ph, bodies, scale);
    assert forall k :: 0 <= k < |r| ==> r[k].ID == bodies[k].ID && r[k].KgMass == bodies[k].KgMass;
  }

  // ---------------------------------------------------------------------------
  // The probe of PredictPath
  // ---------------------------------------------------------------------------

  /** GetLengthOfVector: Math.Sqrt(x^2 + y^2). */
  function VectorLength(v: Point, sqrt: real -> real): real {
    sqrt(v.X * v.X + v.Y * v.Y)
  }

  lemma VectorLengthNonNegative(v: Point, sqrt: real -> real)
    requires IsSqrt(sqrt)
    ensures 0.0 <= VectorLength(v, sqrt)
    ensures VectorLength(v, sqrt) == Distance(v, Origin, sqrt)
  {
    assert 0.0 <= v.X * v.X && 0.0 <= v.Y * v.Y;
    assert DistanceSquared(v, Origin) == v.X * v.X + v.Y * v.Y;
  }

  /** The probe copy after n steps: each step takes the next velocity against
      the (unchanged) store and moves by it, whether or not the body is stationary. */
  function Probe(ph: Physics, bodies: seq<OrbitalBody>, body: OrbitalBody, n: nat): OrbitalBody {
    if n == 0 then Copy(body)
    else
      var p := Probe(ph, bodies, body, n - 1);
      var v := NextVelocity(ph, bodies, p);
      p.(Location := Add(p.Location, v), VelocityVector := v)
  }

  /** The length of the path after n steps: the sum of the step velocities' lengths. */
  function PathLength(ph: Physics, bodies: seq<OrbitalBody>, body: OrbitalBody, n: nat): real {
    if n == 0 then 0.0
    else PathLength(ph, bodies, body, n - 1) + VectorLength(Probe(ph, bodies, body, n).VelocityVector, ph.sqrt)
  }

  /** The points recorded after n steps: step number c (counted from 0) records
      the probe's new location when c is a multiple of 100. */
  function Samples(ph: Physics, bodies: seq<OrbitalBody>, body: OrbitalBody, n: nat): seq<Point> {
    if n == 0 then []
    else Samples(ph, bodies, body, n - 1) + (if (n - 1) % 100 == 0 then [Probe(ph, bodies, body, n).Location] else [])
  }

  /** One more step of the probe `p` at step n, written out with its velocity `v`. */
  lemma ProbeStep(ph: Physics, bodies: seq<OrbitalBody>, body: OrbitalBody, n: nat, p: OrbitalBody, v: Point, next: OrbitalBody)
    requires p == Probe(ph, bodies, body, n)
    requires v == NextVelocity(ph, bodies, p)
    requires next == p.(Location := Point(p.Location.X + v.X, p.Location.Y + v.Y), VelocityVector := v)
    ensures Probe(ph, bodies, body, n + 1) == next
    ensures PathLength(ph, bodies, body, n + 1) == PathLength(ph, bodies, body, n) + VectorLength(v, ph.sqrt)
    ensures Samples(ph, bodies, body, n + 1) ==
      Samples(ph, bodies, body, n) + (if n % 100 == 0 then [next.Location] else [])
  {
    assert Add(p.Location, v) == Point(p.Location.X + v.X, p.Location.Y + v.Y);
  }

  /** The probe is still running after m steps: the path is shorter than
      `maxLength` and fewer than `maxPoints` points are recorded. */
  ghost predicate Running(ph: Physics, bodies: seq<OrbitalBody>, body: OrbitalBody, maxPoints: int, maxLength: real, m: nat) {
    PathLength(ph, bodies, body, m) < maxLength && |Samples(ph, bodies, body, m)| < maxPoints
  }

  /** The probe was running after each of the first n steps. */
  ghost predicate RunningBefore(ph: Physics, bodies: seq<OrbitalBody>, body: OrbitalBody, maxPoints: int, maxLength: real, n: nat) {
    forall m: nat :: m < n ==> Running(ph, bodies, body, maxPoints, maxLength, m)
  }

  lemma RunningExtend(ph: Physics, bodies: seq<OrbitalBody>, body: OrbitalBody, maxPoints: int, maxLength: real, n: nat)
    requires RunningBefore(ph, bodies, body, maxPoints, maxLength, n)
    requires Running(ph, bodies, body, maxPoints, maxLength, n)
    ensures RunningBefore(ph, bodies, body, maxPoints, maxLength, n + 1)
  {
  }

  /** Fewer than `max` samples means fewer than 100 max steps. */
  lemma SampleCountBound(n: nat, max: int)
    requires (n + 99) / 100 < max
    ensures n < 100 * max
  {
  }

  /** The probe keeps every property of the body it copies but location and velocity. */
  lemma {:induction false} ProbeKeepsIdentity(ph: Physics, bodies: seq<OrbitalBody>, body: OrbitalBody, n: nat)
    ensures Probe(ph, bodies, body, n) ==
      body.(Location := Probe(ph, bodies, body, n).Location, VelocityVector := Probe(ph, bodies, body, n).VelocityVector)
  {
    if n > 0 {
      ProbeKeepsIdentity(ph, bodies, body, n - 1);
    }
  }

  /** After n steps there are ceil(n / 100) samples, and sample k is the
      probe's location after step 100 k + 1. */
  lemma {:induction false} SamplesShape(ph: Physics, bodies: seq<OrbitalBody>, body: OrbitalBody, n: nat)
    ensures |Samples(ph, bodies, body, n)| == (n + 99) / 100
    ensures forall k :: 0 <= k < |Samples(ph, bodies, body, n)| ==>
      Samples(ph, bodies, body, n)[k] == Probe(ph, bodies, body, 100 * k + 1).Location
  {
    if n > 0 {
      SamplesShape(ph, bodies, body, n - 1);
      var prev := Samples(ph, bodies, body, n - 1);
      if (n - 1) % 100 == 0 {
        assert |prev| == (n - 1) / 100;
        assert 100 * |prev| + 1 == n;
      } else {
        assert (n + 99) / 100 == (n + 98) / 100;
      }
    }
  }

  /** The path length never decreases from one step to the next. */
  lemma {:induction false} PathLengthMonotone(ph: Physics, bodies: seq<OrbitalBody>, body: OrbitalBody, m: nat, n: nat)
    requires Sound(ph)
    requires m <= n
    ensures 0.0 <= PathLength(ph, bodies, body, m) <= PathLength(ph, bodies, body, n)
    decreases n
  {
    if m < n {
      PathLengthMonotone(ph, bodies, body, m, n - 1);
      VectorLengthNonNegative(Probe(ph, bodies, body, n).VelocityVector, ph.sqrt);
    } else if n > 0 {
      PathLengthMonotone(ph, bodies, body, n - 1, n - 1);
      VectorLengthNonNegative(Probe(ph, bodies, body, n).VelocityVector, ph.sqrt);
    }
  }
}

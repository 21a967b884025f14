/**
 * Engines: the BasicEngine body store and stepper.
 *
 * The engine holds a set of bodies and the ID counter `_currentID`. AddNewBody
 * and every merge draw IDs from that one counter. Update advances the bodies
 * by one or more passes of UpdateLocations, each followed by CollisionCheck.
 */
module Engines {
  import opened Numerics
  import opened PointHelper
  import opened Models
  import opened BodySet
  import opened Motion
  import opened Collisions

  // ---------------------------------------------------------------------------
  // Update as a function of the store
  // ---------------------------------------------------------------------------

  /** The C# cast `(int)x`: truncation toward zero. */
  function Truncate(x: real): int {
    if x >= 0.0 then x.Floor else -((-x).Floor)
  }

  lemma TruncateAboveOne(x: real)
    requires x > 1.0
    ensures 1 <= Truncate(x) && Truncate(x) as real <= x < Truncate(x) as real + 1.0
  {
  }

  /** One location pass scaled by `scale`, then one collision check. */
  function SubStep(ph: Physics, s: Store, scale: real): (r: Store)
    requires WellFormed(s.bodies, s.nextId)
    ensures WellFormed(r.bodies, r.nextId) && s.nextId <= r.nextId
  {
    SweepKeepsWellFormed(ph, s.bodies, scale, s.nextId);
    Collide(ph.sqrt, Store(Sweep(ph, s.bodies, scale), s.nextId))
  }

  /** n sub-steps of scale 1. */
  function Steps(ph: Physics, s: Store, n: nat): (r: Store)
    requires WellFormed(s.bodies, s.nextId)
    ensures WellFormed(r.bodies, r.nextId) && s.nextId <= r.nextId
  {
    if n == 0 then s else SubStep(ph, Steps(ph, s, n - 1), 1.0)
  }

  /** Update(tickMultiplier): nothing on an empty store; one pass scaled by the
      multiplier when it is at most 1; otherwise (int)tickMultiplier passes of
      scale 1. */
  function Tick(ph: Physics, s: Store, tick: real): Store
    requires WellFormed(s.bodies, s.nextId)
  {
    if |s.bodies| == 0 then s
    else if tick <= 1.0 then SubStep(ph, s, tick)
    else
      TruncateAboveOne(tick);
      Steps(ph, s, Truncate(tick))
  }

  /** The three cases of Tick, one lemma each. */
  lemma TickCases(ph: Physics, s: Store, tick: real)
    requires WellFormed(s.bodies, s.nextId)
    ensures |s.bodies| == 0 ==> Tick(ph, s, tick) == s
    ensures |s.bodies| > 0 && tick <= 1.0 ==> Tick(ph, s, tick) == SubStep(ph, s, tick)
    ensures |s.bodies| > 0 && tick > 1.0 ==> 1 <= Truncate(tick) && Tick(ph, s, tick) == Steps(ph, s, Truncate(tick))
  {
    if tick > 1.0 {
      TruncateAboveOne(tick);
    }
  }

  lemma StepsNext(ph: Physics, s: Store, n: nat)
    requires WellFormed(s.bodies, s.nextId)
    ensures Steps(ph, s, n + 1) == SubStep(ph, Steps(ph, s, n), 1.0)
  {
  }

  /** After a sub-step no two distinct non-noclip bodies overlap. */
  lemma SubStepCalm(ph: Physics, s: Store, scale: real)
    requires WellFormed(s.bodies, s.nextId)
    ensures Calm(SubStep(ph, s, scale).bodies, ph.sqrt)
  {
    SweepKeepsWellFormed(ph, s.bodies, scale, s.nextId);
    CollisionCheckCalm(ph.sqrt, Store(Sweep(ph, s.bodies, scale), s.nextId));
  }

  /** After n >= 1 whole passes no two distinct non-noclip bodies overlap. */
  lemma StepsCalm(ph: Physics, s: Store, n: nat)
    requires WellFormed(s.bodies, s.nextId) && n >= 1
    ensures Calm(Steps(ph, s, n).bodies, ph.sqrt)
  {
    StepsNext(ph, s, n - 1);
    SubStepCalm(ph, Steps(ph, s, n - 1), 1.0);
    CalmTransfer(Steps(ph, s, n), SubStep(ph, Steps(ph, s, n - 1), 1.0), ph.sqrt);
  }

  /** After Update no two distinct non-noclip bodies overlap, whatever the
      multiplier. */
  lemma TickCalm(ph: Physics, s: Store, tick: real)
    requires WellFormed(s.bodies, s.nextId)
    ensures Calm(Tick(ph, s, tick).bodies, ph.sqrt)
  {
    TickCases(ph, s, tick);
    if |s.bodies| == 0 {
      assert Calm(s.bodies, ph.sqrt);
    } else if tick <= 1.0 {
      SubStepCalm(ph, s, tick);
      CalmTransfer(Tick(ph, s, tick), SubStep(ph, s, tick), ph.sqrt);
    } else {
      StepsCalm(ph, s, Truncate(tick));
      CalmTransfer(Tick(ph, s, tick), Steps(ph, s, Truncate(tick)), ph.sqrt);
    }
  }

  /** The state after a look that found nothing continues the check. */
  lemma QuietFinish(sqrt: real -> real, s: Store, i: nat, bodies: seq<OrbitalBody>)
    requires WellFormed(s.bodies, s.nextId) && i < |s.bodies|
    requires CollisionSet(s.bodies[i], s.bodies, sqrt) == []
    requires bodies == s.bodies[i := Rescan(s.bodies[i], s.bodies, sqrt)]
    ensures WellFormed(bodies, s.nextId) && |bodies| == |s.bodies|
    ensures CollideFrom(sqrt, Store(bodies, s.nextId), i + 1) == CollideFrom(sqrt, s, i)
  {
    CollideFromQuiet(sqrt, s, i);
    assert Store(bodies, s.nextId) == Quieted(sqrt, s, i);
  }

  /** The state after a merge continues the check from index 1. */
  lemma MergeFinish(sqrt: real -> real, s: Store, i: nat, bodies: seq<OrbitalBody>, next: int)
    requires WellFormed(s.bodies, s.nextId) && i < |s.bodies|
    requires CollisionSet(s.bodies[i], s.bodies, sqrt) != []
    requires MergeReady(CollisionSet(s.bodies[i], s.bodies, sqrt))
    requires bodies == Absorb(s.bodies, CollisionSet(s.bodies[i], s.bodies, sqrt), s.nextId, sqrt)
    requires next == s.nextId + 1
    ensures WellFormed(bodies, next) && 0 < |bodies| < |s.bodies|
    ensures CollideFrom(sqrt, Store(bodies, next), 1) == CollideFrom(sqrt, s, i)
  {
    MergeStep(sqrt, s, i);
    assert Store(bodies, next) == Merged(sqrt, s, i);
  }

  lemma CalmTransfer(a: Store, b: Store, sqrt: real -> real)
    requires a == b && Calm(b.bodies, sqrt)
    ensures Calm(a.bodies, sqrt)
  {
  }

  /**
   * Update with multiplier 0 moves no body, yet it is not the identity: on a
   * store with two overlapping non-noclip bodies it still merges them.
   */
  lemma TickZeroMergesClashes(ph: Physics, s: Store)
    requires WellFormed(s.bodies, s.nextId)
    requires !Calm(s.bodies, ph.sqrt)
    ensures Tick(ph, s, 0.0) != s
  {
    TickCalm(ph, s, 0.0);
  }

  /** A sub-step keeps the total mass and the total area of the store. */
  lemma SubStepConserves(ph: Physics, s: Store, scale: real)
    requires Sound(ph)
    requires WellFormed(s.bodies, s.nextId)
    ensures Sum(SubStep(ph, s, scale).bodies, Mass) == Sum(s.bodies, Mass)
    ensures Sum(SubStep(ph, s, scale).bodies, Area) == Sum(s.bodies, Area)
  {
    var swept := Sweep(ph, s.bodies, scale);
    SweepShape(ph, s.bodies, scale);
    SweepKeepsWellFormed(ph, s.bodies, scale, s.nextId);
    assert forall k :: 0 <= k < |swept| ==> Mass(swept[k]) == Mass(s.bodies[k]) && Area(swept[k]) == Area(s.bodies[k]);
    SumPointwise(swept, s.bodies, Mass);
    SumPointwise(swept, s.bodies, Area);
    CollisionCheckConserves(ph.sqrt, Store(swept, s.nextId));
  }

  /** Two collections of bodies with the same total mass and the same total
      area. */
  ghost predicate SameTotals(a: seq<OrbitalBody>, b: seq<OrbitalBody>) {
    Sum(a, Mass) == Sum(b, Mass) && Sum(a, Area) == Sum(b, Area)
  }

  lemma SameTotalsTrans(a: seq<OrbitalBody>, b: seq<OrbitalBody>, c: seq<OrbitalBody>)
    requires SameTotals(a, b) && SameTotals(b, c)
    ensures SameTotals(a, c)
  {
  }

  /** Any number of whole passes keeps both totals. */
  lemma {:induction false} StepsConserve(ph: Physics, s: Store, n: nat)
    requires Sound(ph)
    requires WellFormed(s.bodies, s.nextId)
    ensures SameTotals(Steps(ph, s, n).bodies, s.bodies)
  {
    if n > 0 {
      StepsConserve(ph, s, n - 1);
      StepConserves(ph, s, n);
      SameTotalsTrans(Steps(ph, s, n).bodies, Steps(ph, s, n - 1).bodies, s.bodies);
    }
  }

  /** One more whole pass keeps both totals. */
  lemma StepConserves(ph: Physics, s: Store, n: nat)
    requires Sound(ph)
    requires WellFormed(s.bodies, s.nextId) && n > 0
    ensures SameTotals(Steps(ph, s, n).bodies, Steps(ph, s, n - 1).bodies)
  {
    SubStepConserves(ph, Steps(ph, s, n - 1), 1.0);
  }

  /** Update keeps the total mass and the total area of the bodies. */
  lemma TickConserves(ph: Physics, s: Store, tick: real)
    requires Sound(ph)
    requires WellFormed(s.bodies, s.nextId)
    ensures Sum(Tick(ph, s, tick).bodies, Mass) == Sum(s.bodies, Mass)
    ensures Sum(Tick(ph, s, tick).bodies, Area) == Sum(s.bodies, Area)
  {
    if |s.bodies| == 0 {
    } else if tick <= 1.0 {
      SubStepConserves(ph, s, tick);
    } else {
      TruncateAboveOne(tick);
      StepsConserve(ph, s, Truncate(tick));
    }
  }

  // ---------------------------------------------------------------------------
  // GetNearestBody
  // ---------------------------------------------------------------------------

  /** Body k is the one GetNearestBody picks: another body (by ID) closer than
      double.MaxValue, no farther than any other body, and strictly closer than
      every other body before it. */
  ghost predicate FirstNearest(bodies: seq<OrbitalBody>, to: OrbitalBody, k: int, sqrt: real -> real) {
    && 0 <= k < |bodies|
    && bodies[k].ID != to.ID
    && Distance(to.Location, bodies[k].Location, sqrt) < MaxDouble
    && (forall m :: 0 <= m < |bodies| && bodies[m].ID != to.ID ==>
          Distance(to.Location, bodies[k].Location, sqrt) <= Distance(to.Location, bodies[m].Location, sqrt))
    && (forall m :: 0 <= m < k && bodies[m].ID != to.ID ==>
          Distance(to.Location, bodies[k].Location, sqrt) < Distance(to.Location, bodies[m].Location, sqrt))
  }

  /** There is at most one such body. */
  lemma FirstNearestUnique(bodies: seq<OrbitalBody>, to: OrbitalBody, k: int, l: int, sqrt: real -> real)
    requires FirstNearest(bodies, to, k, sqrt) && FirstNearest(bodies, to, l, sqrt)
    ensures k == l
  {
  }

  // ---------------------------------------------------------------------------
  // The engine
  // ---------------------------------------------------------------------------

  class BasicEngine {
    /** The HashSet of bodies, in enumeration order. */
    var Bodies: seq<OrbitalBody>
    /** `_currentID`: the next ID to hand out. */
    var currentId: int
    /** The abstract numerics: square root, gravity and drag. */
    const physics: Physics
    /** The integer mixing of HashCode.Combine. */
    const mix: int -> int

    ghost predicate Valid()
      reads this
    {
      Injective(mix) && 0 <= currentId && WellFormed(Bodies, currentId)
    }

    constructor(physics: Physics, mix: int -> int)
      requires Injective(mix)
      ensures Valid()
      ensures Bodies == [] && currentId == 0
      ensures this.physics == physics && this.mix == mix
    {
      this.physics := physics;
      this.mix := mix;
      Bodies := [];
      currentId := 0;
    }

    /** The body gets the current counter value as its ID, the counter moves
        on, and the body is added to the set. Its ID is above every ID in use. */
    method AddNewBody(body: OrbitalBody)
      requires Valid()
      requires body.KgMass > 0.0
      modifies this
      ensures Valid()
      ensures Bodies == old(Bodies) + [body.(ID := old(currentId))]
      ensures currentId == old(currentId) + 1
      ensures forall k :: 0 <= k < |old(Bodies)| ==> old(Bodies)[k].ID < body.(ID := old(currentId)).ID
    {
      var added := body.(ID := currentId);
      currentId := currentId + 1;
      assert added.ID !in IdsOf(Bodies);
      InsertProperties(Bodies, added);
      Bodies := Insert(Bodies, added);
    }

    method GetNearestBody(to: OrbitalBody) returns (nearest: Option<OrbitalBody>)
      ensures |Bodies| == 0 ==> nearest == None
      ensures |Bodies| == 1 ==> nearest == Some(to)
      ensures |Bodies| >= 2 && nearest.Some? ==>
        exists k :: FirstNearest(Bodies, to, k, physics.sqrt) && Bodies[k] == nearest.value
      ensures |Bodies| >= 2 && nearest.None? ==>
        forall k :: 0 <= k < |Bodies| && Bodies[k].ID != to.ID ==>
          Distance(to.Location, Bodies[k].Location, physics.sqrt) >= MaxDouble
    {
      if |Bodies| == 0 {
        return None;
      }
      if |Bodies| == 1 {
        return Some(to);
      }
      nearest := None;
      var nearestDistance := MaxDouble;
      ghost var at := -1;
      var j := 0;
      while j < |Bodies|
        invariant 0 <= j <= |Bodies|
        invariant nearest.None? ==> at == -1 && nearestDistance == MaxDouble
        invariant nearest.Some? ==> 0 <= at < j && Bodies[at] == nearest.value && Bodies[at].ID != to.ID
        invariant nearest.Some? ==> nearestDistance == Distance(to.Location, Bodies[at].Location, physics.sqrt) < MaxDouble
        invariant forall m :: 0 <= m < j && Bodies[m].ID != to.ID ==>
          nearestDistance <= Distance(to.Location, Bodies[m].Location, physics.sqrt)
        invariant forall m :: 0 <= m < at && Bodies[m].ID != to.ID ==>
          nearestDistance < Distance(to.Location, Bodies[m].Location, physics.sqrt)
      {
        var obj := Bodies[j];
        if obj.ID != to.ID {
          var dist := Distance(to.Location, obj.Location, physics.sqrt);
          if dist < nearestDistance {
            nearestDistance := dist;
            nearest := Some(obj);
            at := j;
          }
        }
        j := j + 1;
      }
      if nearest.Some? {
        assert FirstNearest(Bodies, to, at, physics.sqrt);
      }
    }

    /** CalculateNextLocation(body): its velocity plus the pull of every other
        non-noclip body, or its velocity alone when it is noclip. */
    method CalculateNextLocation(body: OrbitalBody) returns (newVelocity: Point)
      ensures newVelocity == NextVelocity(physics, Bodies, body)
    {
      newVelocity := Point(body.VelocityVector.X, body.VelocityVector.Y);
      if !body.IsNoclip {
        var j := 0;
        while j < |Bodies|
          invariant 0 <= j <= |Bodies|
          invariant newVelocity == Add(body.VelocityVector, Pull(physics, Bodies[..j], body))
        {
          var otherBody := Bodies[j];
          PullSnoc(physics, Bodies, j, body);
          if otherBody.ID != body.ID {
            if !otherBody.IsNoclip {
              var force := physics.gravity(body, otherBody);
              newVelocity := Point(newVelocity.X + force.X, newVelocity.Y + force.Y);
              if otherBody.HasAtmosphere {
                var drag := AtmosphericDrag(physics, body, otherBody);
                newVelocity := Point(newVelocity.X + drag.X, newVelocity.Y + drag.Y);
              }
            }
          }
          j := j + 1;
        }
        assert Bodies[..j] == Bodies;
      }
    }

    /** UpdateLocations(scale): the in-place pass over the set. */
    method UpdateLocations(scale: real)
      requires Valid()
      modifies this
      ensures Valid()
      ensures Bodies == Sweep(physics, old(Bodies), scale)
      ensures currentId == old(currentId)
    {
      var i := 0;
      while i < |Bodies|
        invariant 0 <= i <= |Bodies| == |old(Bodies)|
        invariant currentId == old(currentId)
        invariant SweepFrom(physics, Bodies, i, scale) == Sweep(physics, old(Bodies), scale)
      {
        var obj := Bodies[i];
        ghost var advanced := Advance(physics, Bodies, obj, scale);
        assert SweepFrom(physics, Bodies, i, scale) == SweepFrom(physics, Bodies[i := advanced], i + 1, scale);
        if !obj.IsStationary {
          var newVelocity := CalculateNextLocation(obj);
          var moved := obj.(Location := Point(obj.Location.X + newVelocity.X * scale,
                                              obj.Location.Y + newVelocity.Y * scale),
                            VelocityVector := newVelocity);
          MoveUnfold(physics, Bodies, obj, scale, newVelocity);
          Bodies := Bodies[i := moved];
        } else {
          assert Bodies[i := advanced] == Bodies;
        }
        i := i + 1;
      }
      SweepKeepsWellFormed(physics, old(Bodies), scale, currentId);
    }

    /** CollisionCheck: merge, remove, insert and restart until a full pass
        finds no collision. */
    method CollisionCheck()
      requires Valid()
      modifies this
      ensures Valid()
      ensures Store(Bodies, currentId) == CollideFrom(physics.sqrt, old(Store(Bodies, currentId)), 0)
    {
      ghost var target := CollideFrom(physics.sqrt, Store(Bodies, currentId), 0);
      var i := 0;
      while i < |Bodies|
        invariant WellFormed(Bodies, currentId)
        invariant 0 <= i <= |Bodies|
        invariant CollideFrom(physics.sqrt, Store(Bodies, currentId), i) == target
        decreases |Bodies|, |Bodies| - i
      {
        ghost var s0 := Store(Bodies, currentId);
        var newCollidedObjects, updated := GetCollisionSet(Bodies[i], Bodies, physics.sqrt);
        if |newCollidedObjects| == 0 {
          Bodies := Bodies[i := updated];
          QuietFinish(physics.sqrt, s0, i, Bodies);
        } else {
          MergeAt(i, newCollidedObjects, updated);
          i := 0;
        }
        i := i + 1;
      }
    }

    /** A look at Bodies[i] that found collisions: the body is written back,
        the set is merged, and the check goes on from index 1. */
    method MergeAt(i: nat, collided: seq<OrbitalBody>, updated: OrbitalBody)
      requires Valid() && i < |Bodies|
      requires collided == CollisionSet(Bodies[i], Bodies, physics.sqrt) != []
      requires updated == Rescan(Bodies[i], Bodies, physics.sqrt)
      modifies this
      ensures Valid() && 0 < |Bodies| < old(|Bodies|)
      ensures CollideFrom(physics.sqrt, Store(Bodies, currentId), 1)
        == CollideFrom(physics.sqrt, old(Store(Bodies, currentId)), i)
    {
      ghost var s0 := Store(Bodies, currentId);
      MergeStep(physics.sqrt, s0, i);
      Bodies := Bodies[i := updated];
      MergeCollided(collided);
      MergeFinish(physics.sqrt, s0, i, Bodies, currentId);
    }

    /** The merge of CollisionCheck: the collided bodies become one body
        under the next ID, which replaces them in the set. */
    method MergeCollided(collided: seq<OrbitalBody>)
      requires Valid()
      requires MergeReady(collided)
      modifies this
      ensures Bodies == Absorb(old(Bodies), collided, old(currentId), physics.sqrt)
      ensures currentId == old(currentId) + 1
    {
      ghost var before := Bodies;
      var newObject := Merge(collided, currentId, physics.sqrt);
      currentId := currentId + 1;
      RemoveCollided(collided);
      RemoveIdsIds(before, IdsOf(collided));
      RemoveIdsDistinct(before, IdsOf(collided));
      assert newObject.ID !in IdsOf(before);
      InsertProperties(Bodies, newObject);
      Bodies := Insert(Bodies, newObject);
    }

    /** The removal loop of CollisionCheck: each collided body is removed by
        its hash code (RemoveWhere). */
    method RemoveCollided(collided: seq<OrbitalBody>)
      requires Injective(mix)
      modifies this
      ensures Bodies == RemoveIds(old(Bodies), IdsOf(collided))
      ensures currentId == old(currentId)
    {
      RemoveNoIds(Bodies);
      assert collided[..0] == [];
      assert IdsOf(collided[..0]) == {};
      var j := 0;
      while j < |collided|
        invariant 0 <= j <= |collided|
        invariant currentId == old(currentId)
        invariant Bodies == RemoveIds(old(Bodies), IdsOf(collided[..j]))
      {
        var obj := collided[j];
        RemoveHashIsRemoveId(old(Bodies), IdsOf(collided[..j]), obj.ID, mix);
        Bodies := RemoveHash(Bodies, HashCode(obj, mix), mix);
        assert collided[..j + 1] == collided[..j] + [obj];
        IdsOfAppend(collided[..j], obj);
        j := j + 1;
      }
      assert collided[..j] == collided;
    }

    /** Update(tickMultiplier). */
    method Update(tickMultiplier: real)
      requires Valid()
      modifies this
      ensures Valid()
      ensures Store(Bodies, currentId) == Tick(physics, old(Store(Bodies, currentId)), tickMultiplier)
    {
      ghost var s0 := Store(Bodies, currentId);
      TickCases(physics, s0, tickMultiplier);
      if |Bodies| == 0 {
        return;
      }
      if tickMultiplier <= 1.0 {
        Pass(tickMultiplier);
      } else {
        var n := Truncate(tickMultiplier);
        var i := 0;
        while i < n
          invariant 0 <= i <= n
          invariant Valid()
          invariant Store(Bodies, currentId) == Steps(physics, s0, i)
        {
          StepsNext(physics, s0, i);
          Pass(1.0);
          i := i + 1;
        }
      }
    }

    /** One pass of the body of Update: UpdateLocations(scale) followed by
        CollisionCheck. */
    method Pass(scale: real)
      requires Valid()
      modifies this
      ensures Valid()
      ensures Store(Bodies, currentId) == SubStep(physics, old(Store(Bodies, currentId)), scale)
    {
      ghost var s0 := Store(Bodies, currentId);
      UpdateLocations(scale);
      ghost var s1 := Store(Bodies, currentId);
      assert s1 == Store(Sweep(physics, s0.bodies, scale), s0.nextId);
      CollisionCheck();
    }

    /**
     * PredictPath: runs a copy of `body` forward against the current bodies,
     * which it does not change, and records every hundredth position, until the
     * path is `maxPathLength` long or `maxPathPoints` points are recorded.
     */
    method PredictPath(body: OrbitalBody, maxPathPoints: int, maxPathLength: real) returns (returnPoints: seq<Point>)
      ensures maxPathPoints <= 0 || maxPathLength <= 0.0 ==> returnPoints == []
      ensures returnPoints == [] || |returnPoints| <= maxPathPoints
      ensures forall k :: 0 <= k < |returnPoints| ==>
        returnPoints[k] == Probe(physics, Bodies, body, 100 * k + 1).Location
      ensures exists n: nat ::
        && returnPoints == Samples(physics, Bodies, body, n)
        && !Running(physics, Bodies, body, maxPathPoints, maxPathLength, n)
        && RunningBefore(physics, Bodies, body, maxPathPoints, maxPathLength, n)
    {
      ghost var bodies := Bodies;
      returnPoints := [];
      var tempObject := Copy(body);
      var currentLength := 0.0;
      var current: nat := 0;
      while currentLength < maxPathLength && |returnPoints| < maxPathPoints
        invariant tempObject == Probe(physics, bodies, body, current)
        invariant currentLength == PathLength(physics, bodies, body, current)
        invariant returnPoints == Samples(physics, bodies, body, current)
        invariant |returnPoints| == (current + 99) / 100
        invariant returnPoints == [] || |returnPoints| <= maxPathPoints
        invariant RunningBefore(physics, bodies, body, maxPathPoints, maxPathLength, current)
        decreases 100 * maxPathPoints - current
      {
        SampleCountBound(current, maxPathPoints);
        assert Running(physics, bodies, body, maxPathPoints, maxPathLength, current);
        RunningExtend(physics, bodies, body, maxPathPoints, maxPathLength, current);
        ghost var previous := tempObject;
        var newVelocity := CalculateNextLocation(tempObject);
        tempObject := tempObject.(Location := Point(tempObject.Location.X + newVelocity.X,
                                                    tempObject.Location.Y + newVelocity.Y),
                                  VelocityVector := newVelocity);
        ProbeStep(physics, bodies, body, current, previous, newVelocity, tempObject);
        currentLength := currentLength + VectorLength(newVelocity, physics.sqrt);
        ghost var sampled := Samples(physics, bodies, body, current + 1);
        if current % 100 == 0 {
          assert Point(tempObject.Location.X, tempObject.Location.Y) == tempObject.Location;
          returnPoints := returnPoints + [Point(tempObject.Location.X, tempObject.Location.Y)];
          assert returnPoints == sampled;
        } else {
          assert returnPoints == sampled;
        }
        current := current + 1;
        SamplesShape(physics, bodies, body, current);
      }
      SamplesShape(physics, bodies, body, current);
      assert !Running(physics, bodies, body, maxPathPoints, maxPathLength, current);
      if current > 0 {
        assert Running(physics, bodies, body, maxPathPoints, maxPathLength, 0);
      }
    }
  }
}

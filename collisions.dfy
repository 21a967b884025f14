/**
 * Collisions: the collision set of one body (GetCollisionSet), the noclip
 * rule, and the collision check that merges colliding bodies until none are
 * left (CollisionCheck).
 */
module Collisions {
  import opened Numerics
  import opened PointHelper
  import opened Models
  import opened BodySet

  // ---------------------------------------------------------------------------
  // The overlap test
  // ---------------------------------------------------------------------------

  /** The test of GetCollisionSet: the centres are at most the sum of the radii
      apart, so circles that just touch overlap. */
  predicate Overlaps(other: OrbitalBody, body: OrbitalBody, sqrt: real -> real) {
    Distance(other.Location, body.Location, sqrt) <= other.Radius + body.Radius
  }

  /** The test on squared quantities, without a square root. */
  lemma OverlapsSquared(other: OrbitalBody, body: OrbitalBody, sqrt: real -> real)
    requires IsSqrt(sqrt)
    ensures Overlaps(other, body, sqrt) <==>
      0.0 <= other.Radius + body.Radius
      && DistanceSquared(other.Location, body.Location) <= (other.Radius + body.Radius) * (other.Radius + body.Radius)
  {
    DistanceAtMost(other.Location, body.Location, other.Radius + body.Radius, sqrt);
  }

  /** Circles whose centres are exactly the sum of their radii apart overlap. */
  lemma TouchingCirclesOverlap(other: OrbitalBody, body: OrbitalBody, sqrt: real -> real)
    requires IsSqrt(sqrt)
    requires 0.0 <= other.Radius + body.Radius
    requires DistanceSquared(other.Location, body.Location) == (other.Radius + body.Radius) * (other.Radius + body.Radius)
    ensures Overlaps(other, body, sqrt)
    ensures Distance(other.Location, body.Location, sqrt) == other.Radius + body.Radius
  {
    OverlapsSquared(other, body, sqrt);
    SqrtUnique(sqrt, DistanceSquared(other.Location, body.Location), other.Radius + body.Radius);
  }

  lemma OverlapsSymmetric(a: OrbitalBody, b: OrbitalBody, sqrt: real -> real)
    ensures Overlaps(a, b, sqrt) <==> Overlaps(b, a, sqrt)
  {
    DistanceSymmetric(a.Location, b.Location, sqrt);
  }

  // ---------------------------------------------------------------------------
  // GetCollisionSet
  // ---------------------------------------------------------------------------

  /** `other` joins the collision set of `body`: another body (by ID) that
      overlaps it, neither of the two noclip. */
  predicate Hit(body: OrbitalBody, other: OrbitalBody, sqrt: real -> real) {
    other.ID != body.ID && Overlaps(other, body, sqrt) && !other.IsNoclip && !body.IsNoclip
  }

  /** The IDs of the bodies that hit `body`. */
  function HitIds(body: OrbitalBody, bodies: seq<OrbitalBody>, sqrt: real -> real): set<int> {
    set k | 0 <= k < |bodies| && Hit(body, bodies[k], sqrt) :: bodies[k].ID
  }

  /** The collision set as GetCollisionSet builds it: for each hit in
      enumeration order, add the other body and then `body` (HashSet.Add). */
  function CollisionSet(body: OrbitalBody, bodies: seq<OrbitalBody>, sqrt: real -> real): seq<OrbitalBody> {
    if bodies == [] then []
    else
      var c := CollisionSet(body, bodies[..|bodies| - 1], sqrt);
      var other := bodies[|bodies| - 1];
      if Hit(body, other, sqrt) then Insert(Insert(c, other), body) else c
  }

  /** `body` overlaps some other body, noclip or not. */
  predicate Touching(body: OrbitalBody, bodies: seq<OrbitalBody>, sqrt: real -> real) {
    exists k :: 0 <= k < |bodies| && bodies[k].ID != body.ID && Overlaps(bodies[k], body, sqrt)
  }

  /** `body` after GetCollisionSet: a noclip body keeps the flag only while it
      overlaps another body. */
  function Rescan(body: OrbitalBody, bodies: seq<OrbitalBody>, sqrt: real -> real): OrbitalBody {
    if body.IsNoclip && Touching(body, bodies, sqrt) then body else body.(IsNoclip := false)
  }

  method GetCollisionSet(body: OrbitalBody, bodies: seq<OrbitalBody>, sqrt: real -> real)
    returns (collided: seq<OrbitalBody>, updated: OrbitalBody)
    ensures collided == CollisionSet(body, bodies, sqrt)
    ensures updated == Rescan(body, bodies, sqrt)
  {
    collided := [];
    var isFreeFromCollisions := true;
    var j := 0;
    while j < |bodies|
      invariant 0 <= j <= |bodies|
      invariant collided == CollisionSet(body, bodies[..j], sqrt)
      invariant isFreeFromCollisions == !(body.IsNoclip && Touching(body, bodies[..j], sqrt))
    {
      var other := bodies[j];
      assert bodies[..j + 1][..j] == bodies[..j];
      if other.ID != body.ID {
        if Distance(other.Location, body.Location, sqrt) <= other.Radius + body.Radius {
          if !other.IsNoclip && !body.IsNoclip {
            collided := Insert(collided, other);
            collided := Insert(collided, body);
          } else if body.IsNoclip {
            isFreeFromCollisions := false;
          }
        }
      }
      assert Touching(body, bodies[..j + 1], sqrt) <==>
        Touching(body, bodies[..j], sqrt) || (other.ID != body.ID && Overlaps(other, body, sqrt)) by {
        if Touching(body, bodies[..j + 1], sqrt) {
          var k :| 0 <= k < j + 1 && bodies[..j + 1][k].ID != body.ID && Overlaps(bodies[..j + 1][k], body, sqrt);
          if k < j {
            assert bodies[..j][k] == bodies[k];
          }
        }
        if Touching(body, bodies[..j], sqrt) {
          var k :| 0 <= k < j && bodies[..j][k].ID != body.ID && Overlaps(bodies[..j][k], body, sqrt);
          assert bodies[..j + 1][k] == bodies[k];
        }
        assert bodies[..j + 1][j] == other;
      }
      j := j + 1;
    }
    assert bodies[..j] == bodies;
    if isFreeFromCollisions {
      updated := body.(IsNoclip := false);
    } else {
      updated := body;
    }
  }

  lemma HitIdsSnoc(body: OrbitalBody, bodies: seq<OrbitalBody>, sqrt: real -> real)
    requires bodies != []
    ensures var init, other := bodies[..|bodies| - 1], bodies[|bodies| - 1];
      HitIds(body, bodies, sqrt) == HitIds(body, init, sqrt) + (if Hit(body, other, sqrt) then {other.ID} else {})
  {
    var init, other := bodies[..|bodies| - 1], bodies[|bodies| - 1];
    forall id | id in HitIds(body, bodies, sqrt)
      ensures id in HitIds(body, init, sqrt) + (if Hit(body, other, sqrt) then {other.ID} else {})
    {
      var k :| 0 <= k < |bodies| && Hit(body, bodies[k], sqrt) && bodies[k].ID == id;
      if k < |init| {
        assert init[k] == bodies[k];
      }
    }
    forall id | id in HitIds(body, init, sqrt) ensures id in HitIds(body, bodies, sqrt) {
      var k :| 0 <= k < |init| && Hit(body, init[k], sqrt) && init[k].ID == id;
      assert bodies[k] == init[k];
    }
    if Hit(body, other, sqrt) {
      assert bodies[|bodies| - 1] == other;
    }
  }

  lemma InsertMembers(s: seq<OrbitalBody>, x: OrbitalBody)
    ensures forall m :: m in Insert(s, x) ==> m in s || m == x
  {
  }

  /**
   * The collision set is empty exactly when nothing hits `body`. Otherwise it
   * starts with the first body hit followed by `body`, and holds exactly one
   * body per hit ID plus `body`; all its members are non-noclip and are
   * `body` or bodies that hit it.
   */
  lemma {:induction false} CollisionSetProperties(body: OrbitalBody, bodies: seq<OrbitalBody>, sqrt: real -> real)
    ensures var c := CollisionSet(body, bodies, sqrt);
      && DistinctIds(c)
      && IdsOf(c) == HitIds(body, bodies, sqrt) + (if c == [] then {} else {body.ID})
      && (c == [] <==> HitIds(body, bodies, sqrt) == {})
      && (c != [] ==> |c| >= 2 && c[1] == body && Hit(body, c[0], sqrt))
      && (forall m :: m in c ==> !m.IsNoclip && (m == body || (m in bodies && Hit(body, m, sqrt))))
  {
    CollisionSetIds(body, bodies, sqrt);
    CollisionSetShape(body, bodies, sqrt);
    CollisionSetMembers(body, bodies, sqrt);
  }

  lemma {:induction false} CollisionSetIds(body: OrbitalBody, bodies: seq<OrbitalBody>, sqrt: real -> real)
    ensures var c := CollisionSet(body, bodies, sqrt);
      && DistinctIds(c)
      && IdsOf(c) == HitIds(body, bodies, sqrt) + (if c == [] then {} else {body.ID})
      && (c == [] <==> HitIds(body, bodies, sqrt) == {})
  {
    if bodies != [] {
      var init, other := bodies[..|bodies| - 1], bodies[|bodies| - 1];
      var c0 := CollisionSet(body, init, sqrt);
      CollisionSetIds(body, init, sqrt);
      HitIdsSnoc(body, bodies, sqrt);
      if Hit(body, other, sqrt) {
        IdsStep(c0, other, body, HitIds(body, init, sqrt));
      } else {
        assert CollisionSet(body, bodies, sqrt) == c0;
      }
    }
  }

  lemma IdsStep(c0: seq<OrbitalBody>, other: OrbitalBody, body: OrbitalBody, hits: set<int>)
    requires DistinctIds(c0)
    requires IdsOf(c0) == hits + (if c0 == [] then {} else {body.ID})
    ensures var c := Insert(Insert(c0, other), body);
      && DistinctIds(c)
      && IdsOf(c) == (hits + {other.ID}) + {body.ID}
      && c != []
  {
    var c1 := Insert(c0, other);
    InsertProperties(c0, other);
    InsertProperties(c1, body);
    var c := Insert(c1, body);
    assert other.ID in IdsOf(c);
  }

  lemma {:induction false} CollisionSetShape(body: OrbitalBody, bodies: seq<OrbitalBody>, sqrt: real -> real)
    ensures var c := CollisionSet(body, bodies, sqrt);
      c != [] ==> |c| >= 2 && c[1] == body && Hit(body, c[0], sqrt)
  {
    if bodies != [] {
      var init, other := bodies[..|bodies| - 1], bodies[|bodies| - 1];
      var c0 := CollisionSet(body, init, sqrt);
      CollisionSetShape(body, init, sqrt);
      if Hit(body, other, sqrt) {
        ShapeStep(c0, other, body, sqrt);
      }
    }
  }

  lemma ShapeStep(c0: seq<OrbitalBody>, other: OrbitalBody, body: OrbitalBody, sqrt: real -> real)
    requires Hit(body, other, sqrt)
    requires c0 != [] ==> |c0| >= 2 && c0[1] == body && Hit(body, c0[0], sqrt)
    ensures var c := Insert(Insert(c0, other), body);
      |c| >= 2 && c[1] == body && Hit(body, c[0], sqrt)
  {
    var c1 := Insert(c0, other);
    if c0 == [] {
      assert c1 == [other];
      assert forall k :: 0 <= k < |c1| ==> c1[k].ID != body.ID;
    } else {
      var c := Insert(c1, body);
      assert c[0] == c1[0] == c0[0];
      assert c[1] == c1[1] == c0[1];
    }
  }

  lemma {:induction false} CollisionSetMembers(body: OrbitalBody, bodies: seq<OrbitalBody>, sqrt: real -> real)
    ensures forall m :: m in CollisionSet(body, bodies, sqrt) ==>
      !m.IsNoclip && (m == body || (m in bodies && Hit(body, m, sqrt)))
  {
    if bodies != [] {
      var init, other := bodies[..|bodies| - 1], bodies[|bodies| - 1];
      var c0 := CollisionSet(body, init, sqrt);
      CollisionSetMembers(body, init, sqrt);
      assert forall m :: m in init ==> m in bodies;
      if Hit(body, other, sqrt) {
        InsertMembers(c0, other);
        InsertMembers(Insert(c0, other), body);
        assert other in bodies;
      }
    }
  }

  /** Nothing hits `body` exactly when its collision set is empty. */
  lemma EmptyCollisionSet(body: OrbitalBody, bodies: seq<OrbitalBody>, sqrt: real -> real)
    ensures CollisionSet(body, bodies, sqrt) == [] <==> forall k :: 0 <= k < |bodies| ==> !Hit(body, bodies[k], sqrt)
  {
    CollisionSetProperties(body, bodies, sqrt);
    if exists k :: 0 <= k < |bodies| && Hit(body, bodies[k], sqrt) {
      var k :| 0 <= k < |bodies| && Hit(body, bodies[k], sqrt);
      assert bodies[k].ID in HitIds(body, bodies, sqrt);
    }
  }

  /** Every body that hits `body` is in its collision set (given distinct IDs). */
  lemma HitsAreCollected(body: OrbitalBody, bodies: seq<OrbitalBody>, sqrt: real -> real, k: int)
    requires DistinctIds(bodies)
    requires 0 <= k < |bodies| && Hit(body, bodies[k], sqrt)
    ensures bodies[k] in CollisionSet(body, bodies, sqrt)
  {
    var c := CollisionSet(body, bodies, sqrt);
    CollisionSetProperties(body, bodies, sqrt);
    assert bodies[k].ID in HitIds(body, bodies, sqrt);
    assert bodies[k].ID in IdsOf(c);
    var j :| 0 <= j < |c| && c[j].ID == bodies[k].ID;
    assert c[j] in c;
    var l :| 0 <= l < |bodies| && bodies[l] == c[j];
    assert l == k;
  }

  /** A noclip body loses the flag exactly when it overlaps no other body;
      so a body whose flag is cleared overlaps no other body, and GetCollisionSet
      touches nothing but the flag. A body with a non-empty collision set keeps
      its state. */
  lemma RescanProperties(body: OrbitalBody, bodies: seq<OrbitalBody>, sqrt: real -> real)
    ensures Rescan(body, bodies, sqrt) == body.(IsNoclip := Rescan(body, bodies, sqrt).IsNoclip)
    ensures Rescan(body, bodies, sqrt).IsNoclip ==> body.IsNoclip
    ensures body.IsNoclip && !Rescan(body, bodies, sqrt).IsNoclip ==>
      forall k :: 0 <= k < |bodies| && bodies[k].ID != body.ID ==> !Overlaps(bodies[k], body, sqrt)
    ensures body.IsNoclip && Rescan(body, bodies, sqrt).IsNoclip ==>
      exists k :: 0 <= k < |bodies| && bodies[k].ID != body.ID && Overlaps(bodies[k], body, sqrt)
    ensures CollisionSet(body, bodies, sqrt) != [] ==> Rescan(body, bodies, sqrt) == body
  {
    CollisionSetProperties(body, bodies, sqrt);
    if CollisionSet(body, bodies, sqrt) != [] {
      var c := CollisionSet(body, bodies, sqrt);
      assert c[1] in c;
    }
  }

  // ---------------------------------------------------------------------------
  // One merge of CollisionCheck
  // ---------------------------------------------------------------------------

  /** The collision set's IDs are removed from the store and the new body,
      merged from the set under the ID `next`, is added. */
  function Absorb(bodies: seq<OrbitalBody>, c: seq<OrbitalBody>, next: int, sqrt: real -> real): seq<OrbitalBody>
    requires MergeReady(c)
  {
    RemoveIds(bodies, IdsOf(c)) + [Merge(c, next, sqrt)]
  }

  /** What a collision set drawn from a well-formed store satisfies. */
  ghost predicate Collected(bodies: seq<OrbitalBody>, c: seq<OrbitalBody>) {
    |c| >= 2 && DistinctIds(c) && forall m :: m in c ==> m in bodies
  }

  lemma CollectedIsMergeReady(bodies: seq<OrbitalBody>, c: seq<OrbitalBody>, next: int)
    requires WellFormed(bodies, next) && Collected(bodies, c)
    ensures MergeReady(c)
  {
    forall k | 0 <= k < |c| ensures c[k].KgMass > 0.0 {
      assert c[k] in c;
    }
    SumPositive(c);
  }

  /**
   * A merge replaces exactly the collided bodies by one body with the fresh ID
   * `next`: the store stays well formed for the counter `next + 1`, it shrinks
   * by |c| - 1 >= 1 bodies, and its IDs are the old ones without the
   * collided ones, plus `next`.
   */
  lemma AbsorbProperties(bodies: seq<OrbitalBody>, c: seq<OrbitalBody>, next: int, sqrt: real -> real)
    requires WellFormed(bodies, next) && Collected(bodies, c)
    ensures MergeReady(c)
    ensures WellFormed(Absorb(bodies, c, next, sqrt), next + 1)
    ensures |Absorb(bodies, c, next, sqrt)| == |bodies| - |c| + 1 < |bodies|
    ensures IdsOf(Absorb(bodies, c, next, sqrt)) == (IdsOf(bodies) - IdsOf(c)) + {next}
  {
    CollectedIsMergeReady(bodies, c, next);
    var kept := RemoveIds(bodies, IdsOf(c));
    var m := Merge(c, next, sqrt);
    RemoveIdsMembers(bodies, IdsOf(c));
    RemoveIdsDistinct(bodies, IdsOf(c));
    RemoveIdsIds(bodies, IdsOf(c));
    KeepIdsOfSubset(bodies, c);
    assert next !in IdsOf(bodies);
    InsertProperties(kept, m);
    var r := kept + [m];
    forall k | 0 <= k < |r| ensures 0 <= r[k].ID < next + 1 && r[k].KgMass > 0.0 {
      if k < |kept| {
        assert kept[k] in bodies;
      }
    }
  }

  /** A quantity that merges add up and that the noclip flag does not affect. */
  ghost predicate Additive(sqrt: real -> real, f: OrbitalBody -> real) {
    && (forall c: seq<OrbitalBody>, id: int :: MergeReady(c) ==> f(Merge(c, id, sqrt)) == Sum(c, f))
    && (forall b: OrbitalBody, flag: bool :: f(b.(IsNoclip := flag)) == f(b))
  }

  /** Mass, momentum, mass moment and squared radius are additive. */
  lemma AdditiveQuantities(sqrt: real -> real)
    requires IsSqrt(sqrt)
    ensures Additive(sqrt, Mass)
    ensures Additive(sqrt, MomentumX) && Additive(sqrt, MomentumY)
    ensures Additive(sqrt, MomentX) && Additive(sqrt, MomentY)
    ensures Additive(sqrt, RadiusSquared) && Additive(sqrt, Area)
  {
    AdditiveMomentum(sqrt);
    AdditiveMoment(sqrt);
    AdditiveArea(sqrt);
  }

  lemma AdditiveMomentum(sqrt: real -> real)
    ensures Additive(sqrt, MomentumX) && Additive(sqrt, MomentumY)
  {
    forall c: seq<OrbitalBody>, id: int | MergeReady(c)
      ensures MomentumX(Merge(c, id, sqrt)) == Sum(c, MomentumX)
      ensures MomentumY(Merge(c, id, sqrt)) == Sum(c, MomentumY)
    {
      MergeConservesMomentum(c, id, sqrt);
    }
  }

  lemma AdditiveMoment(sqrt: real -> real)
    ensures Additive(sqrt, MomentX) && Additive(sqrt, MomentY)
  {
    forall c: seq<OrbitalBody>, id: int | MergeReady(c)
      ensures MomentX(Merge(c, id, sqrt)) == Sum(c, MomentX)
      ensures MomentY(Merge(c, id, sqrt)) == Sum(c, MomentY)
    {
      MergeAtCentreOfMass(c, id, sqrt);
    }
  }

  lemma AdditiveArea(sqrt: real -> real)
    requires IsSqrt(sqrt)
    ensures Additive(sqrt, RadiusSquared) && Additive(sqrt, Area)
  {
    forall c: seq<OrbitalBody>, id: int | MergeReady(c)
      ensures RadiusSquared(Merge(c, id, sqrt)) == Sum(c, RadiusSquared)
      ensures Area(Merge(c, id, sqrt)) == Sum(c, Area)
    {
      MergeConservesArea(c, id, sqrt);
    }
  }

  /** A merge leaves every additive total of the store unchanged. */
  lemma AbsorbConserves(bodies: seq<OrbitalBody>, c: seq<OrbitalBody>, next: int, sqrt: real -> real, f: OrbitalBody -> real)
    requires WellFormed(bodies, next) && Collected(bodies, c)
    requires Additive(sqrt, f)
    ensures MergeReady(c)
    ensures Sum(Absorb(bodies, c, next, sqrt), f) == Sum(bodies, f)
  {
    CollectedIsMergeReady(bodies, c, next);
    var kept := RemoveIds(bodies, IdsOf(c));
    var m := Merge(c, next, sqrt);
    SumAppend(kept, [m], f);
    assert Sum([m], f) == f(m) by {
      assert [m][1..] == [];
    }
    KeepIdsOfSubset(bodies, c);
    SumPermutation(KeepIds(bodies, IdsOf(c)), c, f);
    SumSplit(bodies, IdsOf(c), f);
  }

  // ---------------------------------------------------------------------------
  // CollisionCheck
  // ---------------------------------------------------------------------------

  /** Two bodies that CollisionCheck would merge: both non-noclip and overlapping. */
  predicate Clash(a: OrbitalBody, b: OrbitalBody, sqrt: real -> real) {
    !a.IsNoclip && !b.IsNoclip && Overlaps(a, b, sqrt)
  }

  /** No two distinct bodies of the store (by position) clash. */
  predicate Calm(bodies: seq<OrbitalBody>, sqrt: real -> real) {
    forall j, k {:trigger Clash(bodies[j], bodies[k], sqrt)} ::
      0 <= j < |bodies| && 0 <= k < |bodies| && j != k ==> !Clash(bodies[j], bodies[k], sqrt)
  }

  /** No two of the bodies before index i clash. */
  predicate Settled(bodies: seq<OrbitalBody>, i: int, sqrt: real -> real) {
    forall j, k {:trigger Clash(bodies[j], bodies[k], sqrt)} ::
      0 <= j < k < i && k < |bodies| ==> !Clash(bodies[j], bodies[k], sqrt)
  }

  /**
   * The loop of CollisionCheck from index i on. The body at i is looked at: its
   * collision set is computed and its noclip flag rescanned; if the set is
   * empty the loop goes on at i + 1; if not, the set is merged under the next
   * ID and the loop restarts at index 1 (`i = 0` followed by the loop's `i++`).
   */
  function CollideFrom(sqrt: real -> real, s: Store, i: nat): (r: Store)
    requires WellFormed(s.bodies, s.nextId)
    ensures WellFormed(r.bodies, r.nextId) && s.nextId <= r.nextId
    decreases |s.bodies|, |s.bodies| - i
  {
    var bodies := s.bodies;
    if i >= |bodies| then s
    else
      if CollisionSet(bodies[i], bodies, sqrt) == [] then CollideFrom(sqrt, Quieted(sqrt, s, i), i + 1)
      else CollideFrom(sqrt, Merged(sqrt, s, i), 1)
  }

  /** The store after the body at i, which collides with nothing, has its
      noclip flag rescanned. */
  function Quieted(sqrt: real -> real, s: Store, i: nat): (r: Store)
    requires WellFormed(s.bodies, s.nextId) && i < |s.bodies|
    ensures WellFormed(r.bodies, r.nextId) && r.nextId == s.nextId && |r.bodies| == |s.bodies|
  {
    RescanKeepsWellFormed(s.bodies, i, s.nextId, sqrt);
    Store(s.bodies[i := Rescan(s.bodies[i], s.bodies, sqrt)], s.nextId)
  }

  /** The store after the merge of the collision set of the body at i, drawn
      from the store itself: the rescan of a body that collides leaves the
      store as it was (SetCollected). */
  function Merged(sqrt: real -> real, s: Store, i: nat): (r: Store)
    requires WellFormed(s.bodies, s.nextId) && i < |s.bodies|
    requires CollisionSet(s.bodies[i], s.bodies, sqrt) != []
    ensures WellFormed(r.bodies, r.nextId) && r.nextId == s.nextId + 1 && 0 < |r.bodies| < |s.bodies|
  {
    var c := CollisionSet(s.bodies[i], s.bodies, sqrt);
    SetCollected(s.bodies, i, s.nextId, sqrt);
    AbsorbProperties(s.bodies, c, s.nextId, sqrt);
    Store(Absorb(s.bodies, c, s.nextId, sqrt), s.nextId + 1)
  }

  lemma RescanKeepsWellFormed(bodies: seq<OrbitalBody>, i: int, next: int, sqrt: real -> real)
    requires WellFormed(bodies, next) && 0 <= i < |bodies|
    ensures WellFormed(bodies[i := Rescan(bodies[i], bodies, sqrt)], next)
  {
    RescanProperties(bodies[i], bodies, sqrt);
  }

  /** The collision set of a body of a well-formed store is collected from it;
      when it is not empty the body's rescan changes nothing. */
  lemma SetCollected(bodies: seq<OrbitalBody>, i: int, next: int, sqrt: real -> real)
    requires WellFormed(bodies, next) && 0 <= i < |bodies|
    requires CollisionSet(bodies[i], bodies, sqrt) != []
    ensures Collected(bodies, CollisionSet(bodies[i], bodies, sqrt))
    ensures bodies[i := Rescan(bodies[i], bodies, sqrt)] == bodies
  {
    var c := CollisionSet(bodies[i], bodies, sqrt);
    CollisionSetProperties(bodies[i], bodies, sqrt);
    RescanProperties(bodies[i], bodies, sqrt);
    forall m | m in c ensures m in bodies {
    }
  }

  /** A look at a body whose collision set is empty rescans it and moves on. */
  lemma CollideFromQuiet(sqrt: real -> real, s: Store, i: nat)
    requires WellFormed(s.bodies, s.nextId) && i < |s.bodies|
    requires CollisionSet(s.bodies[i], s.bodies, sqrt) == []
    ensures Quieted(sqrt, s, i) == Store(s.bodies[i := Rescan(s.bodies[i], s.bodies, sqrt)], s.nextId)
    ensures CollideFrom(sqrt, s, i) == CollideFrom(sqrt, Quieted(sqrt, s, i), i + 1)
  {
  }

  /** A look at a body whose collision set is not empty merges the set under
      the next ID and restarts at index 1. */
  lemma CollideFromMerge(sqrt: real -> real, s: Store, i: nat)
    requires WellFormed(s.bodies, s.nextId) && i < |s.bodies|
    requires CollisionSet(s.bodies[i], s.bodies, sqrt) != []
    ensures CollideFrom(sqrt, s, i) == CollideFrom(sqrt, Merged(sqrt, s, i), 1)
  {
  }

  /** The merged store is drawn from the collision set, which is ready to merge. */
  lemma MergedIsAbsorb(sqrt: real -> real, s: Store, i: nat)
    requires WellFormed(s.bodies, s.nextId) && i < |s.bodies|
    requires CollisionSet(s.bodies[i], s.bodies, sqrt) != []
    ensures MergeReady(CollisionSet(s.bodies[i], s.bodies, sqrt))
    ensures Merged(sqrt, s, i) ==
      Store(Absorb(s.bodies, CollisionSet(s.bodies[i], s.bodies, sqrt), s.nextId, sqrt), s.nextId + 1)
  {
    var c := CollisionSet(s.bodies[i], s.bodies, sqrt);
    SetCollected(s.bodies, i, s.nextId, sqrt);
    CollectedIsMergeReady(s.bodies, c, s.nextId);
  }

  /** A look at a body whose collision set is not empty, with what the caller
      needs to know about it. */
  lemma MergeStep(sqrt: real -> real, s: Store, i: nat)
    requires WellFormed(s.bodies, s.nextId) && i < |s.bodies|
    requires CollisionSet(s.bodies[i], s.bodies, sqrt) != []
    ensures s.bodies[i := Rescan(s.bodies[i], s.bodies, sqrt)] == s.bodies
    ensures MergeReady(CollisionSet(s.bodies[i], s.bodies, sqrt))
    ensures Merged(sqrt, s, i) ==
      Store(Absorb(s.bodies, CollisionSet(s.bodies[i], s.bodies, sqrt), s.nextId, sqrt), s.nextId + 1)
    ensures CollideFrom(sqrt, s, i) == CollideFrom(sqrt, Merged(sqrt, s, i), 1)
  {
    var c := CollisionSet(s.bodies[i], s.bodies, sqrt);
    SetCollected(s.bodies, i, s.nextId, sqrt);
    CollectedIsMergeReady(s.bodies, c, s.nextId);
    CollideFromMerge(sqrt, s, i);
  }

  /** The collision check from index 0 (or after a restart, from index 1). */
  function Collide(sqrt: real -> real, s: Store): Store
    requires WellFormed(s.bodies, s.nextId)
  {
    CollideFrom(sqrt, s, 0)
  }

  lemma {:induction false} CollideFromCalm(sqrt: real -> real, s: Store, i: nat)
    requires WellFormed(s.bodies, s.nextId)
    requires Settled(s.bodies, i, sqrt)
    ensures Settled(CollideFrom(sqrt, s, i).bodies, |CollideFrom(sqrt, s, i).bodies|, sqrt)
    decreases |s.bodies|, |s.bodies| - i
  {
    if i < |s.bodies| {
      var c := CollisionSet(s.bodies[i], s.bodies, sqrt);
      if c == [] {
        QuietSettles(sqrt, s, i);
        CollideFromCalm(sqrt, Quieted(sqrt, s, i), i + 1);
        SettledTransfer(CollideFrom(sqrt, s, i), CollideFrom(sqrt, Quieted(sqrt, s, i), i + 1), sqrt);
      } else {
        var t := Merged(sqrt, s, i);
        CollideFromMerge(sqrt, s, i);
        CollideFromCalm(sqrt, t, 1);
        SettledTransfer(CollideFrom(sqrt, s, i), CollideFrom(sqrt, t, 1), sqrt);
      }
    } else {
      SettledToEnd(s.bodies, i, sqrt);
    }
  }

  lemma QuietSettles(sqrt: real -> real, s: Store, i: nat)
    requires WellFormed(s.bodies, s.nextId) && i < |s.bodies|
    requires Settled(s.bodies, i, sqrt)
    requires CollisionSet(s.bodies[i], s.bodies, sqrt) == []
    ensures Settled(Quieted(sqrt, s, i).bodies, i + 1, sqrt)
    ensures CollideFrom(sqrt, s, i) == CollideFrom(sqrt, Quieted(sqrt, s, i), i + 1)
  {
    CollideFromQuiet(sqrt, s, i);
    RescanSettles(s.bodies, i, s.nextId, sqrt);
  }

  lemma SettledTransfer(a: Store, b: Store, sqrt: real -> real)
    requires a == b && Settled(b.bodies, |b.bodies|, sqrt)
    ensures Settled(a.bodies, |a.bodies|, sqrt)
  {
  }

  lemma SettledToEnd(bodies: seq<OrbitalBody>, i: int, sqrt: real -> real)
    requires Settled(bodies, i, sqrt) && |bodies| <= i
    ensures Settled(bodies, |bodies|, sqrt)
  {
  }

  /** A body with an empty collision set, once rescanned, clashes with none of
      the bodies before it. */
  lemma RescanSettles(bodies: seq<OrbitalBody>, i: int, next: int, sqrt: real -> real)
    requires WellFormed(bodies, next) && 0 <= i < |bodies|
    requires Settled(bodies, i, sqrt)
    requires CollisionSet(bodies[i], bodies, sqrt) == []
    ensures Settled(bodies[i := Rescan(bodies[i], bodies, sqrt)], i + 1, sqrt)
  {
    var seed := bodies[i];
    var r := bodies[i := Rescan(seed, bodies, sqrt)];
    EmptyCollisionSet(seed, bodies, sqrt);
    RescanProperties(seed, bodies, sqrt);
    forall j, k | 0 <= j < k < i + 1 && k < |r| ensures !Clash(r[j], r[k], sqrt) {
      if k == i {
        assert bodies[j].ID != seed.ID;
        assert !Hit(seed, bodies[j], sqrt);
      }
    }
  }

  /**
   * On return from CollisionCheck no two distinct bodies that are both
   * non-noclip overlap.
   */
  lemma CollisionCheckCalm(sqrt: real -> real, s: Store)
    requires WellFormed(s.bodies, s.nextId)
    ensures Calm(Collide(sqrt, s).bodies, sqrt)
  {
    CollideFromCalm(sqrt, s, 0);
    var r := Collide(sqrt, s).bodies;
    forall j, k | 0 <= j < |r| && 0 <= k < |r| && j != k ensures !Clash(r[j], r[k], sqrt) {
      if k < j {
        assert !Clash(r[k], r[j], sqrt);
        OverlapsSymmetric(r[j], r[k], sqrt);
      }
    }
  }

  lemma {:induction false} CollideFromConserves(sqrt: real -> real, s: Store, i: nat, f: OrbitalBody -> real)
    requires WellFormed(s.bodies, s.nextId)
    requires Additive(sqrt, f)
    ensures Sum(CollideFrom(sqrt, s, i).bodies, f) == Sum(s.bodies, f)
    decreases |s.bodies|, |s.bodies| - i
  {
    if i < |s.bodies| {
      var c := CollisionSet(s.bodies[i], s.bodies, sqrt);
      if c == [] {
        var t := Quieted(sqrt, s, i);
        CollideFromQuiet(sqrt, s, i);
        RescanConserves(s.bodies, i, sqrt, f);
        CollideFromConserves(sqrt, t, i + 1, f);
      } else {
        MergeStep(sqrt, s, i);
        SetCollected(s.bodies, i, s.nextId, sqrt);
        var t := Merged(sqrt, s, i);
        AbsorbConserves(s.bodies, c, s.nextId, sqrt, f);
        CollideFromConserves(sqrt, t, 1, f);
      }
    }
  }

  /** Rescanning a body's noclip flag changes no additive quantity. */
  lemma RescanConserves(bodies: seq<OrbitalBody>, i: int, sqrt: real -> real, f: OrbitalBody -> real)
    requires 0 <= i < |bodies|
    requires Additive(sqrt, f)
    ensures Sum(bodies[i := Rescan(bodies[i], bodies, sqrt)], f) == Sum(bodies, f)
  {
    var rescanned := bodies[i := Rescan(bodies[i], bodies, sqrt)];
    RescanProperties(bodies[i], bodies, sqrt);
    assert f(rescanned[i]) == f(bodies[i]);
    SumPointwise(rescanned, bodies, f);
  }

  /** CollisionCheck keeps the total mass, momentum, mass moment (so the centre
      of mass) and the total area of the store. */
  lemma CollisionCheckConserves(sqrt: real -> real, s: Store)
    requires IsSqrt(sqrt)
    requires WellFormed(s.bodies, s.nextId)
    ensures Sum(Collide(sqrt, s).bodies, Mass) == Sum(s.bodies, Mass)
    ensures Sum(Collide(sqrt, s).bodies, MomentumX) == Sum(s.bodies, MomentumX)
    ensures Sum(Collide(sqrt, s).bodies, MomentumY) == Sum(s.bodies, MomentumY)
    ensures Sum(Collide(sqrt, s).bodies, MomentX) == Sum(s.bodies, MomentX)
    ensures Sum(Collide(sqrt, s).bodies, MomentY) == Sum(s.bodies, MomentY)
    ensures Sum(Collide(sqrt, s).bodies, Area) == Sum(s.bodies, Area)
  {
    AdditiveQuantities(sqrt);
    CollideFromConserves(sqrt, s, 0, Mass);
    CollideFromConserves(sqrt, s, 0, MomentumX);
    CollideFromConserves(sqrt, s, 0, MomentumY);
    CollideFromConserves(sqrt, s, 0, MomentX);
    CollideFromConserves(sqrt, s, 0, MomentY);
    CollideFromConserves(sqrt, s, 0, Area);
  }

  /** `b` with its noclip flag cleared. */
  function Unflagged(b: OrbitalBody): OrbitalBody {
    b.(IsNoclip := false)
  }

  /** The bodies of `s` with their noclip flags cleared. */
  function UnflaggedSet(s: seq<OrbitalBody>): set<OrbitalBody> {
    set k | 0 <= k < |s| :: Unflagged(s[k])
  }

  /** Membership of `b` in UnflaggedSet(s): `b` is a body of `s` up to its noclip flag. */
  lemma UnflaggedMember(b: OrbitalBody, s: seq<OrbitalBody>)
    ensures Unflagged(b) in UnflaggedSet(s) <==>
      exists k :: 0 <= k < |s| && b == s[k].(IsNoclip := b.IsNoclip)
  {
    if Unflagged(b) in UnflaggedSet(s) {
      var k :| 0 <= k < |s| && Unflagged(s[k]) == Unflagged(b);
      assert b == s[k].(IsNoclip := b.IsNoclip);
    }
    if exists k :: 0 <= k < |s| && b == s[k].(IsNoclip := b.IsNoclip) {
      var k :| 0 <= k < |s| && b == s[k].(IsNoclip := b.IsNoclip);
      assert Unflagged(s[k]) == Unflagged(b);
    }
  }

  /** A body of the result either was among the bodies `known` before, changed
      at most in its noclip flag, or was made by a merge and has an ID in
      [lo, hi). */
  ghost predicate Traceable(b: OrbitalBody, known: set<OrbitalBody>, lo: int, hi: int) {
    (lo <= b.ID < hi) || Unflagged(b) in known
  }

  ghost predicate AllTraceable(bodies: seq<OrbitalBody>, known: set<OrbitalBody>, lo: int, hi: int) {
    forall k {:trigger Traceable(bodies[k], known, lo, hi)} ::
      0 <= k < |bodies| ==> Traceable(bodies[k], known, lo, hi)
  }

  lemma {:induction false} CollideFromTraceable(sqrt: real -> real, s: Store, i: nat, known: set<OrbitalBody>, lo: int)
    requires WellFormed(s.bodies, s.nextId)
    requires AllTraceable(s.bodies, known, lo, s.nextId)
    requires lo <= s.nextId
    ensures AllTraceable(CollideFrom(sqrt, s, i).bodies, known, lo, CollideFrom(sqrt, s, i).nextId)
    decreases |s.bodies|, |s.bodies| - i
  {
    if i < |s.bodies| {
      var c := CollisionSet(s.bodies[i], s.bodies, sqrt);
      if c == [] {
        var t := Quieted(sqrt, s, i);
        QuietTraceable(sqrt, s, i, known, lo);
        CollideFromTraceable(sqrt, t, i + 1, known, lo);
        TraceableTransfer(CollideFrom(sqrt, s, i), CollideFrom(sqrt, t, i + 1), known, lo);
      } else {
        var t := Merged(sqrt, s, i);
        MergedTraceable(sqrt, s, i, known, lo);
        CollideFromMerge(sqrt, s, i);
        CollideFromTraceable(sqrt, t, 1, known, lo);
        TraceableTransfer(CollideFrom(sqrt, s, i), CollideFrom(sqrt, t, 1), known, lo);
      }
    } else {
      assert CollideFrom(sqrt, s, i) == s;
    }
  }

  lemma QuietTraceable(sqrt: real -> real, s: Store, i: nat, known: set<OrbitalBody>, lo: int)
    requires WellFormed(s.bodies, s.nextId) && i < |s.bodies|
    requires CollisionSet(s.bodies[i], s.bodies, sqrt) == []
    requires AllTraceable(s.bodies, known, lo, s.nextId)
    ensures AllTraceable(Quieted(sqrt, s, i).bodies, known, lo, Quieted(sqrt, s, i).nextId)
    ensures CollideFrom(sqrt, s, i) == CollideFrom(sqrt, Quieted(sqrt, s, i), i + 1)
  {
    CollideFromQuiet(sqrt, s, i);
    RescanTraceable(s.bodies, i, sqrt, known, lo, s.nextId);
  }

  lemma MergedTraceable(sqrt: real -> real, s: Store, i: nat, known: set<OrbitalBody>, lo: int)
    requires WellFormed(s.bodies, s.nextId) && i < |s.bodies|
    requires CollisionSet(s.bodies[i], s.bodies, sqrt) != []
    requires AllTraceable(s.bodies, known, lo, s.nextId) && lo <= s.nextId
    ensures AllTraceable(Merged(sqrt, s, i).bodies, known, lo, Merged(sqrt, s, i).nextId)
  {
    var c := CollisionSet(s.bodies[i], s.bodies, sqrt);
    MergedIsAbsorb(sqrt, s, i);
    AbsorbTraceable(s.bodies, c, s.nextId, sqrt, known, lo);
    TraceableStore(Merged(sqrt, s, i), Absorb(s.bodies, c, s.nextId, sqrt), s.nextId + 1, known, lo);
  }

  lemma TraceableStore(a: Store, bodies: seq<OrbitalBody>, next: int, known: set<OrbitalBody>, lo: int)
    requires a == Store(bodies, next) && AllTraceable(bodies, known, lo, next)
    ensures AllTraceable(a.bodies, known, lo, a.nextId)
  {
  }

  lemma TraceableTransfer(a: Store, b: Store, known: set<OrbitalBody>, lo: int)
    requires a == b && AllTraceable(b.bodies, known, lo, b.nextId)
    ensures AllTraceable(a.bodies, known, lo, a.nextId)
  {
  }

  lemma RescanTraceable(bodies: seq<OrbitalBody>, i: int, sqrt: real -> real, known: set<OrbitalBody>, lo: int, hi: int)
    requires 0 <= i < |bodies|
    requires AllTraceable(bodies, known, lo, hi)
    ensures AllTraceable(bodies[i := Rescan(bodies[i], bodies, sqrt)], known, lo, hi)
  {
    var seed := bodies[i];
    var r := bodies[i := Rescan(seed, bodies, sqrt)];
    RescanProperties(seed, bodies, sqrt);
    assert Traceable(r[i], known, lo, hi) by {
      assert Traceable(seed, known, lo, hi);
      assert Unflagged(r[i]) == Unflagged(seed);
    }
    forall k | 0 <= k < |r| ensures Traceable(r[k], known, lo, hi) {
      if k != i {
        assert r[k] == bodies[k];
      }
    }
  }

  lemma AbsorbTraceable(bodies: seq<OrbitalBody>, c: seq<OrbitalBody>, next: int, sqrt: real -> real,
                        known: set<OrbitalBody>, lo: int)
    requires MergeReady(c) && lo <= next
    requires AllTraceable(bodies, known, lo, next)
    ensures AllTraceable(Absorb(bodies, c, next, sqrt), known, lo, next + 1)
  {
    var a := Absorb(bodies, c, next, sqrt);
    var kept := RemoveIds(bodies, IdsOf(c));
    RemoveIdsMembers(bodies, IdsOf(c));
    forall k | 0 <= k < |a| ensures Traceable(a[k], known, lo, next + 1) {
      if k < |kept| {
        assert a[k] == kept[k];
        assert kept[k] in bodies;
        var j :| 0 <= j < |bodies| && bodies[j] == a[k];
        assert Traceable(bodies[j], known, lo, next);
      } else {
        assert a[k] == Merge(c, next, sqrt);
      }
    }
  }

  /**
   * IDs are never reused: after CollisionCheck every body either was in the
   * store before (only its noclip flag may differ; see UnflaggedMember) or was
   * made by a merge and carries an ID drawn from the counter during this
   * check, so above every ID the store held before.
   */
  lemma CollisionCheckFreshIds(sqrt: real -> real, s: Store)
    requires WellFormed(s.bodies, s.nextId)
    ensures AllTraceable(Collide(sqrt, s).bodies, UnflaggedSet(s.bodies), s.nextId, Collide(sqrt, s).nextId)
  {
    var known := UnflaggedSet(s.bodies);
    forall k | 0 <= k < |s.bodies| ensures Traceable(s.bodies[k], known, s.nextId, s.nextId) {
      assert Unflagged(s.bodies[k]) in known;
    }
    CollideFromTraceable(sqrt, s, 0, known, s.nextId);
  }
}

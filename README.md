# OrbitalSimulation engine in Dafny

This project models the physics engine of OrbitalSimulation, a 2-D
gravity sandbox. The engine, `BasicEngine`, holds a set of circular bodies
and a counter `_currentID` that hands out their IDs. `Update` moves every
non-stationary body under the pull of the others. A collision check then
merges every group of overlapping non-noclip bodies into one new body, and
repeats until no two non-noclip bodies overlap. The model covers:

- the engine and its stepper;
- the merge constructor and the identity rules of `OrbitalBody`;
- the helpers for distances, centroids and circle areas.

Modules, one file each:

| file | module | models |
|---|---|---|
| `numerics.dfy` | `Numerics` | `Point`, the constant π, `double.MaxValue`, and the abstract square root (`IsSqrt`: non-negative, squares back) |
| `point_helper.dfy` | `PointHelper` | `PointHelper.Distance` and `PointHelper.CalculateCentroid` |
| `circle_helper.dfy` | `CircleHelper` | `GetAreaOfRadius` and `GetRadiusFromArea` |
| `orbital_body.dfy` | `Models` | `OrbitalBody`: the copy constructor, ID-only equality and hashing, `IsAnyStationary`/`IsAnyAtmospheric`, and the merge constructor |
| `body_set.dfy` | `BodySet` | the `HashSet<OrbitalBody>`: a sequence with distinct IDs, `Add`, and `RemoveWhere` by hash code |
| `motion.dfy` | `Motion` | `CalculateNextLocation`, the in-place `UpdateLocations` pass, and the probe run by `PredictPath` |
| `collisions.dfy` | `Collisions` | `GetCollisionSet`, and `CollisionCheck` as a function of the store |
| `basic_engine.dfy` | `Engines` | the `BasicEngine` class and `Update` as a function of the store |

The engine is a `class BasicEngine`. Its fields are `Bodies`, a
`seq<OrbitalBody>` in the set's enumeration order, and `currentId`. Its
methods keep the source's loops:

- `GetNearestBody` keeps a running minimum;
- `UpdateLocations` updates the bodies one by one, in place;
- `CollisionCheck` loops with a restart;
- `RemoveCollided` calls `RemoveWhere` once per collided body;
- `PredictPath` runs a `while` loop.

Each method is proved against a function of its inputs: `UpdateLocations`
against `Sweep`, `CollisionCheck` against `CollideFrom`, `Update` against
`Tick`, `PredictPath` against `Samples`, `CalculateNextLocation` against
`NextVelocity`, `GetNearestBody` against the predicate `FirstNearest`, and
`AddNewBody` against an append under the counter. The properties the engine promises are
proved as lemmas about those functions, namely:

- IDs are fresh and never reused;
- no two distinct non-noclip bodies overlap after a collision check;
- `CollisionCheck` conserves mass, momentum, centre of mass and area;
- `Update` conserves mass and area (it does not conserve momentum: the
  location pass overwrites velocities one body at a time);
- `GetCollisionSet` clears the flag of a noclip body that overlaps nothing
  and never sets it;
- the path samples are the ones the source takes.

Bodies are values (`datatype OrbitalBody`). Numbers are Dafny `real`.
Square root, gravity and drag are function-valued parameters. `Physics`
bundles `sqrt`, `gravity` and `drag`. The only assumption about them,
`Sound`, is that `sqrt` is a square root.

Two behaviours of the code that one might not expect, both modelled as
written:

- One might expect `Update(0)` to change nothing. It does change the store.
  The location pass overwrites the velocity of every moving body with the
  new velocity, because that velocity is not scaled by the multiplier (only
  the location step is; `SweepSequential` states the new velocities and
  `SweepShape` that scale 0 keeps the locations). The collision check then
  still runs and merges overlapping bodies (`TickZeroMergesClashes`).
- One might expect bodies of non-positive mass to be rejected when added.
  `AddNewBody` accepts them (see "Left out").

## Model

| member | source | states |
|---|---|---|
| Models.Copy | OrbitalSimulation/Models/OrbitalBody.cs:29-41 | the copy constructor copies all ten fields, the ID included, so the copy is the same value |
| Models.CopyEqualsOriginal | OrbitalSimulation/Models/OrbitalBody.cs:29-41 | a copy is `==` to its original and has the same hash code |
| Models.SameBodyIsSameId | OrbitalSimulation/Models/OrbitalBody.cs:121-147 | `SameBody` (the `==` operator) matches on null: two nulls are equal, a null and a body are not, and two bodies are equal iff `Equals` holds, that is iff their IDs are equal; it is symmetric |
| Models.SameBodyTransitive | OrbitalSimulation/Models/OrbitalBody.cs:126-130 | ID equality is transitive |
| Models.EqualBodiesHashAlike | OrbitalSimulation/Models/OrbitalBody.cs:126-135 | `HashCode` is `mix(ID)`, so equal bodies have equal hash codes |
| Models.HashMatchIsIdMatch | OrbitalSimulation/Models/OrbitalBody.cs:132-135 | when `HashCode.Combine` is injective on ints, two hash codes are equal iff the IDs are equal |
| Models.IsAnyStationary | OrbitalSimulation/Models/OrbitalBody.cs:105-111 | true iff some body of the set is stationary |
| Models.IsAnyAtmospheric | OrbitalSimulation/Models/OrbitalBody.cs:113-119 | true iff some body of the set has an atmosphere |
| Models.Merge | OrbitalSimulation/Models/OrbitalBody.cs:54-103 | the merged body takes the new ID and is not noclip; it is stationary iff some input is; it has an atmosphere iff some input does; its mass is the positive sum of the input masses; its atmosphere top is its radius plus the summed thicknesses of the atmospheric inputs, and its density is their summed densities (both 0 without an atmosphere) |
| Models.WeightedVelocitySum | OrbitalSimulation/Models/OrbitalBody.cs:64-68 | summing each input's velocity weighted by m_i/M gives the total momentum divided by M |
| Models.MergeConservesMomentum | OrbitalSimulation/Models/OrbitalBody.cs:59-69 | the merged body's momentum (velocity times mass) equals the summed momentum of the inputs, so its velocity is the mass-weighted mean |
| Models.MergeAtCentreOfMass | OrbitalSimulation/Models/OrbitalBody.cs:71-81 | the merged body's location times its mass equals the summed moments of the inputs, so it sits at their centre of mass |
| Models.MergedRadius | OrbitalSimulation/Models/OrbitalBody.cs:83-87 | the radius from the combined area is non-negative, its square is the sum of the squared radii, and its area is the combined area |
| Models.MergeConservesArea | OrbitalSimulation/Models/OrbitalBody.cs:83-87 | the merged body's radius is non-negative, its squared radius is the sum of the inputs' squared radii, and its area is their total area |
| Models.MergeOrderIndependent | OrbitalSimulation/Models/OrbitalBody.cs:54-103 | two enumeration orders of the same collided set give the same merged body |
| Models.MergeOfOne | OrbitalSimulation/Models/OrbitalBody.cs:54-103 | when `sqrt` is a square root and the body has positive mass, a non-negative radius, and zero atmosphere density and top when it has no atmosphere, merging it alone gives that body with the new ID and the noclip flag cleared |
| PointHelper.DistanceNonNegative | OrbitalSimulation/Helpers/PointHelper.cs:12-18 | `Distance` is the square root of the summed squared coordinate differences; it is non-negative and squares to that sum |
| PointHelper.DistanceToSelf | OrbitalSimulation/Helpers/PointHelper.cs:14-17 | the distance of a point to itself is 0 |
| PointHelper.DistanceSymmetric | OrbitalSimulation/Helpers/PointHelper.cs:14-17 | `Distance(a, b) == Distance(b, a)` |
| PointHelper.DistanceAtMost | OrbitalSimulation/Helpers/PointHelper.cs:14-17 | `Distance(a, b) <= d` iff d is non-negative and the squared distance is at most d² |
| PointHelper.CalculateCentroid | OrbitalSimulation/Helpers/PointHelper.cs:20-34 | on a non-empty list, the loop returns `Mean`: the sums of the X and of the Y coordinates divided by the number of points |
| PointHelper.CentroidOfOnePoint | OrbitalSimulation/Helpers/PointHelper.cs:22-33 | the centroid of a one-point list is that point |
| PointHelper.CentroidWithinBounds | OrbitalSimulation/Helpers/PointHelper.cs:22-33 | the centroid lies inside any axis-aligned box that holds every point |
| CircleHelper.AreaNonNegative | OrbitalSimulation/Helpers/CircleHelper.cs:11 | `GetAreaOfRadius` is π r²; it is never negative |
| CircleHelper.AreaOfNegatedRadius | OrbitalSimulation/Helpers/CircleHelper.cs:11 | the area of -r equals the area of r |
| CircleHelper.AreaMonotone | OrbitalSimulation/Helpers/CircleHelper.cs:11 | the area grows with the radius on r ≥ 0 |
| CircleHelper.RadiusOfAreaOfRadius | OrbitalSimulation/Helpers/CircleHelper.cs:11-12 | `GetRadiusFromArea` is the square root of area / π; for r ≥ 0, the radius from the area of r is r |
| CircleHelper.AreaOfRadiusOfArea | OrbitalSimulation/Helpers/CircleHelper.cs:11-12 | for a ≥ 0, the radius from area a is non-negative and its area is a |
| Collisions.OverlapsSquared | OrbitalSimulation/Engines/BasicEngine.cs:166 | `Overlaps` is the test `Distance <= r1 + r2`; it holds iff r1 + r2 ≥ 0 and the squared distance is at most (r1 + r2)² |
| Collisions.TouchingCirclesOverlap | OrbitalSimulation/Engines/BasicEngine.cs:166 | circles that just touch (distance exactly r1 + r2) count as overlapping |
| Collisions.OverlapsSymmetric | OrbitalSimulation/Engines/BasicEngine.cs:166 | the overlap test is symmetric in the two bodies |
| Collisions.GetCollisionSet | OrbitalSimulation/Engines/BasicEngine.cs:158-181 | the loop returns `CollisionSet` (for each other non-noclip body it overlaps, in enumeration order, `HashSet.Add` of that body and then of the body itself) and `Rescan` of the body (a noclip body overlapping no other body has its flag cleared) |
| Collisions.CollisionSetProperties | OrbitalSimulation/Engines/BasicEngine.cs:158-181 | the set has distinct IDs. It is empty iff the body hits no other body. Otherwise its IDs are exactly the hit bodies' plus the body's own, it has at least two members, and the body is the second one. Every member is non-noclip, and is the body or a body of the store it hits |
| Collisions.CollisionSetIds | OrbitalSimulation/Engines/BasicEngine.cs:162-172 | the ID part of CollisionSetProperties, by induction over the enumeration |
| Collisions.CollisionSetShape | OrbitalSimulation/Engines/BasicEngine.cs:168-172 | a non-empty set holds the body plus at least one body it hits |
| Collisions.CollisionSetMembers | OrbitalSimulation/Engines/BasicEngine.cs:164-172 | every member is non-noclip, and is the body or a body of the store it hits |
| Collisions.EmptyCollisionSet | OrbitalSimulation/Engines/BasicEngine.cs:162-177 | the set is empty iff no body of the store is hit |
| Collisions.HitsAreCollected | OrbitalSimulation/Engines/BasicEngine.cs:166-171 | every body of the store that is hit is in the set |
| Collisions.RescanProperties | OrbitalSimulation/Engines/BasicEngine.cs:161-179 | only the noclip flag may change, and only from set to clear. A noclip body that overlaps no other body is cleared; one that overlaps some other body keeps its flag. A body with a non-empty collision set is unchanged |
| Collisions.AbsorbProperties | OrbitalSimulation/Engines/BasicEngine.cs:114-121 | `Absorb` removes the collided IDs and adds the set's merge under the fresh ID. It keeps the store well formed with the counter one higher. The store shrinks by one less than the size of the collided set, so by at least one body. Its IDs become the old ones minus the collided ones, plus the fresh one |
| Collisions.AdditiveQuantities | OrbitalSimulation/Models/OrbitalBody.cs:59-87 | mass, both momenta, both moments, squared radius and area are each preserved by a merge: the merged body carries the sum of the inputs' values |
| Collisions.AbsorbConserves | OrbitalSimulation/Engines/BasicEngine.cs:114-121 | replacing the collided set by its merge keeps the store's total of every such quantity |
| Collisions.CollideFrom | OrbitalSimulation/Engines/BasicEngine.cs:104-128 | the collision loop from index i terminates (the measure is the store size, then the bodies left to scan). It keeps the store well formed, and never lowers the counter |
| Collisions.Quieted | OrbitalSimulation/Engines/BasicEngine.cs:108-109 | a look that finds nothing keeps the size, the counter and well-formedness |
| Collisions.Merged | OrbitalSimulation/Engines/BasicEngine.cs:109-126 | a look that finds a collision makes the store smaller but not empty, and raises the counter by one |
| Collisions.MergedIsAbsorb | OrbitalSimulation/Engines/BasicEngine.cs:114-121 | a merge replaces exactly the collided set by its merge under the current counter value, then increments the counter |
| Collisions.MergeStep | OrbitalSimulation/Engines/BasicEngine.cs:109-126 | a look with a collision leaves the body itself unchanged, merges the set, and continues from 1 |
| Collisions.CollideFromCalm | OrbitalSimulation/Engines/BasicEngine.cs:104-128 | if the bodies before index i are pairwise clash-free, the whole result is pairwise clash-free |
| Collisions.QuietSettles | OrbitalSimulation/Engines/BasicEngine.cs:106-109 | a quiet look extends the clash-free prefix by one body |
| Collisions.RescanSettles | OrbitalSimulation/Engines/BasicEngine.cs:173-179 | writing back a rescanned body with no collisions keeps the prefix clash-free |
| Collisions.CollisionCheckCalm | OrbitalSimulation/Engines/BasicEngine.cs:104-128 | after `Collide` (the collision loop from index 0) no two distinct non-noclip bodies overlap, although index 0 is skipped after each restart |
| Collisions.CollideFromConserves | OrbitalSimulation/Engines/BasicEngine.cs:104-128 | the collision loop keeps the total of any quantity that merges preserve |
| Collisions.RescanConserves | OrbitalSimulation/Engines/BasicEngine.cs:178-179 | the noclip write-back does not change any such total |
| Collisions.CollisionCheckConserves | OrbitalSimulation/Engines/BasicEngine.cs:104-128 | CollisionCheck keeps the total mass, both momenta, both moments and the total area |
| Collisions.UnflaggedMember | OrbitalSimulation/Engines/BasicEngine.cs:178-179 | a body with its flag cleared is in the cleared images of a store iff it equals a body of the store up to the noclip flag |
| Collisions.CollideFromTraceable | OrbitalSimulation/Engines/BasicEngine.cs:104-128 | every body the loop leaves is a known body (up to its noclip flag) or carries an ID drawn during the loop |
| Collisions.MergedTraceable | OrbitalSimulation/Engines/BasicEngine.cs:114-121 | after one merge every body is still traceable (known up to its noclip flag, or with an ID in the drawn range), with the ID range extended to the new counter |
| Collisions.AbsorbTraceable | OrbitalSimulation/Engines/BasicEngine.cs:114-121 | removing the collided set and adding a body with ID `next` keeps every body traceable, with the range extended to next + 1 |
| Collisions.RescanTraceable | OrbitalSimulation/Engines/BasicEngine.cs:178-179 | the noclip write-back keeps every body traceable |
| Collisions.CollisionCheckFreshIds | OrbitalSimulation/Engines/BasicEngine.cs:104-128 | every body after CollisionCheck is an original body (up to its noclip flag) or has an ID in [old counter, new counter), one never handed out before |
| BodySet.InsertProperties | OrbitalSimulation/Engines/BasicEngine.cs:121 | `Insert` (`HashSet.Add`) appends a body unless its ID is present; it keeps IDs distinct and adds the body's ID. A body with a new ID is appended. Earlier positions are unchanged |
| BodySet.RemoveHashIsRemoveId | OrbitalSimulation/Engines/BasicEngine.cs:117 | `RemoveHash` (`RemoveWhere` on a hash code) keeps, in order, the bodies whose hash differs. With an injective hash, removing by the hash code of a body removes exactly the bodies with its ID, which is `RemoveIds` |
| BodySet.RemoveIdsMembers | OrbitalSimulation/Engines/BasicEngine.cs:115-120 | `RemoveIds` keeps, in order, the bodies whose ID is not collided: a body is left iff it was there and its ID was not collided; the kept and the removed bodies together are as many as the store had |
| BodySet.RemoveIdsIds | OrbitalSimulation/Engines/BasicEngine.cs:115-120 | the IDs left are the old IDs minus the collided ones |
| BodySet.RemoveIdsDistinct | OrbitalSimulation/Engines/BasicEngine.cs:115-120 | the removals keep IDs distinct |
| BodySet.KeepIdsOfSubset | OrbitalSimulation/Engines/BasicEngine.cs:115-120 | the bodies removed are exactly the collided set, as a multiset |
| Motion.DragCutOff | OrbitalSimulation/Engines/BasicEngine.cs:202-208 | `AtmosphericDrag` is zero beyond the top of the anchor's atmosphere and the abstract drag otherwise: drag acts iff the body is within the (non-negative) top of the anchor's atmosphere |
| Motion.IgnoredBodiesDoNotPull | OrbitalSimulation/Engines/BasicEngine.cs:135-153 | a body with the same ID, or a noclip body, adds nothing to the velocity |
| Motion.UnpulledKeepsVelocity | OrbitalSimulation/Engines/BasicEngine.cs:130-156 | a noclip body, or one with no other non-noclip body around, keeps its velocity |
| Motion.UnpulledPull | OrbitalSimulation/Engines/BasicEngine.cs:135-153 | when every other body is noclip, the summed pull is zero |
| Motion.SweepShape | OrbitalSimulation/Engines/BasicEngine.cs:92-102 | `Sweep` moves each non-stationary body in turn by `Move` (its `NextVelocity` against the partly updated store, times the scale). The pass keeps the number and order of bodies. Only location and velocity change. A stationary body is untouched. With scale 0 no location changes |
| Motion.SweepSequential | OrbitalSimulation/Engines/BasicEngine.cs:94-101 | body k is moved against a store whose earlier bodies have already been moved in the same pass |
| Motion.SweepKeepsWellFormed | OrbitalSimulation/Engines/BasicEngine.cs:92-102 | the pass keeps IDs, masses and the counter invariant |
| Motion.VectorLengthNonNegative | OrbitalSimulation/Engines/BasicEngine.cs:224 | `VectorLength` is the square root of x² + y²; it is non-negative and equals the distance to the origin |
| Motion.ProbeKeepsIdentity | OrbitalSimulation/Engines/BasicEngine.cs:229-236 | `Probe` is the copy after n steps, each taking `NextVelocity` against the unchanged store and moving by it; the probe differs from the body only in location and velocity |
| Motion.SamplesShape | OrbitalSimulation/Engines/BasicEngine.cs:238-239 | `Samples` appends the probe's location after each step whose counter is a multiple of 100. After n steps there are ⌈n/100⌉ samples, and sample k is the probe location after step 100·k + 1 |
| Motion.PathLengthMonotone | OrbitalSimulation/Engines/BasicEngine.cs:237 | the path length is non-negative and never decreases |
| Engines.TruncateAboveOne | OrbitalSimulation/Engines/BasicEngine.cs:84 | `Truncate` is the cast `(int)x`, truncating toward zero; for x > 1 it is at least 1 and is the whole part of x |
| Engines.SubStep | OrbitalSimulation/Engines/BasicEngine.cs:79-80 | one location pass and one collision check keep the store well formed and never lower the counter |
| Engines.Steps | OrbitalSimulation/Engines/BasicEngine.cs:84-88 | n unit passes keep the store well formed and never lower the counter |
| Engines.TickCases | OrbitalSimulation/Engines/BasicEngine.cs:72-90 | `Tick` is `Update` on the store: nothing on an empty store. For a multiplier ≤ 1 it does one pass scaled by the multiplier. Otherwise it does `(int)multiplier` ≥ 1 unit passes |
| Engines.SubStepCalm | OrbitalSimulation/Engines/BasicEngine.cs:79-80 | after a pass no two distinct non-noclip bodies overlap |
| Engines.StepsCalm | OrbitalSimulation/Engines/BasicEngine.cs:84-88 | after n ≥ 1 passes no two distinct non-noclip bodies overlap |
| Engines.TickCalm | OrbitalSimulation/Engines/BasicEngine.cs:72-90 | after `Update`, whatever the multiplier, no two distinct non-noclip bodies overlap |
| Engines.TickZeroMergesClashes | OrbitalSimulation/Engines/BasicEngine.cs:77-81 | `Update(0)` changes any store in which two non-noclip bodies overlap |
| Engines.SubStepConserves | OrbitalSimulation/Engines/BasicEngine.cs:79-80 | a pass keeps the total mass and the total area |
| Engines.StepConserves | OrbitalSimulation/Engines/BasicEngine.cs:86-87 | one more unit pass keeps both totals |
| Engines.StepsConserve | OrbitalSimulation/Engines/BasicEngine.cs:84-88 | any number of unit passes keeps both totals |
| Engines.TickConserves | OrbitalSimulation/Engines/BasicEngine.cs:72-90 | `Update` keeps the total mass and the total area |
| Engines.FirstNearestUnique | OrbitalSimulation/Engines/BasicEngine.cs:57-68 | `FirstNearest(k)` says body k has another ID, lies below `double.MaxValue`, is at most as far as every other body and strictly nearer than every earlier one; the strict `<` makes it unique: the first of the closest ones wins ties |
| Engines.BasicEngine.constructor | OrbitalSimulation/Engines/BasicEngine.cs:20-22 | a new engine has no bodies and its counter at 0 |
| Engines.BasicEngine.AddNewBody | OrbitalSimulation/Engines/BasicEngine.cs:26-30 | the body gets the current counter value as its ID and is appended. The counter goes up by one. The new ID is greater than every ID already in the store |
| Engines.BasicEngine.GetNearestBody | OrbitalSimulation/Engines/BasicEngine.cs:48-70 | null on an empty store; `to` itself on a one-body store. Otherwise it returns the body k with `FirstNearest(k)`, the first body with another ID at minimal distance, or null only when every such body is at least `double.MaxValue` away |
| Engines.BasicEngine.CalculateNextLocation | OrbitalSimulation/Engines/BasicEngine.cs:130-156 | the loop returns `NextVelocity`: the body's velocity plus the pull of every other non-noclip body, in enumeration order, or the velocity alone for a noclip body |
| Engines.BasicEngine.UpdateLocations | OrbitalSimulation/Engines/BasicEngine.cs:92-102 | the in-place loop leaves the sequential pass `Sweep` of the old bodies; the counter is unchanged |
| Engines.BasicEngine.CollisionCheck | OrbitalSimulation/Engines/BasicEngine.cs:104-128 | the restarting loop leaves the store `CollideFrom(old store, 0)` and keeps the engine invariant |
| Engines.BasicEngine.MergeAt | OrbitalSimulation/Engines/BasicEngine.cs:109-125 | one merge makes the store smaller but not empty, and the loop can go on from index 1 |
| Engines.BasicEngine.MergeCollided | OrbitalSimulation/Engines/BasicEngine.cs:114-121 | the collided set is replaced by its merge under the old counter value, and the counter goes up by one |
| Engines.BasicEngine.RemoveCollided | OrbitalSimulation/Engines/BasicEngine.cs:115-120 | the `RemoveWhere` loop removes exactly the bodies whose IDs are in the collided set |
| Engines.BasicEngine.Pass | OrbitalSimulation/Engines/BasicEngine.cs:79-80 | `UpdateLocations` then `CollisionCheck` leave the store `SubStep` of the old store |
| Engines.BasicEngine.Update | OrbitalSimulation/Engines/BasicEngine.cs:72-90 | the method leaves the store `Tick` of the old store |
| Engines.BasicEngine.PredictPath | OrbitalSimulation/Engines/BasicEngine.cs:226-243 | the result is empty when `maxPathPoints <= 0` or `maxPathLength <= 0`, and has at most `maxPathPoints` points. Sample k is the probe location after step 100·k + 1. The loop stops at the first step where the length bound or the point bound is reached. `Bodies` is not changed |

## Left out

- Object identity and aliasing are not modelled. Bodies are values, so the caller's reference does not see the ID that `AddNewBody` writes. `GetCollisionSet` writes the noclip flag through a reference; the model returns the updated body and the caller writes it back.
- The `CollisionOccured`, `BodyDeleted` and `BodyAdded` events are not modelled. They are callbacks into the user interface.
- IEEE doubles are not modelled: no rounding, NaN or infinity. Every number is an exact real.
- Gravity, drag and square root are abstract parameters, not formulas. `GetGravitationalConstantForce` uses `Atan2`, `Cos` and `Sin`. The drag uses `Exp` (`GetDensityAtAltitude`), `Atan` and `GetVelocity`; `GetVelocity` is not declared anywhere in the source. Only the cut-off above the top of the atmosphere is modelled.
- `GetOrbitalVector` is not modelled; it is trigonometry only. `GetLengthOfVector` is modelled as `VectorLength` through the abstract square root.
- `HashCode.Combine` is a parameter `mix`, assumed injective on ints. Its real value depends on a per-process random seed.
- The `HashSet` enumeration order after removals and additions is an implementation detail. The model keeps the relative order on removal and appends on `Add`; `MergeOrderIndependent` shows the merged body does not depend on the order.
- Engines.BasicEngine.AddNewBody: requires a positive mass, which the source does not check. The merge divides by the total mass of the collided set, so a collided set of zero total mass would divide by zero; positive masses rule that out.
- Models.Merge: requires a positive total mass; the source merges any set whose total mass is non-zero, a negative total included.
- PointHelper.CalculateCentroid: requires a non-empty list. On an empty list the source divides by zero and yields NaN.
- Engines.BasicEngine.AddNewBody: does not model the wrap-around of the 32-bit `_currentID`. The model's counter is unbounded, so IDs stay fresh; in the source this holds only for fewer than 2³¹ IDs.
- Engines.BasicEngine.PredictPath: does not model the wrap-around of the 32-bit `int current`. The sampling rule `current % 100 == 0` is exact only for fewer than 2³¹ steps.
- Engines.Truncate: does not model the overflow of the cast `(int)tickMultiplier` for multipliers of 2³¹ or more.
- Only the copy constructor and the merge constructor are modelled. The default constructor and the field-by-field constructor of `OrbitalBody` are plain initialisations.
- Debris generation and two-phase integration are not part of the code, so the model has neither. The location pass is sequential, as written.
- π is the concrete constant 3.14159265358979323846, not an abstract positive constant.

# Buoyancy component of ColdWarSubSim, modelled in Dafny

`Buoyancy.cs` floats a rigid body on the ocean. At start-up it does three things:

- It slices the collider's bounding box into a grid of `slicesPerAxis`³ voxel centres.
  - In concave mode it keeps only the centres that a ray-cast inside test accepts.
  - If concave mode keeps nothing, it falls back to the centre of the box.
- When there are more than two voxels and `voxelsLimit >= 2`, it welds the closest pairs of voxels into their midpoints until `voxelsLimit` are left.
- It derives the voxel half-height and each voxel's share of the Archimedes force.

On every physics tick it walks the voxels. A voxel whose bottom is below the water level gets three things:

- a damping force plus `sqrt(k)` times its Archimedes share, where `k` is the clamped submersion fraction;
- a spray effect, taken round-robin from a pool of 20, if it has just entered the water hard enough;
- a below-water flag.

Every other voxel is flagged above water.

The model has five modules:

- `Vectors`: `Vector3` as three reals.
- `Slicing`: the voxel grid and its filter. It is the specification of `SliceIntoVoxels`.
- `Welding`: the closest-pair search and the weld. It is the specification of `FindClosestPoints` and `WeldPoints`.
- `Submersion`: the water level, the half-height, the Archimedes share, one voxel's step and the whole tick as a fold over the voxels.
- `BuoyancyComponent`: the `Buoyancy` class. Its fields are the ones `Start` and `FixedUpdate` update in place.
  - The public settings `seaLevelOffset` and `emitSprayOnCollision` are mutable fields that every tick reads afresh, so other code may change them between ticks. The other settings are read only by `Start`, and are constants.
  - Its methods keep the loops of the C# code.
  - Each method is proved equal to the specification function of its module.

Some things the engine provides are taken as parameters:

- the collider bounds;
- the inside test;
- the local/world transforms;
- the Triton height field;
- the point-velocity query;
- the rigid body's mass;
- the square root;
- gravity.

The forces handed to `AddForceAtPosition` and the spray slots that are triggered become outputs of a tick.

Exceptions are recorded as a `faulted` outcome that ends the tick. There are three:

- reading the flag of a voxel that has none (`KeyNotFoundException`);
- indexing a spray pool that was never loaded (`NullReferenceException`);
- indexing the pool with a cursor outside slots 0 to 19 (`IndexOutOfRangeException`). From a state `Start` established this cannot happen (`Submersion.TickCursor`).

Two consequences of the code worth stating:

- For a body of mass 1000 and density 500 (volume 2) under gravity −9.8, sliced into 8 voxels, `WATER_DENSITY` = 1000 makes each voxel's Archimedes share 1000 · 9.8 · 2 / 8 = 2450 (`Submersion.CubeShare`).
- With `slicesPerAxis == 0` convex slicing runs no loop iteration and yields no points (`Slicing.ConvexSlice`), while concave slicing yields the bounds centre alone (`Slicing.NoSlicesConcave`). The voxel list is created with capacity `slicesPerAxis³` (line 123), a product in 32-bit `int` arithmetic that wraps around (`Slicing.Capacity`). A negative capacity makes the list constructor throw `ArgumentOutOfRangeException` before any cell is visited.
  - Up to 1290 slices either way the capacity is the exact cube (`Slicing.CapacityExact`). Every count from -1 to -1290 therefore throws.
  - From 1291 to 1625 the cube wraps to a negative capacity, which throws. From -1291 to -1625 it wraps to a non-negative one, which does not (`Slicing.CapacityWraps`). Further out it keeps wrapping: 1626 gives a positive capacity and -2048 gives 0.

## Model

All source paths are `gameMain/ColdWarSubSim/Assets/Triton/Buoyancy.cs`.

| member | source | states |
|---|---|---|
| BuoyancyComponent.Buoyancy.Start | gameMain/ColdWarSubSim/Assets/Triton/Buoyancy.cs:45-114 | The settings are stored. The half-height is the smallest extent over `2 * slicesPerAxis`. The voxels and flags are the weld, down to `voxelsLimit`, of the slicing (concave only for a concave mesh collider) with every sliced point flagged below water. The cursor is 0. There is at least one voxel, each with a flag. The Archimedes share times the voxel count is the displaced water's weight |
| BuoyancyComponent.Buoyancy.SliceIntoVoxels | gameMain/ColdWarSubSim/Assets/Triton/Buoyancy.cs:121-186 | For a slice count the list capacity accepts (at least 0), the triple loop returns exactly `Slice(...)`: the grid centres in x/y/z loop order, filtered in concave mode, with the bounds-centre fallback. The flag map becomes the old map with every returned point set to false |
| BuoyancyComponent.Buoyancy.FindClosestPoints | gameMain/ColdWarSubSim/Assets/Triton/Buoyancy.cs:216-239 | The nested loops return `ClosestPair`. If some pair is nearer than float.MaxValue, that is the first closest pair in loop order; otherwise it is (0, 1) |
| BuoyancyComponent.Buoyancy.WeldPoints | gameMain/ColdWarSubSim/Assets/Triton/Buoyancy.cs:246-264 | The early return and the while loop leave the voxel list and flag map equal to `Weld` of the old ones |
| BuoyancyComponent.Buoyancy.FixedUpdate | gameMain/ColdWarSubSim/Assets/Triton/Buoyancy.cs:284-335 | The flags, cursor, applied forces, triggered sprays and fault are those of `Tick` over the voxels, with the `seaLevelOffset` and `emitSprayOnCollision` the fields hold at that tick. A valid component stays valid. With a loaded pool, or spraying off, a valid component never throws |
| BuoyancyComponent.WeldedCovered | gameMain/ColdWarSubSim/Assets/Triton/Buoyancy.cs:100-108 | Welding a non-empty slicing whose points are all flagged leaves at least one voxel, and every voxel has a flag |
| BuoyancyComponent.TickKeepsValid | gameMain/ColdWarSubSim/Assets/Triton/Buoyancy.cs:288-333 | A tick from a state where every voxel has a flag and the cursor is a pool slot keeps both. It cannot throw when the pool is loaded or spraying is off |
| Vectors.MidpointHalfway | gameMain/ColdWarSubSim/Assets/Triton/Buoyancy.cs:258 | The welded midpoint is a quarter of the squared pair distance from each end |
| Slicing.Centres | gameMain/ColdWarSubSim/Assets/Triton/Buoyancy.cs:140-144 | One point per cell |
| Slicing.CentresAt | gameMain/ColdWarSubSim/Assets/Triton/Buoyancy.cs:140-144 | Point i is cell i's centre `min + size / r * (0.5 + index)` carried into the local frame |
| Slicing.Filter | gameMain/ColdWarSubSim/Assets/Triton/Buoyancy.cs:146-150 | The kept points are exactly the candidates the inside test accepts, and never more than the candidates |
| Slicing.KeptCentres | gameMain/ColdWarSubSim/Assets/Triton/Buoyancy.cs:134-150 | Appending cell by cell, the loops keep the filtered centres in concave mode and every centre in convex mode |
| Slicing.KeptUpToCells | gameMain/ColdWarSubSim/Assets/Triton/Buoyancy.cs:134-153 | What the loops have appended before cell (ix, iy, iz) is what they keep of the cells visited before it in x-outer, y-middle, z-inner order |
| Slicing.SliceOfKept | gameMain/ColdWarSubSim/Assets/Triton/Buoyancy.cs:154-158 | After the loops, the slicing is what they kept. The one exception is concave mode with nothing kept, where it is the bounds centre alone |
| Slicing.MarkBelowSnoc | gameMain/ColdWarSubSim/Assets/Triton/Buoyancy.cs:149 | Flagging one more point below water is one map update |
| Slicing.MarkBelowFlags | gameMain/ColdWarSubSim/Assets/Triton/Buoyancy.cs:149-179 | After slicing, every produced point has the flag false. No old key is lost. Every other entry keeps its old value |
| Slicing.CellsOrder | gameMain/ColdWarSubSim/Assets/Triton/Buoyancy.cs:166-171 | The loops visit r³ cells, and cell (ix, iy, iz) is visited at position `ix*r*r + iy*r + iz` |
| Slicing.GridAt | gameMain/ColdWarSubSim/Assets/Triton/Buoyancy.cs:172-176 | The candidate at a cell's position is that cell's centre in the local frame |
| Slicing.ConvexSlice | gameMain/ColdWarSubSim/Assets/Triton/Buoyancy.cs:164-182 | Convex slicing yields exactly r³ points (none for r = 0), and the point at `ix*r*r + iy*r + iz` is cell (ix, iy, iz)'s centre |
| Slicing.ConcaveSlice | gameMain/ColdWarSubSim/Assets/Triton/Buoyancy.cs:125-158 | Concave slicing yields 1 to r³ points. If some candidate is inside, the points are exactly the inside candidates. If none is, the result is the bounds centre alone |
| Slicing.CapacityExact | gameMain/ColdWarSubSim/Assets/Triton/Buoyancy.cs:123 | For slice counts from -1290 to 1290 the 32-bit capacity is the exact cube, so it is negative exactly for the negative counts |
| Slicing.CapacityWraps | gameMain/ColdWarSubSim/Assets/Triton/Buoyancy.cs:123 | For 1291 to 1625 slices the 32-bit capacity wraps to a negative value, and for -1291 to -1625 to a non-negative one; 1626 wraps to a non-negative value and -2048 to 0 |
| Slicing.NoSlicesConcave | gameMain/ColdWarSubSim/Assets/Triton/Buoyancy.cs:134-157 | With `slicesPerAxis == 0` concave slicing visits no cell and yields the bounds centre alone |
| Slicing.SliceNonEmpty | gameMain/ColdWarSubSim/Assets/Triton/Buoyancy.cs:121-186 | With at least one slice per axis, slicing yields at least one point |
| Welding.RemoveAtElements | gameMain/ColdWarSubSim/Assets/Triton/Buoyancy.cs:259-260 | `List.RemoveAt`: earlier elements stay, later ones move down one place, and the removed element is the only one lost |
| Welding.Scan | gameMain/ColdWarSubSim/Assets/Triton/Buoyancy.cs:222-238 | The search's answer is an ordered pair of indices, within the list when it has two points |
| Welding.ClosestPair | gameMain/ColdWarSubSim/Assets/Triton/Buoyancy.cs:216-239 | For a list of at least two points, the pair is `first < second`, both valid indices |
| Welding.ScanInvDone | gameMain/ColdWarSubSim/Assets/Triton/Buoyancy.cs:222 | When the outer loop ends, the candidate is the first closest pair, or (0, 1) when no pair beat float.MaxValue |
| Welding.ScanInvNextRow | gameMain/ColdWarSubSim/Assets/Triton/Buoyancy.cs:222-224 | Moving from the end of row i to the start of row i + 1 keeps the search invariant |
| Welding.ScanInvVisit | gameMain/ColdWarSubSim/Assets/Triton/Buoyancy.cs:226-232 | Visiting a pair keeps the search invariant. The candidate is replaced only on a strict `<` |
| Welding.ScanFindsFirstClosest | gameMain/ColdWarSubSim/Assets/Triton/Buoyancy.cs:222-238 | From any state satisfying the invariant, the search ends with the promised outcome |
| Welding.ClosestPairCorrect | gameMain/ColdWarSubSim/Assets/Triton/Buoyancy.cs:216-239 | The pair is at minimum distance over all pairs and precedes every other pair at that distance. With no pair below float.MaxValue it is (0, 1) |
| Welding.FirstClosestUnique | gameMain/ColdWarSubSim/Assets/Triton/Buoyancy.cs:227 | The strict comparison makes the chosen closest pair unique |
| Welding.CoincidentPairFirst | gameMain/ColdWarSubSim/Assets/Triton/Buoyancy.cs:226-232 | Two coincident points make the chosen pair coincident too, with no later pair chosen over them |
| Welding.WeldStep | gameMain/ColdWarSubSim/Assets/Triton/Buoyancy.cs:255-262 | One pass removes two points and adds one |
| Welding.WeldNoOp | gameMain/ColdWarSubSim/Assets/Triton/Buoyancy.cs:248-253 | A list of at most two points, a target below two, or a list already within the target is left unchanged |
| Welding.WeldLoopCount | gameMain/ColdWarSubSim/Assets/Triton/Buoyancy.cs:253-263 | The loop ends at exactly the target count when it runs, and leaves the list alone otherwise |
| Welding.WeldCount | gameMain/ColdWarSubSim/Assets/Triton/Buoyancy.cs:246-264 | The weld never adds points. When it runs it ends at exactly the target; otherwise the count is unchanged |
| Welding.WeldStepShape | gameMain/ColdWarSubSim/Assets/Triton/Buoyancy.cs:258-261 | After one pass, the other points keep their relative order, followed by the pair's midpoint |
| Welding.WeldStepCoverage | gameMain/ColdWarSubSim/Assets/Triton/Buoyancy.cs:258-262 | One pass keeps every key and every voxel's flag. The midpoint is flagged false, and every other entry is false or unchanged |
| Welding.WeldLoopCoverage | gameMain/ColdWarSubSim/Assets/Triton/Buoyancy.cs:253-263 | The loop keeps every key and keeps every voxel flagged. Each entry is either unchanged or a fresh false |
| Welding.WeldCoverage | gameMain/ColdWarSubSim/Assets/Triton/Buoyancy.cs:246-264 | The weld keeps every key (stale keys of merged points stay) and keeps every voxel flagged. Each entry is either unchanged or a fresh false |
| Submersion.WaterLevelOffset | gameMain/ColdWarSubSim/Assets/Triton/Buoyancy.cs:272-279 | The sea-level offset shifts the water level by exactly its own amount. Without Triton the level is the same at every (x, z) |
| Submersion.MinExtent | gameMain/ColdWarSubSim/Assets/Triton/Buoyancy.cs:78-89 | The two comparisons pick an extent that is at most each of the three |
| Submersion.VoxelHalfHeight | gameMain/ColdWarSubSim/Assets/Triton/Buoyancy.cs:78-90 | `2 * slicesPerAxis` half-heights span exactly the smallest extent |
| Submersion.HalfHeightFits | gameMain/ColdWarSubSim/Assets/Triton/Buoyancy.cs:78-90 | With at least one slice, `2 * slicesPerAxis` half-heights fit within every extent |
| Submersion.SubmersionFraction | gameMain/ColdWarSubSim/Assets/Triton/Buoyancy.cs:295-303 | k is in [0, 1]. It is 1 when the whole voxel is below the level, and the submerged share of the voxel's height otherwise. It is 1 for a zero half-height, where the float division gives +infinity |
| Submersion.NextSprayNum | gameMain/ColdWarSubSim/Assets/Triton/Buoyancy.cs:313-316 | The cursor advances by one modulo the pool size of 20 |
| Submersion.ArchimedesPerVoxel | gameMain/ColdWarSubSim/Assets/Triton/Buoyancy.cs:106-111 | The voxel count times the share is `WATER_DENSITY * |g| * mass / density` |
| Submersion.CubeShare | gameMain/ColdWarSubSim/Assets/Triton/Buoyancy.cs:106-111 | For mass 1000, density 500, gravity −9.8 and 8 voxels, the share is 2450 |
| Submersion.VoxelForce | gameMain/ColdWarSubSim/Assets/Triton/Buoyancy.cs:295-307 | The force on a submerged voxel is vertical |
| Submersion.VoxelStep | gameMain/ColdWarSubSim/Assets/Triton/Buoyancy.cs:290-332 | One voxel only ever adds its own flag key, and keeps the cursor within the pool |
| Submersion.VoxelStepFlags | gameMain/ColdWarSubSim/Assets/Triton/Buoyancy.cs:327-331 | A completed step flags the voxel below water exactly when it is submerged, and leaves every other flag unchanged |
| Submersion.VoxelStepSpray | gameMain/ColdWarSubSim/Assets/Triton/Buoyancy.cs:310-316 | A spray fires from the slot under the cursor exactly when the voxel is submerged, was above water and hits harder than 300. The cursor advances exactly then |
| Submersion.VoxelStepForce | gameMain/ColdWarSubSim/Assets/Triton/Buoyancy.cs:293-308 | A voxel gets a force at its world position exactly when it is submerged |
| Submersion.TickAfterFault | gameMain/ColdWarSubSim/Assets/Triton/Buoyancy.cs:288-333 | After an exception, the remaining voxels change nothing |
| Submersion.TickSnoc | gameMain/ColdWarSubSim/Assets/Triton/Buoyancy.cs:288 | The tick over one more voxel is one more step, unless an exception has already ended it |
| Submersion.TickCursor | gameMain/ColdWarSubSim/Assets/Triton/Buoyancy.cs:313-316 | Over a whole tick the cursor stays a valid pool slot |
| Submersion.TickFlags | gameMain/ColdWarSubSim/Assets/Triton/Buoyancy.cs:327-331 | A tick never removes a flag. A completed tick flags each voxel below water exactly when it is submerged, and leaves the other flags alone |
| Submersion.RoundRobinStep | gameMain/ColdWarSubSim/Assets/Triton/Buoyancy.cs:312-316 | One spray from the slot under the cursor, or none, keeps the round-robin order |
| Submersion.TickSprays | gameMain/ColdWarSubSim/Assets/Triton/Buoyancy.cs:310-316 | Over a tick the pool is used round-robin from the starting cursor, with at most one spray per voxel |
| Submersion.TickNeverFaults | gameMain/ColdWarSubSim/Assets/Triton/Buoyancy.cs:310-312 | With spraying off, or with a loaded pool and every voxel flagged, a tick never throws |

## Left out

- PointIsInsideMeshCollider (lines 194-208) is not part of this model. Its six ray casts against the engine's collider are the `inside` parameter. The toggling of `meshCol.convex` around concave slicing is engine state.
- `transform.InverseTransformPoint` and `transform.TransformPoint` are the parameters `toLocal` and `Env.toWorld`. Start's temporary reset of the body's rotation and position is part of what `toLocal` means.
- The Triton lookup is the `Ocean` value, and `triton.GetHeight` is its height function.
- Three engine values are inputs of a tick: `rigidbody.GetPointVelocity`, `rigidbody.mass` (read afresh for the damping of every tick) and `Mathf.Sqrt`. No property of the square root is assumed. `Physics.gravity` is read once, by `Start`, and is its `gravityY` parameter; the mass `Start` uses for the Archimedes share is its `mass` parameter.
- `AddForceAtPosition` is not performed. The forces it would receive are the tick's `applied` output.
- The spray effect itself is not modelled: the `TritonImpact` lookup, its position, `sprayScale` and `trigger`. A tick records only the slot it takes. The null checks on the pooled object change no state of the component.
- Loading the spray prefab is the `sprayPrefabFound` flag.
- The force gizmo list, `OnDrawGizmos`, the `Debug` logging and the centre-of-mass assignment are not modelled: they draw, log or hand values to the engine.
- The collider and rigid body that `Start` adds when they are missing are engine state. `isMeshCollider` is the parameter of the same name.
- The `maxDistance` that FindClosestPoints computes is not modelled, because it is never read.
- `float` is modelled as exact reals: no rounding, infinity or NaN. The one exception is the infinite submersion fraction at a zero half-height, whose clamp is modelled.
- `Vector3.Distance` is compared squared. The square root is monotone, so the comparisons and the search's result are the same for finite distances. The bound float.MaxValue becomes its square.
- The voxel dictionary is a map keyed by exact `Vector3` equality, which is what `Dictionary` uses.
- BuoyancyComponent.Buoyancy.SliceIntoVoxels: requires `slicesPerAxis >= 0`.
  - For a negative count whose 32-bit capacity is negative (every count from -1 to -1290, among others), the list constructor throws at line 123 before any cell is visited.
  - A negative count whose cube wraps to a non-negative capacity (-1291 to -1625, -2048, among others) is excluded as well. For those the source runs no loop iteration, as with 0: convex slicing returns no points and concave slicing returns the bounds centre.
- BuoyancyComponent.Buoyancy.SliceIntoVoxels: does not require the capacity `Slicing.Capacity(slicesPerAxis)` to be non-negative. For 1291 to 1625 slices (`Slicing.CapacityWraps`), and for some larger counts, the source throws at line 123, while the model slices normally.
- BuoyancyComponent.Buoyancy.Start: requires `slicesPerAxis >= 1` and `density != 0`. The negative counts the model leaves out fall into two groups:
  - A negative count whose capacity is negative: the source throws at line 123 (see SliceIntoVoxels above). Start stops at line 100 with `voxels` never assigned, and every later FixedUpdate throws `NullReferenceException` at line 288. The model does not build that broken component.
  - A negative count whose cube wraps to a non-negative capacity (-1291 to -1625, -2048, among others): no cell is visited. With convex slicing there is no voxel, and line 111 divides by zero. With concave slicing the bounds centre becomes the single voxel, with the negative half-height that line 90 gives. The model does not build that component either. For `slicesPerAxis == 0` the source divides by zero in `float` at line 90, and for convex slicing again at line 111, because no voxel is produced. For `density == 0` it divides by zero at line 106. It then carries on with infinities or NaN, which reals cannot express.
- BuoyancyComponent.Buoyancy.WeldPoints: the C# method is static over a list and a dictionary. Start only calls it on the component's own voxels and flags, so the model works on those fields directly.
- BuoyancyComponent.Buoyancy.FixedUpdate: the force of a submerged voxel comes from `Submersion.VoxelForce` instead of being computed inline. VoxelForce holds the same steps: the submersion fraction, the damping `-velocity * DAMPFER * mass`, and the damping plus `sqrt(k)` times the Archimedes share.
- BuoyancyComponent.Buoyancy.FixedUpdate: an exception is a `faulted` result that skips the remaining voxels of the tick. What the engine does after an exception escapes FixedUpdate is outside the component.

/**
 * The Buoyancy component: the voxels it floats on, the above-water flag of each
 * voxel, the spray cursor, and the start-up and per-tick work that updates them.
 * Each method is proved against the specification functions of Slicing, Welding
 * and Submersion.
 */
module BuoyancyComponent {
  import opened Vectors
  import opened Slicing
  import opened Welding
  import opened Submersion

  /**
   * Start's voxels: welding a non-empty slicing whose points are all flagged
   * below water leaves at least one voxel, and every voxel has a flag.
   */
  lemma WeldedCovered(sliced: seq<Vec3>, target: int)
    requires |sliced| >= 1
    ensures var w := Weld(sliced, MarkBelow(map[], sliced), target);
      |w.0| >= 1 && forall p :: p in w.0 ==> p in w.1
  {
    MarkBelowFlags(map[], sliced);
    WeldCount(sliced, MarkBelow(map[], sliced), target);
    WeldCoverage(sliced, MarkBelow(map[], sliced), target);
  }

  /**
   * A tick from a valid state: every voxel keeps its flag, the spray cursor stays
   * within the pool, and with a loaded pool (or spraying off) nothing throws.
   */
  lemma TickKeepsValid(c: TickConfig, e: Env, st: TickState, pts: seq<Vec3>)
    requires !st.faulted && 0 <= st.cursor < SpraySlots
    requires forall p :: p in pts ==> p in st.flags
    ensures var t := Tick(c, e, st, pts);
      && (forall p :: p in pts ==> p in t.flags)
      && 0 <= t.cursor < SpraySlots
      && (c.sprayPoolLoaded || !c.emitSprayOnCollision ==> !t.faulted)
  {
    TickFlags(c, e, st, pts);
    TickCursor(c, e, st, pts);
    if c.sprayPoolLoaded || !c.emitSprayOnCollision {
      TickNeverFaults(c, e, st, pts);
    }
  }

  class Buoyancy {
    const density: real
    const slicesPerAxis: int
    const isConcave: bool
    const voxelsLimit: int
    /**
     * Public settings that FixedUpdate reads again on every tick, so another
     * script (or the inspector) may change them between ticks.
     */
    var seaLevelOffset: real
    var emitSprayOnCollision: bool
    /** Whether Start found the spray prefab and filled the pool of NUM_SPRAY_SYSTEMS sprays. */
    const sprayPoolLoaded: bool

    var voxelHalfHeight: real
    /** The y component of localArchimedesForce; its x and z are zero. */
    var archimedesPerVoxel: real
    var voxels: seq<Vec3>
    var wasAboveWater: map<Vec3, bool>
    var nextSprayNum: int

    /**
     * What Start establishes and every tick keeps: there is at least one voxel,
     * every voxel has an above-water flag, and the spray cursor names a pool slot.
     */
    ghost predicate Valid()
      reads this
    {
      && |voxels| >= 1
      && (forall p :: p in voxels ==> p in wasAboveWater)
      && 0 <= nextSprayNum < SpraySlots
    }

    /** The settings and derived constants a tick works with. */
    function Config(): TickConfig
      reads this`voxelHalfHeight, this`seaLevelOffset, this`archimedesPerVoxel, this`emitSprayOnCollision
    {
      TickConfig(voxelHalfHeight, seaLevelOffset, archimedesPerVoxel, emitSprayOnCollision, sprayPoolLoaded)
    }

    /**
     * Start: the half-height from the collider bounds, the voxels sliced from the
     * bounds (concave slicing only for a concave mesh collider) and welded down to
     * voxelsLimit, and the Archimedes force shared among the remaining voxels.
     * mass is the rigid body's mass at start-up; only the Archimedes share uses it.
     */
    constructor Start(density: real, slicesPerAxis: int, isConcave: bool, voxelsLimit: int, seaLevelOffset: real,
                      emitSprayOnCollision: bool, mass: real, sprayPrefabFound: bool,
                      bounds: Bounds, isMeshCollider: bool, inside: Vec3 -> bool, toLocal: Vec3 -> Vec3,
                      gravityY: real)
      requires slicesPerAxis >= 1 && density != 0.0
      ensures this.density == density && this.slicesPerAxis == slicesPerAxis && this.isConcave == isConcave
      ensures this.voxelsLimit == voxelsLimit && this.seaLevelOffset == seaLevelOffset
      ensures this.emitSprayOnCollision == emitSprayOnCollision
      ensures this.sprayPoolLoaded == sprayPrefabFound
      ensures voxelHalfHeight == VoxelHalfHeight(bounds.size, slicesPerAxis)
      ensures var sliced := Slice(bounds, slicesPerAxis, isMeshCollider && isConcave, inside, toLocal);
        (voxels, wasAboveWater) == Weld(sliced, MarkBelow(map[], sliced), voxelsLimit)
      ensures nextSprayNum == 0
      ensures Valid()
      ensures archimedesPerVoxel == ArchimedesPerVoxel(mass, density, gravityY, |voxels|)
    {
      this.density := density;
      this.slicesPerAxis := slicesPerAxis;
      this.isConcave := isConcave;
      this.voxelsLimit := voxelsLimit;
      this.seaLevelOffset := seaLevelOffset;
      this.emitSprayOnCollision := emitSprayOnCollision;
      this.sprayPoolLoaded := sprayPrefabFound;
      wasAboveWater := map[];
      nextSprayNum := 0;
      voxels := [];
      archimedesPerVoxel := 0.0;
      voxelHalfHeight := VoxelHalfHeight(bounds.size, slicesPerAxis);
      new;
      var concave := isMeshCollider && isConcave;
      var sliced := SliceIntoVoxels(bounds, concave, inside, toLocal);
      assert |sliced| >= 1 by {
        SliceNonEmpty(bounds, slicesPerAxis, concave, inside, toLocal);
      }
      WeldedCovered(sliced, voxelsLimit);
      voxels := sliced;
      WeldPoints(voxelsLimit);
      archimedesPerVoxel := ArchimedesPerVoxel(mass, density, gravityY, |voxels|);
    }

    /**
     * SliceIntoVoxels: the centres of the slicesPerAxis^3 grid cells, x outer, y
     * middle, z inner, in the body's local frame; in concave mode only those the
     * inside test accepts, or the bounds centre alone when it accepts none. Every
     * point produced is recorded as below water. A negative slicesPerAxis is
     * excluded: for most negative counts the list's capacity, slicesPerAxis^3 in
     * 32-bit arithmetic (Capacity), is negative and its constructor throws before
     * any cell is visited; the few whose cube wraps to a non-negative value run no
     * loop iteration, as 0 does.
     */
    method SliceIntoVoxels(bounds: Bounds, concave: bool, inside: Vec3 -> bool, toLocal: Vec3 -> Vec3)
      returns (points: seq<Vec3>)
      requires slicesPerAxis >= 0
      modifies this`wasAboveWater
      ensures points == Slice(bounds, slicesPerAxis, concave, inside, toLocal)
      ensures wasAboveWater == MarkBelow(old(wasAboveWater), points)
    {
      var r: nat := slicesPerAxis;
      points := [];
      var ix := 0;
      while ix < r
        invariant 0 <= ix <= r
        invariant points == KeptUpTo(bounds, r, concave, inside, toLocal, ix, 0, 0)
        invariant wasAboveWater == MarkBelow(old(wasAboveWater), points)
      {
        var iy := 0;
        while iy < r
          invariant 0 <= iy <= r
          invariant points == KeptUpTo(bounds, r, concave, inside, toLocal, ix, iy, 0)
          invariant wasAboveWater == MarkBelow(old(wasAboveWater), points)
        {
          var iz := 0;
          while iz < r
            invariant 0 <= iz <= r
            invariant points == KeptUpTo(bounds, r, concave, inside, toLocal, ix, iy, iz)
            invariant wasAboveWater == MarkBelow(old(wasAboveWater), points)
          {
            var p := toLocal(CellCentre(bounds, r, Cell(ix, iy, iz)));
            if !concave || inside(p) {
              MarkBelowSnoc(old(wasAboveWater), points, p);
              points := points + [p];
              wasAboveWater := wasAboveWater[p := false];
            }
            iz := iz + 1;
          }
          assert KeptUpTo(bounds, r, concave, inside, toLocal, ix, iy + 1, 0) == points;
          iy := iy + 1;
        }
        assert KeptUpTo(bounds, r, concave, inside, toLocal, ix + 1, 0, 0) == points;
        ix := ix + 1;
      }
      assert ix == r;
      ghost var kept := points;
      assert Slice(bounds, r, concave, inside, toLocal) == if concave && kept == [] then [bounds.Center()] else kept by {
        SliceOfKept(bounds, r, concave, inside, toLocal);
      }
      if concave && points == [] {
        MarkBelowSnoc(old(wasAboveWater), points, bounds.Center());
        points := points + [bounds.Center()];
        wasAboveWater := wasAboveWater[bounds.Center() := false];
      }
    }

    /**
     * FindClosestPoints: the nested i < j loops over every pair, keeping the first
     * pair whose distance is strictly below the best so far, starting from (0, 1)
     * at float.MaxValue.
     */
    static method FindClosestPoints(list: seq<Vec3>) returns (firstIndex: int, secondIndex: int)
      ensures (firstIndex, secondIndex) == ClosestPair(list)
      ensures HasComparablePair(list) ==> IsFirstClosest(list, firstIndex, secondIndex)
      ensures !HasComparablePair(list) ==> firstIndex == 0 && secondIndex == 1
    {
      var minDistance := MaxSqDistance;
      firstIndex, secondIndex := 0, 1;
      var i := 0;
      while i < |list| - 1
        invariant 0 <= i && 0 <= firstIndex < secondIndex && (|list| >= 2 ==> secondIndex < |list|)
        invariant Scan(list, i, i + 1, firstIndex, secondIndex, minDistance) == ClosestPair(list)
      {
        var j := i + 1;
        while j < |list|
          invariant i + 1 <= j <= |list|
          invariant 0 <= firstIndex < secondIndex && (|list| >= 2 ==> secondIndex < |list|)
          invariant Scan(list, i, j, firstIndex, secondIndex, minDistance) == ClosestPair(list)
        {
          var distance := SqDist(list[i], list[j]);
          if distance < minDistance {
            minDistance := distance;
            firstIndex := i;
            secondIndex := j;
          }
          j := j + 1;
        }
        i := i + 1;
      }
      ClosestPairCorrect(list);
    }

    /**
     * WeldPoints on the component's own voxel list and flag map: nothing for a
     * list of at most two points or a target below two; otherwise the closest pair
     * is replaced by its midpoint, recorded as below water, until the target count
     * is reached.
     */
    method WeldPoints(targetCount: int)
      modifies this`voxels, this`wasAboveWater
      ensures (voxels, wasAboveWater) == Weld(old(voxels), old(wasAboveWater), targetCount)
    {
      if |voxels| <= 2 || targetCount < 2 {
        return;
      }
      while |voxels| > targetCount
        invariant |voxels| >= 2
        invariant WeldLoop(voxels, wasAboveWater, targetCount) == Weld(old(voxels), old(wasAboveWater), targetCount)
        decreases |voxels|
      {
        var first, second := FindClosestPoints(voxels);
        var mixed := Midpoint(voxels[first], voxels[second]);
        voxels := RemoveAt(voxels, second);
        voxels := RemoveAt(voxels, first);
        voxels := voxels + [mixed];
        wasAboveWater := wasAboveWater[mixed := false];
      }
    }

    /**
     * FixedUpdate: every voxel in turn. A voxel whose bottom is below the water
     * level gets the damping force plus sqrt(k) times its Archimedes share, may throw
     * spray, and is flagged below water; any other voxel is flagged above water. An
     * exception (a voxel with no flag, a missing spray pool) ends the tick early.
     */
    method FixedUpdate(e: Env) returns (applied: seq<AppliedForce>, sprayed: seq<int>, faulted: bool)
      modifies this`wasAboveWater, this`nextSprayNum
      ensures var t := Tick(Config(), e, TickState(old(wasAboveWater), old(nextSprayNum), [], [], false), voxels);
        && wasAboveWater == t.flags && nextSprayNum == t.cursor
        && applied == t.forces && sprayed == t.sprays && faulted == t.faulted
      ensures old(Valid()) ==> Valid()
      ensures old(Valid()) && (sprayPoolLoaded || !emitSprayOnCollision) ==> !faulted
    {
      ghost var c := Config();
      ghost var st0 := TickState(wasAboveWater, nextSprayNum, [], [], false);
      applied, sprayed, faulted := [], [], false;
      var i := 0;
      while i < |voxels|
        invariant 0 <= i <= |voxels|
        invariant Tick(c, e, st0, voxels[..i]) == TickState(wasAboveWater, nextSprayNum, applied, sprayed, false)
      {
        var point := voxels[i];
        ghost var prev := TickState(wasAboveWater, nextSprayNum, applied, sprayed, false);
        ghost var next := VoxelStep(c, e, prev, point);
        assert Tick(c, e, st0, voxels[..i + 1]) == next by {
          TickSnoc(c, e, st0, voxels, i);
        }
        var wp := e.toWorld(point);
        var waterLevel := WaterLevel(e.ocean, seaLevelOffset, wp.x, wp.z);
        if wp.y - voxelHalfHeight < waterLevel {
          assert Submerged(Config(), e, point);
          var force := VoxelForce(Config(), e, point);
          applied := applied + [AppliedForce(wp, force)];
          if emitSprayOnCollision && point !in wasAboveWater {
            faulted := true;
            assert next == TickState(wasAboveWater, nextSprayNum, applied, sprayed, true);
            break;
          }
          if emitSprayOnCollision && wasAboveWater[point] && Abs(force.y) > ImpactThreshold {
            assert Impact(c, e, prev.flags, point);
            if !sprayPoolLoaded || !(0 <= nextSprayNum < SpraySlots) {
              faulted := true;
              assert next == TickState(wasAboveWater, nextSprayNum, applied, sprayed, true);
              break;
            }
            sprayed := sprayed + [nextSprayNum];
            nextSprayNum := nextSprayNum + 1;
            if nextSprayNum >= SpraySlots {
              nextSprayNum := 0;
            }
            assert nextSprayNum == NextSprayNum(prev.cursor);
          } else {
            assert !Impact(c, e, prev.flags, point);
          }
          wasAboveWater := wasAboveWater[point := false];
          assert next == TickState(wasAboveWater, nextSprayNum, applied, sprayed, false);
        } else {
          wasAboveWater := wasAboveWater[point := true];
          assert next == TickState(wasAboveWater, nextSprayNum, applied, sprayed, false);
        }
        i := i + 1;
      }
      if faulted {
        TickAfterFault(c, e, st0, voxels, i + 1);
      } else {
        assert voxels[..i] == voxels;
      }
      if (forall p :: p in voxels ==> p in st0.flags) && 0 <= st0.cursor < SpraySlots {
        TickKeepsValid(c, e, st0, voxels);
      }
    }
  }
}

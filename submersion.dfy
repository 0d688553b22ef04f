/**
 * The per-tick buoyancy step of Buoyancy.cs, with the engine around it reduced
 * to parameters: the local-to-world transform, the ocean height oracle, the
 * point-velocity query and the square root are inputs; the forces handed to
 * AddForceAtPosition and the spray slots triggered are outputs. Also the two
 * derived constants of Start: the voxel half-height and the per-voxel
 * Archimedes force.
 */
module Submersion {
  import opened Vectors

  /** DAMPFER, the velocity damping factor. */
  const Dampfer: real := 0.1

  /** WATER_DENSITY. */
  const WaterDensity: real := 1000.0

  /** NUM_SPRAY_SYSTEMS, the size of the spray pool. */
  const SpraySlots: int := 20

  /** The force magnitude above which a voxel entering the water throws spray. */
  const ImpactThreshold: real := 300.0

  /** The ocean the component found at start-up: Triton with its height field, or none. */
  datatype Ocean = NoOcean | Triton(height: (real, real) -> real)

  /** GetWaterLevel: the ocean height plus the sea-level offset, or the offset alone. */
  function WaterLevel(ocean: Ocean, seaLevelOffset: real, x: real, z: real): real
  {
    match ocean
    case Triton(height) => height(x, z) + seaLevelOffset
    case NoOcean => seaLevelOffset
  }

  /**
   * The sea-level offset moves the water surface by exactly its own amount,
   * everywhere. Without Triton the surface is flat: the same at every (x, z).
   */
  lemma WaterLevelOffset(ocean: Ocean, offset: real, delta: real, x: real, z: real, x': real, z': real)
    ensures WaterLevel(ocean, offset + delta, x, z) == WaterLevel(ocean, offset, x, z) + delta
    ensures ocean.NoOcean? ==> WaterLevel(ocean, offset, x, z) == WaterLevel(ocean, offset, x', z')
  {
  }

  /** The smallest of the three box extents, picked by the comparisons of Start. */
  function MinExtent(size: Vec3): (m: real)
    ensures m <= size.x && m <= size.y && m <= size.z
    ensures m == size.x || m == size.y || m == size.z
  {
    var xy := if size.x < size.y then size.x else size.y;
    if size.z < xy then size.z else xy
  }

  /**
   * voxelHalfHeight: the smallest extent divided by 2 * slicesPerAxis, so that
   * 2 * slicesPerAxis voxel half-heights span exactly the thinnest side of the box.
   */
  function VoxelHalfHeight(size: Vec3, slicesPerAxis: int): (h: real)
    requires slicesPerAxis != 0
    ensures h * (2 * slicesPerAxis) as real == MinExtent(size)
  {
    MinExtent(size) / (2 * slicesPerAxis) as real
  }

  /** With positive slices the half-height fits every extent: no voxel is taller than the box. */
  lemma HalfHeightFits(size: Vec3, slicesPerAxis: int)
    requires slicesPerAxis >= 1
    ensures var h := VoxelHalfHeight(size, slicesPerAxis);
      h * (2 * slicesPerAxis) as real <= size.x &&
      h * (2 * slicesPerAxis) as real <= size.y &&
      h * (2 * slicesPerAxis) as real <= size.z
  {
  }

  /**
   * The submersion fraction k of a voxel whose bottom is below the water level:
   * (waterLevel - y) / (2 h) + 0.5 clamped into [0, 1]. With h == 0 the float
   * division gives +infinity (the level is above y), which the clamp turns into 1.
   */
  function SubmersionFraction(level: real, y: real, h: real): (k: real)
    requires y - h < level
    ensures 0.0 <= k <= 1.0
    ensures h > 0.0 && y + h <= level ==> k == 1.0
    ensures h > 0.0 && level < y + h ==> k * (2.0 * h) == level - (y - h)
    ensures h == 0.0 ==> k == 1.0
  {
    if h == 0.0 then 1.0
    else
      var raw := (level - y) / (2.0 * h) + 0.5;
      assert raw * (2.0 * h) == level - (y - h);
      assert h > 0.0 && y + h <= level ==> raw >= 1.0 by {
        if h > 0.0 && y + h <= level {
          QuotientAtLeast(level - y, 2.0 * h, 0.5);
        }
      }
      if raw > 1.0 then 1.0 else if raw < 0.0 then 0.0 else raw
  }

  /** A quotient by a positive divisor is at least c when the dividend is at least c times the divisor. */
  lemma QuotientAtLeast(a: real, d: real, c: real)
    requires d > 0.0 && a >= c * d
    ensures a / d >= c
  {
    assert a / d * d == a;
  }

  /** Advancing the spray cursor: one on, back to slot 0 after the last slot. */
  function NextSprayNum(cursor: int): (next: int)
    ensures 0 <= cursor < SpraySlots ==> 0 <= next < SpraySlots && next == (cursor + 1) % SpraySlots
  {
    var n := cursor + 1;
    if n >= SpraySlots then 0 else n
  }

  /**
   * The y component of localArchimedesForce: the weight of the water the body
   * displaces (WATER_DENSITY * |g| * mass / density) shared evenly among the voxels.
   */
  function ArchimedesPerVoxel(mass: real, density: real, gravityY: real, count: nat): (f: real)
    requires density != 0.0 && count > 0
    ensures f * count as real == WaterDensity * Abs(gravityY) * (mass / density)
  {
    WaterDensity * Abs(gravityY) * (mass / density) / count as real
  }

  /**
   * A body of mass 1000 and density 500 (volume 2) under gravity -9.8, sliced into
   * 8 voxels: WATER_DENSITY makes each voxel's share 1000 * 9.8 * 2 / 8 = 2450.
   */
  lemma CubeShare()
    ensures ArchimedesPerVoxel(1000.0, 500.0, -9.8, 8) == 2450.0
  {
  }

  /**
   * The engine inputs of one FixedUpdate: the transform, the ocean, the point
   * velocity query, the rigid body's mass as read during this tick, and the
   * square root.
   */
  datatype Env = Env(
    toWorld: Vec3 -> Vec3,
    ocean: Ocean,
    velocityY: Vec3 -> real,
    mass: real,
    sqrt: real -> real)

  /** The component's settings and the constants Start derived. */
  datatype TickConfig = TickConfig(
    halfHeight: real,
    seaLevelOffset: real,
    archimedesPerVoxel: real,
    emitSprayOnCollision: bool,
    sprayPoolLoaded: bool)

  /** A force handed to AddForceAtPosition, at a world position. */
  datatype AppliedForce = AppliedForce(position: Vec3, force: Vec3)

  /**
   * What a tick has done so far: the above-water flags, the spray cursor, the
   * forces applied, the spray slots triggered, and whether an exception ended it.
   */
  datatype TickState = TickState(
    flags: map<Vec3, bool>,
    cursor: int,
    forces: seq<AppliedForce>,
    sprays: seq<int>,
    faulted: bool)

  /** The voxel's world position. */
  function WorldPoint(e: Env, point: Vec3): Vec3
  {
    e.toWorld(point)
  }

  /** The voxel's bottom is below the water level at its (x, z). */
  predicate Submerged(c: TickConfig, e: Env, point: Vec3)
  {
    var wp := WorldPoint(e, point);
    wp.y - c.halfHeight < WaterLevel(e.ocean, c.seaLevelOffset, wp.x, wp.z)
  }

  /** The force on a submerged voxel: vertical damping plus sqrt(k) times the Archimedes share. */
  function VoxelForce(c: TickConfig, e: Env, point: Vec3): (f: Vec3)
    requires Submerged(c, e, point)
    ensures f.x == 0.0 && f.z == 0.0
  {
    var wp := WorldPoint(e, point);
    var k := SubmersionFraction(WaterLevel(e.ocean, c.seaLevelOffset, wp.x, wp.z), wp.y, c.halfHeight);
    Vec3(0.0, -e.velocityY(wp) * Dampfer * e.mass + e.sqrt(k) * c.archimedesPerVoxel, 0.0)
  }

  /** The force is vertical, so its magnitude is the size of its y component. */
  function Magnitude(f: Vec3): real
    requires f.x == 0.0 && f.z == 0.0
  {
    Abs(f.y)
  }

  /** The impact test: spraying is on, the voxel was above water, and the force is large. */
  predicate Impact(c: TickConfig, e: Env, flags: map<Vec3, bool>, point: Vec3)
    requires Submerged(c, e, point) && (c.emitSprayOnCollision ==> point in flags)
  {
    c.emitSprayOnCollision && flags[point] && Magnitude(VoxelForce(c, e, point)) > ImpactThreshold
  }

  /**
   * One pass of the FixedUpdate loop over a voxel. A submerged voxel gets its force,
   * may throw spray from the next pool slot, and is flagged below water; any other
   * voxel is flagged above water. Reading the flag of a voxel with no entry, or a
   * spray slot of a pool that was never loaded, throws and ends the tick.
   */
  function VoxelStep(c: TickConfig, e: Env, st: TickState, point: Vec3): (r: TickState)
    ensures r.flags.Keys <= st.flags.Keys + {point}
    ensures st.flags.Keys <= r.flags.Keys
    ensures 0 <= st.cursor < SpraySlots ==> 0 <= r.cursor < SpraySlots
  {
    if Submerged(c, e, point) then
      var force := VoxelForce(c, e, point);
      var applied := st.(forces := st.forces + [AppliedForce(WorldPoint(e, point), force)]);
      if c.emitSprayOnCollision && point !in st.flags then
        applied.(faulted := true)
      else if Impact(c, e, st.flags, point) then
        if !c.sprayPoolLoaded || !(0 <= st.cursor < SpraySlots) then
          applied.(faulted := true)
        else
          applied.(flags := st.flags[point := false], cursor := NextSprayNum(st.cursor), sprays := st.sprays + [st.cursor])
      else
        applied.(flags := st.flags[point := false])
    else
      st.(flags := st.flags[point := true])
  }

  /** The FixedUpdate loop over the voxels pts; an exception skips the rest of the voxels. */
  function Tick(c: TickConfig, e: Env, st: TickState, pts: seq<Vec3>): TickState
  {
    if pts == [] then st
    else
      var prev := Tick(c, e, st, pts[..|pts| - 1]);
      if prev.faulted then prev else VoxelStep(c, e, prev, pts[|pts| - 1])
  }

  /**
   * The flag update of one voxel: when the step completes, the voxel is flagged
   * below water exactly when it is submerged, and every other flag is unchanged.
   */
  lemma VoxelStepFlags(c: TickConfig, e: Env, st: TickState, point: Vec3)
    requires !VoxelStep(c, e, st, point).faulted
    ensures point in VoxelStep(c, e, st, point).flags
    ensures VoxelStep(c, e, st, point).flags[point] == !Submerged(c, e, point)
    ensures forall q :: q != point && q in st.flags ==> VoxelStep(c, e, st, point).flags[q] == st.flags[q]
  {
  }

  /**
   * The spray gate: a spray fires, from the slot under the cursor, exactly when the
   * voxel is submerged and the impact test passes with a loaded pool; the cursor
   * advances exactly then.
   */
  lemma VoxelStepSpray(c: TickConfig, e: Env, st: TickState, point: Vec3)
    requires !st.faulted && 0 <= st.cursor < SpraySlots
    requires !VoxelStep(c, e, st, point).faulted
    ensures var r := VoxelStep(c, e, st, point);
      var fires := Submerged(c, e, point) && (c.emitSprayOnCollision ==> point in st.flags) && Impact(c, e, st.flags, point);
      && (fires ==> r.sprays == st.sprays + [st.cursor] && r.cursor == (st.cursor + 1) % SpraySlots)
      && (!fires ==> r.sprays == st.sprays && r.cursor == st.cursor)
  {
  }

  /**
   * A voxel gets a force exactly when it is submerged, at its world position; a
   * voxel above water gets none.
   */
  lemma VoxelStepForce(c: TickConfig, e: Env, st: TickState, point: Vec3)
    ensures Submerged(c, e, point) ==>
      VoxelStep(c, e, st, point).forces == st.forces + [AppliedForce(WorldPoint(e, point), VoxelForce(c, e, point))]
    ensures !Submerged(c, e, point) ==> VoxelStep(c, e, st, point).forces == st.forces
  {
  }

  /** Once an exception has ended the tick, the remaining voxels change nothing. */
  lemma {:induction false} TickAfterFault(c: TickConfig, e: Env, st: TickState, pts: seq<Vec3>, n: nat)
    requires n <= |pts| && Tick(c, e, st, pts[..n]).faulted
    ensures Tick(c, e, st, pts) == Tick(c, e, st, pts[..n])
    decreases |pts| - n
  {
    if n < |pts| {
      assert pts[..n + 1][..n] == pts[..n];
      TickAfterFault(c, e, st, pts, n + 1);
    } else {
      assert pts[..n] == pts;
    }
  }

  /** The tick over one more voxel is one more step, unless the tick had already ended. */
  lemma TickSnoc(c: TickConfig, e: Env, st: TickState, pts: seq<Vec3>, n: nat)
    requires n < |pts|
    ensures var prev := Tick(c, e, st, pts[..n]);
      Tick(c, e, st, pts[..n + 1]) == if prev.faulted then prev else VoxelStep(c, e, prev, pts[n])
  {
    assert pts[..n + 1][..n] == pts[..n];
  }

  /** Over a whole tick the spray cursor stays within the pool. */
  lemma {:induction false} TickCursor(c: TickConfig, e: Env, st: TickState, pts: seq<Vec3>)
    requires 0 <= st.cursor < SpraySlots
    ensures 0 <= Tick(c, e, st, pts).cursor < SpraySlots
  {
    if pts != [] {
      TickCursor(c, e, st, pts[..|pts| - 1]);
    }
  }

  /**
   * Over a whole tick flags are only ever added, and a tick that started without an exception and completes has
   * flagged every voxel: below water exactly when it is submerged.
   */
  lemma {:induction false} TickFlags(c: TickConfig, e: Env, st: TickState, pts: seq<Vec3>)
    requires !st.faulted
    ensures st.flags.Keys <= Tick(c, e, st, pts).flags.Keys
    ensures !Tick(c, e, st, pts).faulted ==>
      forall p :: p in pts ==> p in Tick(c, e, st, pts).flags && Tick(c, e, st, pts).flags[p] == !Submerged(c, e, p)
    ensures !Tick(c, e, st, pts).faulted ==>
      forall q :: q in st.flags && q !in pts ==> Tick(c, e, st, pts).flags[q] == st.flags[q]
  {
    if pts != [] {
      var init := pts[..|pts| - 1];
      var last := pts[|pts| - 1];
      assert pts == init + [last];
      TickFlags(c, e, st, init);
      var prev := Tick(c, e, st, init);
      if !prev.faulted {
        var r := VoxelStep(c, e, prev, last);
        if !r.faulted {
          VoxelStepFlags(c, e, prev, last);
          forall p | p in pts
            ensures p in r.flags && r.flags[p] == !Submerged(c, e, p)
          {
            if p != last {
              assert p in init;
            }
          }
        }
      }
    }
  }

  /**
   * The sprays of r continue those of st round-robin: the i-th new spray comes
   * from slot (cursor + i) mod 20, and the cursor ends that many slots further on.
   */
  ghost predicate RoundRobin(st: TickState, r: TickState)
  {
    && |st.sprays| <= |r.sprays|
    && r.sprays[..|st.sprays|] == st.sprays
    && (forall i :: |st.sprays| <= i < |r.sprays| ==> r.sprays[i] == (st.cursor + (i - |st.sprays|)) % SpraySlots)
    && r.cursor == (st.cursor + (|r.sprays| - |st.sprays|)) % SpraySlots
  }

  /** One more spray from the slot under the cursor, or none, keeps the round-robin order. */
  lemma RoundRobinStep(st: TickState, prev: TickState, r: TickState)
    requires 0 <= st.cursor < SpraySlots && RoundRobin(st, prev)
    requires || (r.sprays == prev.sprays + [prev.cursor] && r.cursor == (prev.cursor + 1) % SpraySlots)
             || (r.sprays == prev.sprays && r.cursor == prev.cursor)
    ensures RoundRobin(st, r)
  {
    if r.sprays != prev.sprays {
      assert r.sprays[..|st.sprays|] == prev.sprays[..|st.sprays|];
    }
  }

  /** The spray pool is used round-robin over a whole tick, at most one spray per voxel. */
  lemma {:induction false} TickSprays(c: TickConfig, e: Env, st: TickState, pts: seq<Vec3>)
    requires !st.faulted && 0 <= st.cursor < SpraySlots
    ensures RoundRobin(st, Tick(c, e, st, pts))
    ensures |Tick(c, e, st, pts).sprays| <= |st.sprays| + |pts|
  {
    if pts != [] {
      var init := pts[..|pts| - 1];
      TickSprays(c, e, st, init);
      TickCursor(c, e, st, init);
      var prev := Tick(c, e, st, init);
      var r := VoxelStep(c, e, prev, pts[|pts| - 1]);
      if !prev.faulted && !r.faulted {
        VoxelStepSpray(c, e, prev, pts[|pts| - 1]);
        RoundRobinStep(st, prev, r);
      }
    } else {
      assert st.sprays[..|st.sprays|] == st.sprays;
    }
  }

  /**
   * A tick cannot throw when spraying is off, or when the pool is loaded and every
   * voxel has a flag: the exceptions the model records are the missing flag and
   * the missing pool.
   */
  lemma {:induction false} TickNeverFaults(c: TickConfig, e: Env, st: TickState, pts: seq<Vec3>)
    requires !st.faulted && 0 <= st.cursor < SpraySlots
    requires !c.emitSprayOnCollision || (c.sprayPoolLoaded && forall p :: p in pts ==> p in st.flags)
    ensures !Tick(c, e, st, pts).faulted
  {
    if pts != [] {
      var init := pts[..|pts| - 1];
      assert forall p :: p in init ==> p in pts;
      TickNeverFaults(c, e, st, init);
      TickFlags(c, e, st, init);
      TickCursor(c, e, st, init);
    }
  }
}

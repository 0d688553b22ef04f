/**
 * The voxelizer of Buoyancy.cs: the grid of cell centres over the collider's
 * bounds, visited x-outer, y-middle, z-inner, optionally filtered by the
 * point-in-hull test, with the bounds centre as the fallback of an empty concave
 * slicing. This is the specification the component's SliceIntoVoxels is proved
 * against.
 */
module Slicing {
  import opened Vectors

  /** The collider's axis-aligned bounds, by minimum corner and size. */
  datatype Bounds = Bounds(min: Vec3, size: Vec3)
  {
    function Center(): Vec3
    {
      Add(min, Scale(size, 0.5))
    }
  }

  /** A cell of the slicing grid, by its index along x, y and z. */
  datatype Cell = Cell(ix: nat, iy: nat, iz: nat)

  /** The centre of a cell: min + size / r * (0.5 + i) on each axis. */
  function CellCentre(b: Bounds, r: nat, c: Cell): Vec3
    requires r > 0
  {
    Vec3(b.min.x + b.size.x / (r as real) * (0.5 + c.ix as real),
         b.min.y + b.size.y / (r as real) * (0.5 + c.iy as real),
         b.min.z + b.size.z / (r as real) * (0.5 + c.iz as real))
  }

  /** The blocks bs laid end to end, in order. */
  function Concat(bs: seq<seq<Cell>>): seq<Cell>
  {
    if bs == [] then [] else Concat(bs[..|bs| - 1]) + bs[|bs| - 1]
  }

  /** The first n cells of the z-row (ix, iy). */
  function Row(ix: nat, iy: nat, n: nat): seq<Cell>
  {
    seq(n, iz requires 0 <= iz => Cell(ix, iy, iz))
  }

  /** The first n full rows of the y-plane ix. */
  function Rows(r: nat, ix: nat, n: nat): seq<seq<Cell>>
  {
    seq(n, iy requires 0 <= iy => Row(ix, iy, r))
  }

  /** The cells of the first n rows of the y-plane ix, each r cells long. */
  function Plane(r: nat, ix: nat, n: nat): seq<Cell>
  {
    Concat(Rows(r, ix, n))
  }

  /** The first n full planes of the grid. */
  function Planes(r: nat, n: nat): seq<seq<Cell>>
  {
    seq(n, ix requires 0 <= ix => Plane(r, ix, r))
  }

  /** The cells of the first n planes of the grid, each r by r cells. */
  function Layers(r: nat, n: nat): seq<Cell>
  {
    Concat(Planes(r, n))
  }

  /** The value of n in 32-bit two's-complement int arithmetic, which wraps around. */
  function Int32(n: int): (w: int)
    ensures -0x8000_0000 <= w < 0x8000_0000
    ensures (n - w) % 0x1_0000_0000 == 0
  {
    var m := n % 0x1_0000_0000;
    if m < 0x8000_0000 then m else m - 0x1_0000_0000
  }

  /** The capacity SliceIntoVoxels gives its point list: slicesPerAxis cubed, as a 32-bit int. */
  function Capacity(slicesPerAxis: int): int
  {
    Int32(slicesPerAxis * slicesPerAxis * slicesPerAxis)
  }

  /** A value already within the 32-bit range is its own 32-bit value. */
  lemma Int32InRange(m: int)
    requires -0x8000_0000 <= m < 0x8000_0000
    ensures Int32(m) == m
  {
  }

  /** Multiplying by a non-negative factor keeps the order of non-negative numbers. */
  lemma MulMonotone(x: int, y: int, k: int)
    requires 0 <= x <= y && 0 <= k
    ensures x * k <= y * k
  {
  }

  /** Up to 1290 slices, either way, the capacity is the exact cube, with no wrap-around. */
  lemma CapacityExact(n: int)
    requires -1290 <= n <= 1290
    ensures Capacity(n) == n * n * n
  {
    var a := if n < 0 then -n else n;
    var sq := a * a;
    MulMonotone(a, 1290, a);
    MulMonotone(a, 1290, 1290);
    var cube := sq * a;
    MulMonotone(a, 1290, sq);
    MulMonotone(sq, 1_664_100, 1290);
    assert n * n * n == cube || n * n * n == -cube;
    Int32InRange(n * n * n);
  }

  /** A value in the upper half of the 32-bit unsigned range wraps to a negative int, and its negation to a non-negative one. */
  lemma Int32Wrapped(m: int)
    requires 0x8000_0000 < m < 0x1_0000_0000
    ensures Int32(m) == m - 0x1_0000_0000 < 0
    ensures Int32(-m) == 0x1_0000_0000 - m >= 0
  {
    assert -m == (0x1_0000_0000 - m) - 0x1_0000_0000;
  }

  /**
   * Past 1290 the cube wraps: for 1291 to 1625 slices the capacity is negative,
   * and for -1291 to -1625 it is non-negative. Further out it keeps wrapping, to
   * a non-negative value at 1626 and to 0 at -2048.
   */
  lemma CapacityWraps(n: int)
    requires 1291 <= n <= 1625
    ensures Capacity(n) < 0 && Capacity(-n) >= 0
    ensures Capacity(1626) >= 0 && Capacity(-2048) == 0
  {
    var sq := n * n;
    MulMonotone(1291, n, 1291);
    MulMonotone(1291, n, n);
    MulMonotone(n, 1625, n);
    MulMonotone(n, 1625, 1625);
    var cube := sq * n;
    MulMonotone(1_666_681, sq, 1291);
    MulMonotone(1291, n, sq);
    MulMonotone(sq, 2_640_625, n);
    MulMonotone(n, 1625, 2_640_625);
    assert (-n) * (-n) * (-n) == -cube;
    Int32Wrapped(cube);
  }

  /**
   * Every cell in loop order (x outer, y middle, z inner), for r iterations per
   * axis: none when r is 0. A negative slicesPerAxis would also run no iteration,
   * but for most negative counts the list capacity makes SliceIntoVoxels throw
   * first (see Capacity).
   */
  function Cells(r: nat): seq<Cell>
  {
    if r == 0 then [] else Layers(r, r)
  }

  /** The centres of the cells cs, carried into the body's local frame. */
  function Centres(b: Bounds, r: nat, toLocal: Vec3 -> Vec3, cs: seq<Cell>): (ps: seq<Vec3>)
    requires r > 0
    ensures |ps| == |cs|
  {
    if cs == [] then []
    else
      var last := cs[|cs| - 1];
      assert cs == cs[..|cs| - 1] + [last];
      Centres(b, r, toLocal, cs[..|cs| - 1]) + [toLocal(CellCentre(b, r, last))]
  }

  /** Point i of the centres is cell i's centre, carried into the local frame. */
  lemma {:induction false} CentresAt(b: Bounds, r: nat, toLocal: Vec3 -> Vec3, cs: seq<Cell>)
    requires r > 0
    ensures forall i :: 0 <= i < |cs| ==> Centres(b, r, toLocal, cs)[i] == toLocal(CellCentre(b, r, cs[i]))
  {
    if cs != [] {
      var init := cs[..|cs| - 1];
      CentresAt(b, r, toLocal, init);
      assert cs == init + [cs[|cs| - 1]];
    }
  }

  /** Every candidate point in loop order. */
  function Grid(b: Bounds, r: nat, toLocal: Vec3 -> Vec3): seq<Vec3>
  {
    if r == 0 then [] else Centres(b, r, toLocal, Cells(r))
  }

  /** The points of s that keep accepts, in their order in s. */
  function Filter(s: seq<Vec3>, keep: Vec3 -> bool): (r: seq<Vec3>)
    ensures |r| <= |s|
    ensures forall x :: x in r <==> x in s && keep(x)
  {
    if s == [] then []
    else
      var last := s[|s| - 1];
      assert s == s[..|s| - 1] + [last];
      Filter(s[..|s| - 1], keep) + (if keep(last) then [last] else [])
  }

  /**
   * The points the slicing loops have produced after visiting the cells cs, one
   * cell at a time: its centre, kept unless concave slicing rejects it.
   */
  function Kept(b: Bounds, r: nat, concave: bool, inside: Vec3 -> bool, toLocal: Vec3 -> Vec3, cs: seq<Cell>): seq<Vec3>
    requires r > 0
  {
    if cs == [] then []
    else
      var p := toLocal(CellCentre(b, r, cs[|cs| - 1]));
      Kept(b, r, concave, inside, toLocal, cs[..|cs| - 1]) + (if !concave || inside(p) then [p] else [])
  }

  /**
   * The points the slicing loops have produced before cell (ix, iy, iz): each
   * earlier cell in loop order (x outer, y middle, z inner) contributes its centre
   * unless concave slicing rejects it. Nothing when there are no slices.
   */
  function KeptUpTo(b: Bounds, r: nat, concave: bool, inside: Vec3 -> bool, toLocal: Vec3 -> Vec3, ix: nat, iy: nat, iz: nat): seq<Vec3>
    decreases ix, iy, iz
  {
    if r == 0 then []
    else if iz > 0 then
      var p := toLocal(CellCentre(b, r, Cell(ix, iy, iz - 1)));
      KeptUpTo(b, r, concave, inside, toLocal, ix, iy, iz - 1) + (if !concave || inside(p) then [p] else [])
    else if iy > 0 then KeptUpTo(b, r, concave, inside, toLocal, ix, iy - 1, r)
    else if ix > 0 then KeptUpTo(b, r, concave, inside, toLocal, ix - 1, r, 0)
    else []
  }

  /**
   * SliceIntoVoxels: in concave mode the grid points the inside test accepts, or
   * the bounds centre alone when it accepts none; otherwise the whole grid.
   */
  function Slice(b: Bounds, r: nat, concave: bool, inside: Vec3 -> bool, toLocal: Vec3 -> Vec3): seq<Vec3>
  {
    if concave then
      var kept := Filter(Grid(b, r, toLocal), inside);
      if kept == [] then [b.Center()] else kept
    else Grid(b, r, toLocal)
  }

  /** The flag map m with every point of ps, in turn, recorded as below water. */
  function MarkBelow(m: map<Vec3, bool>, ps: seq<Vec3>): map<Vec3, bool>
  {
    if ps == [] then m else MarkBelow(m, ps[..|ps| - 1])[ps[|ps| - 1] := false]
  }

  /** a blocks of c cells, counted by repeated addition so the index lemmas stay linear. */
  function Times(a: nat, c: nat): nat
  {
    if a == 0 then 0 else Times(a - 1, c) + c
  }

  lemma {:induction false} TimesIsProduct(a: nat, c: nat)
    ensures Times(a, c) == a * c
  {
    if a > 0 {
      TimesIsProduct(a - 1, c);
      assert a * c == (a - 1) * c + c;
    }
  }

  /** a full blocks of c plus one more fit within b blocks when a < b. */
  lemma {:induction false} BlocksFit(a: nat, b: nat, c: nat)
    requires a < b
    ensures Times(a, c) + c <= Times(b, c)
    decreases b
  {
    if a < b - 1 {
      BlocksFit(a, b - 1, c);
    }
  }

  /** Appending one block to the list appends its cells. */
  lemma ConcatSnoc(bs: seq<seq<Cell>>, last: seq<Cell>)
    ensures Concat(bs + [last]) == Concat(bs) + last
  {
    assert (bs + [last])[..|bs|] == bs;
  }

  /** Blocks of c cells each laid end to end hold |bs| * c cells. */
  lemma {:induction false} ConcatLength(bs: seq<seq<Cell>>, c: nat)
    requires forall i :: 0 <= i < |bs| ==> |bs[i]| == c
    ensures |Concat(bs)| == Times(|bs|, c)
  {
    if bs != [] {
      ConcatLength(bs[..|bs| - 1], c);
    }
  }

  /** Cell j of block i sits at position i * c + j. */
  lemma {:induction false} ConcatAt(bs: seq<seq<Cell>>, c: nat, i: nat, j: nat)
    requires forall k :: 0 <= k < |bs| ==> |bs[k]| == c
    requires i < |bs| && j < c
    ensures Times(i, c) + j < |Concat(bs)|
    ensures Concat(bs)[Times(i, c) + j] == bs[i][j]
  {
    var init := bs[..|bs| - 1];
    ConcatLength(init, c);
    ConcatLength(bs, c);
    if i < |bs| - 1 {
      ConcatAt(init, c, i, j);
      BlocksFit(i, |bs| - 1, c);
    }
  }

  /** Every plane of the grid holds r * r cells. */
  lemma PlanesUniform(r: nat, n: nat)
    ensures forall x :: 0 <= x < n ==> |Planes(r, n)[x]| == Times(r, r)
  {
    forall x | 0 <= x < n
      ensures |Planes(r, n)[x]| == Times(r, r)
    {
      ConcatLength(Rows(r, x, r), r);
    }
  }

  /** The whole grid holds r planes of r * r cells. */
  lemma LayersLength(r: nat)
    ensures |Layers(r, r)| == Times(r, Times(r, r))
  {
    PlanesUniform(r, r);
    ConcatLength(Planes(r, r), Times(r, r));
  }

  /** Row iy of a plane starts at iy * r. */
  lemma PlaneAt(r: nat, ix: nat, iy: nat, iz: nat)
    requires iy < r && iz < r
    ensures Times(iy, r) + iz < Times(r, r)
    ensures Times(iy, r) + iz < |Plane(r, ix, r)|
    ensures Plane(r, ix, r)[Times(iy, r) + iz] == Cell(ix, iy, iz)
  {
    ConcatAt(Rows(r, ix, r), r, iy, iz);
    BlocksFit(iy, r, r);
  }

  /** Plane ix of the grid starts at ix * r * r. */
  lemma LayersAt(r: nat, ix: nat, iy: nat, iz: nat)
    requires ix < r && iy < r && iz < r
    ensures Times(ix, Times(r, r)) + Times(iy, r) + iz < |Layers(r, r)|
    ensures Layers(r, r)[Times(ix, Times(r, r)) + Times(iy, r) + iz] == Cell(ix, iy, iz)
  {
    var planes, c, k := Planes(r, r), Times(r, r), Times(iy, r) + iz;
    assert k < c && planes[ix][k] == Cell(ix, iy, iz) by {
      PlaneAt(r, ix, iy, iz);
    }
    assert Times(ix, c) + k < |Concat(planes)| && Concat(planes)[Times(ix, c) + k] == planes[ix][k] by {
      PlanesUniform(r, r);
      ConcatAt(planes, c, ix, k);
    }
    assert Layers(r, r) == Concat(planes);
  }

  lemma RowSnoc(ix: nat, iy: nat, n: nat)
    ensures Row(ix, iy, n + 1) == Row(ix, iy, n) + [Cell(ix, iy, n)]
  {
  }

  lemma PlaneSnoc(r: nat, ix: nat, n: nat)
    ensures Plane(r, ix, n + 1) == Plane(r, ix, n) + Row(ix, n, r)
  {
    assert Rows(r, ix, n + 1) == Rows(r, ix, n) + [Row(ix, n, r)];
    ConcatSnoc(Rows(r, ix, n), Row(ix, n, r));
  }

  lemma LayersSnoc(r: nat, n: nat)
    ensures Layers(r, n + 1) == Layers(r, n) + Plane(r, n, r)
  {
    assert Planes(r, n + 1) == Planes(r, n) + [Plane(r, n, r)];
    ConcatSnoc(Planes(r, n), Plane(r, n, r));
  }

  /** Before the first plane, row or cell of a loop nothing has been visited. */
  lemma NoCells(r: nat, ix: nat, iy: nat)
    ensures Layers(r, 0) == [] && Plane(r, ix, 0) == [] && Row(ix, iy, 0) == []
  {
    assert Planes(r, 0) == [];
    assert Rows(r, ix, 0) == [];
  }

  /** The cells the slicing loops visit before cell (ix, iy, iz), in loop order. */
  function Visited(r: nat, ix: nat, iy: nat, iz: nat): seq<Cell>
  {
    Layers(r, ix) + Plane(r, ix, iy) + Row(ix, iy, iz)
  }

  /** Visiting cell (ix, iy, iz) appends it to the visited cells. */
  lemma VisitCell(r: nat, ix: nat, iy: nat, iz: nat)
    ensures Visited(r, ix, iy, iz + 1) == Visited(r, ix, iy, iz) + [Cell(ix, iy, iz)]
  {
    RowSnoc(ix, iy, iz);
  }

  /** The cells visited at the end of row iy are those at the start of row iy + 1. */
  lemma VisitRow(r: nat, ix: nat, iy: nat)
    ensures Visited(r, ix, iy, r) == Visited(r, ix, iy + 1, 0)
  {
    PlaneSnoc(r, ix, iy);
    NoCells(r, ix, iy + 1);
    assert Layers(r, ix) + Plane(r, ix, iy + 1) + [] == Layers(r, ix) + Plane(r, ix, iy + 1);
  }

  /** The cells visited at the end of plane ix are those at the start of plane ix + 1. */
  lemma VisitPlane(r: nat, ix: nat)
    ensures Visited(r, ix, r, 0) == Visited(r, ix + 1, 0, 0)
  {
    LayersSnoc(r, ix);
    NoCells(r, ix + 1, 0);
    NoCells(r, ix, r);
    assert Layers(r, ix) + Plane(r, ix, r) + [] == Layers(r, ix) + Plane(r, ix, r);
    assert Layers(r, ix + 1) + [] + [] == Layers(r, ix + 1);
  }

  /** Visiting one more cell adds its centre, unless the concave inside test rejects it. */
  lemma KeptSnoc(b: Bounds, r: nat, concave: bool, inside: Vec3 -> bool, toLocal: Vec3 -> Vec3, cs: seq<Cell>, c: Cell)
    requires r > 0
    ensures var p := toLocal(CellCentre(b, r, c));
      Kept(b, r, concave, inside, toLocal, cs + [c]) ==
        Kept(b, r, concave, inside, toLocal, cs) + (if !concave || inside(p) then [p] else [])
  {
    assert (cs + [c])[..|cs|] == cs;
  }

  /** Cell by cell, the loops keep the filtered centres (all centres in convex mode). */
  lemma {:induction false} KeptCentres(b: Bounds, r: nat, concave: bool, inside: Vec3 -> bool, toLocal: Vec3 -> Vec3, cs: seq<Cell>)
    requires r > 0
    ensures var ps := Centres(b, r, toLocal, cs);
      Kept(b, r, concave, inside, toLocal, cs) == if concave then Filter(ps, inside) else ps
  {
    if cs != [] {
      var init := cs[..|cs| - 1];
      var ps := Centres(b, r, toLocal, init);
      var p := toLocal(CellCentre(b, r, cs[|cs| - 1]));
      KeptCentres(b, r, concave, inside, toLocal, init);
      assert Centres(b, r, toLocal, cs) == ps + [p];
      assert (ps + [p])[..|ps|] == ps;
    }
  }

  /** The innermost loop's step: visiting one more cell extends both accounts of what is kept alike. */
  lemma KeptUpToCellStep(b: Bounds, r: nat, concave: bool, inside: Vec3 -> bool, toLocal: Vec3 -> Vec3, ix: nat, iy: nat, iz: nat)
    requires r > 0 && iz > 0
    requires KeptUpTo(b, r, concave, inside, toLocal, ix, iy, iz - 1) == Kept(b, r, concave, inside, toLocal, Visited(r, ix, iy, iz - 1))
    ensures KeptUpTo(b, r, concave, inside, toLocal, ix, iy, iz) == Kept(b, r, concave, inside, toLocal, Visited(r, ix, iy, iz))
  {
    var before, c := Visited(r, ix, iy, iz - 1), Cell(ix, iy, iz - 1);
    var p := toLocal(CellCentre(b, r, c));
    var added := if !concave || inside(p) then [p] else [];
    assert Kept(b, r, concave, inside, toLocal, Visited(r, ix, iy, iz)) == Kept(b, r, concave, inside, toLocal, before) + added by {
      VisitCell(r, ix, iy, iz - 1);
      KeptSnoc(b, r, concave, inside, toLocal, before, c);
    }
  }

  /** The middle loop's step: the end of row iy - 1 is the start of row iy. */
  lemma KeptUpToRowStep(b: Bounds, r: nat, concave: bool, inside: Vec3 -> bool, toLocal: Vec3 -> Vec3, ix: nat, iy: nat)
    requires r > 0 && iy > 0
    requires KeptUpTo(b, r, concave, inside, toLocal, ix, iy - 1, r) == Kept(b, r, concave, inside, toLocal, Visited(r, ix, iy - 1, r))
    ensures KeptUpTo(b, r, concave, inside, toLocal, ix, iy, 0) == Kept(b, r, concave, inside, toLocal, Visited(r, ix, iy, 0))
  {
    VisitRow(r, ix, iy - 1);
  }

  /** The outer loop's step: the end of plane ix - 1 is the start of plane ix. */
  lemma KeptUpToPlaneStep(b: Bounds, r: nat, concave: bool, inside: Vec3 -> bool, toLocal: Vec3 -> Vec3, ix: nat)
    requires r > 0 && ix > 0
    requires KeptUpTo(b, r, concave, inside, toLocal, ix - 1, r, 0) == Kept(b, r, concave, inside, toLocal, Visited(r, ix - 1, r, 0))
    ensures KeptUpTo(b, r, concave, inside, toLocal, ix, 0, 0) == Kept(b, r, concave, inside, toLocal, Visited(r, ix, 0, 0))
  {
    VisitPlane(r, ix - 1);
  }

  /** What the loops keep before cell (ix, iy, iz) is what they keep of the cells visited before it. */
  lemma {:induction false} KeptUpToCells(b: Bounds, r: nat, concave: bool, inside: Vec3 -> bool, toLocal: Vec3 -> Vec3, ix: nat, iy: nat, iz: nat)
    requires r > 0
    requires (ix < r && iy < r && iz <= r) || (ix < r && iy == r && iz == 0) || (ix == r && iy == 0 && iz == 0)
    ensures KeptUpTo(b, r, concave, inside, toLocal, ix, iy, iz) == Kept(b, r, concave, inside, toLocal, Visited(r, ix, iy, iz))
    decreases ix, iy, iz
  {
    if iz > 0 {
      KeptUpToCells(b, r, concave, inside, toLocal, ix, iy, iz - 1);
      KeptUpToCellStep(b, r, concave, inside, toLocal, ix, iy, iz);
    } else if iy > 0 {
      KeptUpToCells(b, r, concave, inside, toLocal, ix, iy - 1, r);
      KeptUpToRowStep(b, r, concave, inside, toLocal, ix, iy);
    } else if ix > 0 {
      KeptUpToCells(b, r, concave, inside, toLocal, ix - 1, r, 0);
      KeptUpToPlaneStep(b, r, concave, inside, toLocal, ix);
    } else {
      NoCells(r, 0, 0);
      assert Visited(r, 0, 0, 0) == [];
    }
  }

  /**
   * The slicing result in terms of what the loops keep: the kept points, or the
   * bounds centre alone when concave slicing keeps none.
   */
  lemma SliceOfKept(b: Bounds, r: nat, concave: bool, inside: Vec3 -> bool, toLocal: Vec3 -> Vec3)
    ensures var kept := KeptUpTo(b, r, concave, inside, toLocal, r, 0, 0);
      Slice(b, r, concave, inside, toLocal) == if concave && kept == [] then [b.Center()] else kept
  {
    if r > 0 {
      KeptUpToCells(b, r, concave, inside, toLocal, r, 0, 0);
      NoCells(r, r, 0);
      assert Visited(r, r, 0, 0) == Cells(r);
      KeptCentres(b, r, concave, inside, toLocal, Cells(r));
    }
  }

  /** Recording one more point as below water. */
  lemma MarkBelowSnoc(m: map<Vec3, bool>, ps: seq<Vec3>, p: Vec3)
    ensures MarkBelow(m, ps + [p]) == MarkBelow(m, ps)[p := false]
  {
    assert (ps + [p])[..|ps|] == ps;
  }

  /**
   * After the points ps are recorded, each of them has a flag and is below water,
   * no flag of m is lost, and a flag of any other point is the one m had.
   */
  lemma {:induction false} MarkBelowFlags(m: map<Vec3, bool>, ps: seq<Vec3>)
    ensures forall p :: p in ps ==> p in MarkBelow(m, ps) && !MarkBelow(m, ps)[p]
    ensures m.Keys <= MarkBelow(m, ps).Keys
    ensures forall q :: q in MarkBelow(m, ps) && q !in ps ==> q in m && MarkBelow(m, ps)[q] == m[q]
  {
    if ps != [] {
      var init := ps[..|ps| - 1];
      assert ps == init + [ps[|ps| - 1]];
      MarkBelowFlags(m, init);
    }
  }

  /** The repeated-addition counts are the products the source's loop bounds give. */
  lemma CubeCount(r: nat, ix: nat, iy: nat, iz: nat)
    ensures Times(r, Times(r, r)) == r * r * r
    ensures Times(ix, Times(r, r)) + Times(iy, r) + iz == ix * r * r + iy * r + iz
  {
    var rr := r * r;
    TimesIsProduct(r, r);
    assert Times(r, Times(r, r)) == r * rr by {
      TimesIsProduct(r, rr);
    }
    assert Times(ix, Times(r, r)) == ix * rr by {
      TimesIsProduct(ix, rr);
    }
    TimesIsProduct(iy, r);
    MulAssoc(ix, r, r);
    MulAssoc(r, r, r);
  }

  lemma MulAssoc(a: int, b: int, c: int)
    ensures a * (b * c) == a * b * c
  {
  }

  /**
   * The grid visits r^3 cells, and position ix*r*r + iy*r + iz holds cell
   * (ix, iy, iz): the nesting order of the slicing loops.
   */
  lemma CellsOrder(r: nat, ix: nat, iy: nat, iz: nat)
    requires r > 0
    ensures |Cells(r)| == r * r * r
    ensures ix < r && iy < r && iz < r ==>
      0 <= ix * r * r + iy * r + iz < |Cells(r)| && Cells(r)[ix * r * r + iy * r + iz] == Cell(ix, iy, iz)
  {
    CubeCount(r, ix, iy, iz);
    LayersLength(r);
    if ix < r && iy < r && iz < r {
      LayersAt(r, ix, iy, iz);
    }
  }

  /** The grid point at a cell's position is that cell's centre. */
  lemma GridAt(b: Bounds, r: nat, toLocal: Vec3 -> Vec3, k: nat, c: Cell)
    requires r > 0 && k < |Cells(r)| && Cells(r)[k] == c
    ensures |Grid(b, r, toLocal)| == |Cells(r)|
    ensures Grid(b, r, toLocal)[k] == toLocal(CellCentre(b, r, c))
  {
    CentresAt(b, r, toLocal, Cells(r));
  }

  /**
   * Convex slicing yields exactly r^3 points (none when r is 0), and the point at
   * ix*r*r + iy*r + iz is the centre of cell (ix, iy, iz).
   */
  lemma ConvexSlice(b: Bounds, r: nat, inside: Vec3 -> bool, toLocal: Vec3 -> Vec3, ix: nat, iy: nat, iz: nat)
    ensures |Slice(b, r, false, inside, toLocal)| == r * r * r
    ensures ix < r && iy < r && iz < r ==>
      0 <= ix * r * r + iy * r + iz < |Slice(b, r, false, inside, toLocal)| &&
      Slice(b, r, false, inside, toLocal)[ix * r * r + iy * r + iz] == toLocal(CellCentre(b, r, Cell(ix, iy, iz)))
  {
    if r > 0 {
      assert Slice(b, r, false, inside, toLocal) == Grid(b, r, toLocal);
      CellsOrder(r, ix, iy, iz);
      if ix < r && iy < r && iz < r {
        var k := ix * r * r + iy * r + iz;
        GridAt(b, r, toLocal, k, Cell(ix, iy, iz));
      } else {
        GridAt(b, r, toLocal, 0, Cells(r)[0]);
      }
    }
  }

  /**
   * Concave slicing yields between 1 and r^3 points: the accepted grid points, or
   * the bounds centre alone when the inside test rejects every candidate.
   */
  lemma ConcaveSlice(b: Bounds, r: nat, inside: Vec3 -> bool, toLocal: Vec3 -> Vec3)
    ensures 1 <= |Slice(b, r, true, inside, toLocal)|
    ensures r > 0 ==> |Slice(b, r, true, inside, toLocal)| <= r * r * r
    ensures (exists p :: p in Grid(b, r, toLocal) && inside(p)) ==>
      forall p :: p in Slice(b, r, true, inside, toLocal) <==> p in Grid(b, r, toLocal) && inside(p)
    ensures (forall p :: p in Grid(b, r, toLocal) ==> !inside(p)) ==>
      Slice(b, r, true, inside, toLocal) == [b.Center()]
  {
    var grid := Grid(b, r, toLocal);
    var kept := Filter(grid, inside);
    if r > 0 {
      CellsOrder(r, 0, 0, 0);
    }
    if exists p :: p in grid && inside(p) {
      var p :| p in grid && inside(p);
      assert p in kept;
    } else if kept != [] {
      assert kept[0] in kept;
    }
  }

  /** With no slices the loops visit nothing: concave slicing falls back to the bounds centre. */
  lemma NoSlicesConcave(b: Bounds, r: nat, inside: Vec3 -> bool, toLocal: Vec3 -> Vec3)
    requires r == 0
    ensures Slice(b, r, true, inside, toLocal) == [b.Center()]
  {
  }

  /** With at least one slice per axis the voxelizer yields at least one point. */
  lemma SliceNonEmpty(b: Bounds, r: nat, concave: bool, inside: Vec3 -> bool, toLocal: Vec3 -> Vec3)
    requires r >= 1
    ensures |Slice(b, r, concave, inside, toLocal)| >= 1
  {
    if concave {
      ConcaveSlice(b, r, inside, toLocal);
    } else {
      ConvexSlice(b, r, inside, toLocal, 0, 0, 0);
    }
  }
}

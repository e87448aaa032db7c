/** The field solver object: the mesh arrays it reads and writes, the system it
    keeps (operator, right-hand side, solution), the right-hand side of the full
    domain, the solve with the regions' potentials forced afterwards, the scatter
    of the solution onto the mesh and the electric field by finite differences. */
module Solver {
  import opened Grid
  import opened LinearAlgebra
  import opened BaseOperator
  import opened InnerRegions
  import opened Embedded

  /** M_PI. */
  const Pi: real := 3.14159265358979323846

  datatype Vec3 = Vec3(x: real, y: real, z: real)

  // ---- the right-hand side of one node -------------------------------------

  /** The charge term -4 pi rho dx^2 dy^2 dz^2. */
  function ChargeTerm(g: Grid, rho: real): real
  {
    -4.0 * Pi * rho * g.dx * g.dx * g.dy * g.dy * g.dz * g.dz
  }

  /** The right-hand side of interior node p, given its charge density and the
      potentials the source reads on the six faces of the domain along the node's
      grid lines (left = phi[0][j][k], right = phi[nx-1][j][k], and so on); each
      face value enters only when p is next to that face. */
  function RhsAtNode(g: Grid, p: Node, rho: real, left: real, right: real, bottom: real, top: real,
                     near: real, far: real): real
  {
    ChargeTerm(g, rho)
      - XFactor(g) * ((KroneckerDelta(p.i, 1) as real) * left + (KroneckerDelta(p.i, g.nx - 2) as real) * right)
      - YFactor(g) * ((KroneckerDelta(p.j, 1) as real) * bottom + (KroneckerDelta(p.j, g.ny - 2) as real) * top)
      - ZFactor(g) * ((KroneckerDelta(p.k, 1) as real) * near + (KroneckerDelta(p.k, g.nz - 2) as real) * far)
  }

  /** RhsAtNode is the charge term less the three axis terms, whatever their values. */
  lemma RhsAtNodeTerms(g: Grid, p: Node, rho: real, left: real, right: real, bottom: real, top: real,
                       near: real, far: real, charge: real, x: real, y: real, z: real)
    requires charge == ChargeTerm(g, rho)
    requires x == XFactor(g) * ((KroneckerDelta(p.i, 1) as real) * left + (KroneckerDelta(p.i, g.nx - 2) as real) * right)
    requires y == YFactor(g) * ((KroneckerDelta(p.j, 1) as real) * bottom + (KroneckerDelta(p.j, g.ny - 2) as real) * top)
    requires z == ZFactor(g) * ((KroneckerDelta(p.k, 1) as real) * near + (KroneckerDelta(p.k, g.nz - 2) as real) * far)
    ensures RhsAtNode(g, p, rho, left, right, bottom, top, near, far) == charge - x - y - z
  {
  }

  /** The Dirichlet term of one neighbour: its axis factor times the value when
      the neighbour is on the domain edge, nothing otherwise. */
  function EdgeTerm(g: Grid, p: Node, d: Direction, value: real): real
  {
    if AtDomainEdge(g, Step(p, d)) then AxisFactor(g, AxisOf(d)) * value else 0.0
  }

  lemma XEdgeTerms(g: Grid, p: Node, left: real, right: real)
    requires Valid(g) && Interior(g, p)
    ensures XFactor(g) * ((KroneckerDelta(p.i, 1) as real) * left + (KroneckerDelta(p.i, g.nx - 2) as real) * right) ==
      EdgeTerm(g, p, Left, left) + EdgeTerm(g, p, Right, right)
  {
    assert AtDomainEdge(g, Step(p, Left)) <==> p.i == 1;
    assert AtDomainEdge(g, Step(p, Right)) <==> p.i == g.nx - 2;
  }

  lemma YEdgeTerms(g: Grid, p: Node, bottom: real, top: real)
    requires Valid(g) && Interior(g, p)
    ensures YFactor(g) * ((KroneckerDelta(p.j, 1) as real) * bottom + (KroneckerDelta(p.j, g.ny - 2) as real) * top) ==
      EdgeTerm(g, p, Bottom, bottom) + EdgeTerm(g, p, Top, top)
  {
    assert AtDomainEdge(g, Step(p, Bottom)) <==> p.j == 1;
    assert AtDomainEdge(g, Step(p, Top)) <==> p.j == g.ny - 2;
  }

  lemma ZEdgeTerms(g: Grid, p: Node, near: real, far: real)
    requires Valid(g) && Interior(g, p)
    ensures ZFactor(g) * ((KroneckerDelta(p.k, 1) as real) * near + (KroneckerDelta(p.k, g.nz - 2) as real) * far) ==
      EdgeTerm(g, p, Near, near) + EdgeTerm(g, p, Far, far)
  {
    assert AtDomainEdge(g, Step(p, Near)) <==> p.k == 1;
    assert AtDomainEdge(g, Step(p, Far)) <==> p.k == g.nz - 2;
  }

  /** The outer Dirichlet injection: the right-hand side of p is the charge term
      minus, for each of its six neighbours that lies on the domain edge, the
      axis factor times the potential there; on a node with no such neighbour it
      is the charge term alone. */
  lemma RhsAtNodeInjectsBoundary(g: Grid, p: Node, rho: real, left: real, right: real, bottom: real,
                                 top: real, near: real, far: real)
    requires Valid(g) && Interior(g, p)
    ensures RhsAtNode(g, p, rho, left, right, bottom, top, near, far) ==
      ChargeTerm(g, rho)
        - EdgeTerm(g, p, Left, left) - EdgeTerm(g, p, Right, right)
        - EdgeTerm(g, p, Bottom, bottom) - EdgeTerm(g, p, Top, top)
        - EdgeTerm(g, p, Near, near) - EdgeTerm(g, p, Far, far)
  {
    var x := XFactor(g) * ((KroneckerDelta(p.i, 1) as real) * left + (KroneckerDelta(p.i, g.nx - 2) as real) * right);
    var y := YFactor(g) * ((KroneckerDelta(p.j, 1) as real) * bottom + (KroneckerDelta(p.j, g.ny - 2) as real) * top);
    var z := ZFactor(g) * ((KroneckerDelta(p.k, 1) as real) * near + (KroneckerDelta(p.k, g.nz - 2) as real) * far);
    RhsAtNodeTerms(g, p, rho, left, right, bottom, top, near, far, ChargeTerm(g, rho), x, y, z);
    XEdgeTerms(g, p, left, right);
    YEdgeTerms(g, p, bottom, top);
    ZEdgeTerms(g, p, near, far);
    SubtractSplit(ChargeTerm(g, rho), x, y, z,
      EdgeTerm(g, p, Left, left), EdgeTerm(g, p, Right, right),
      EdgeTerm(g, p, Bottom, bottom), EdgeTerm(g, p, Top, top),
      EdgeTerm(g, p, Near, near), EdgeTerm(g, p, Far, far));
  }

  /** Subtracting three sums term by term. */
  lemma SubtractSplit(c: real, x: real, y: real, z: real, el: real, er: real, eb: real, et: real, en: real, ef: real)
    requires x == el + er && y == eb + et && z == en + ef
    ensures c - x - y - z == c - el - er - eb - et - en - ef
  {
  }

  // ---- the mesh --------------------------------------------------------------

  /** The arrays of the spatial mesh the solver uses, one entry per node. */
  class SpatialMesh {
    const grid: Grid
    const potential: array3<real>
    const chargeDensity: array3<real>
    const electricField: array3<Vec3>

    predicate Shaped()
    {
      Valid(grid) &&
      potential.Length0 == grid.nx && potential.Length1 == grid.ny && potential.Length2 == grid.nz &&
      chargeDensity.Length0 == grid.nx && chargeDensity.Length1 == grid.ny && chargeDensity.Length2 == grid.nz &&
      electricField.Length0 == grid.nx && electricField.Length1 == grid.ny && electricField.Length2 == grid.nz
    }

    constructor (g: Grid)
      requires Valid(g)
      ensures grid == g && Shaped()
      ensures fresh(potential) && fresh(chargeDensity) && fresh(electricField)
    {
      grid := g;
      potential := new real[g.nx, g.ny, g.nz]((i, j, k) => 0.0);
      chargeDensity := new real[g.nx, g.ny, g.nz]((i, j, k) => 0.0);
      electricField := new Vec3[g.nx, g.ny, g.nz]((i, j, k) => Vec3(0.0, 0.0, 0.0));
    }
  }

  /** The full-domain right-hand side at interior node p, read from the mesh. */
  function MeshRhsAt(mesh: SpatialMesh, p: Node): real
    reads mesh.potential, mesh.chargeDensity
    requires mesh.Shaped() && Interior(mesh.grid, p)
  {
    var g, phi := mesh.grid, mesh.potential;
    RhsAtNode(g, p, mesh.chargeDensity[p.i, p.j, p.k],
              phi[0, p.j, p.k], phi[g.nx - 1, p.j, p.k],
              phi[p.i, 0, p.k], phi[p.i, g.ny - 1, p.k],
              phi[p.i, p.j, 0], phi[p.i, p.j, g.nz - 1])
  }

  /** The full-domain right-hand side, unknown by unknown. */
  function FullDomainRhs(mesh: SpatialMesh): (b: seq<real>)
    reads mesh.potential, mesh.chargeDensity
    requires mesh.Shaped()
    ensures |b| == Unknowns(mesh.grid)
  {
    var g := mesh.grid;
    UnknownsPositive(g);
    seq(Unknowns(g), r requires 0 <= r < Unknowns(g) reads mesh.potential, mesh.chargeDensity =>
      IndexToNodeRoundTrip(g, r);
      MeshRhsAt(mesh, IndexToNode(g, r)))
  }

  /** Node p comes before node (i, j, k) in the k, j, i loop order. */
  predicate Before(p: Node, i: int, j: int, k: int)
  {
    p.k < k || (p.k == k && (p.j < j || (p.j == j && p.i < i)))
  }

  /** Every unknown before node (i, j, k) in loop order holds its full-domain
      right-hand side. */
  ghost predicate Filled(mesh: SpatialMesh, rhs: seq<real>, i: int, j: int, k: int)
    reads mesh.potential, mesh.chargeDensity
    requires mesh.Shaped() && |rhs| == Unknowns(mesh.grid)
  {
    forall r :: 0 <= r < |rhs| && Before(IndexToNode(mesh.grid, r), i, j, k) ==> rhs[r] == FullDomainRhs(mesh)[r]
  }

  /** Filled carries over to a position whose predecessors (among the interior
      nodes) were all predecessors of the old one. */
  lemma FilledCovers(mesh: SpatialMesh, rhs: seq<real>, i: int, j: int, k: int, i2: int, j2: int, k2: int)
    requires mesh.Shaped() && |rhs| == Unknowns(mesh.grid)
    requires Filled(mesh, rhs, i, j, k)
    requires forall p: Node :: Interior(mesh.grid, p) && Before(p, i2, j2, k2) ==> Before(p, i, j, k)
    ensures Filled(mesh, rhs, i2, j2, k2)
  {
    forall r | 0 <= r < |rhs| && Before(IndexToNode(mesh.grid, r), i2, j2, k2)
      ensures rhs[r] == FullDomainRhs(mesh)[r]
    {
      IndexToNodeRoundTrip(mesh.grid, r);
    }
  }

  /** The moves of the loop nest between positions with the same predecessors:
      the first i of a row, the first j of a plane, the end of a row, the end of
      a plane, and the start and end of the whole nest. */
  lemma FilledRowStart(mesh: SpatialMesh, rhs: seq<real>, j: int, k: int)
    requires mesh.Shaped() && |rhs| == Unknowns(mesh.grid) && Filled(mesh, rhs, 0, j, k)
    ensures Filled(mesh, rhs, 1, j, k)
  {
    FilledCovers(mesh, rhs, 0, j, k, 1, j, k);
  }

  lemma FilledRowEnd(mesh: SpatialMesh, rhs: seq<real>, j: int, k: int)
    requires mesh.Shaped() && |rhs| == Unknowns(mesh.grid) && Filled(mesh, rhs, mesh.grid.nx - 1, j, k)
    ensures Filled(mesh, rhs, 0, j + 1, k)
  {
    FilledCovers(mesh, rhs, mesh.grid.nx - 1, j, k, 0, j + 1, k);
  }

  lemma FilledPlaneStart(mesh: SpatialMesh, rhs: seq<real>, k: int)
    requires mesh.Shaped() && |rhs| == Unknowns(mesh.grid) && Filled(mesh, rhs, 0, 0, k)
    ensures Filled(mesh, rhs, 0, 1, k)
  {
    FilledCovers(mesh, rhs, 0, 0, k, 0, 1, k);
  }

  lemma FilledPlaneEnd(mesh: SpatialMesh, rhs: seq<real>, k: int)
    requires mesh.Shaped() && |rhs| == Unknowns(mesh.grid) && Filled(mesh, rhs, 0, mesh.grid.ny - 1, k)
    ensures Filled(mesh, rhs, 0, 0, k + 1)
  {
    FilledCovers(mesh, rhs, 0, mesh.grid.ny - 1, k, 0, 0, k + 1);
  }

  lemma FilledNone(mesh: SpatialMesh, rhs: seq<real>)
    requires mesh.Shaped() && |rhs| == Unknowns(mesh.grid)
    ensures Filled(mesh, rhs, 0, 0, 1)
  {
    forall r | 0 <= r < |rhs| ensures !Before(IndexToNode(mesh.grid, r), 0, 0, 1) {
      IndexToNodeRoundTrip(mesh.grid, r);
    }
  }

  lemma FilledAll(mesh: SpatialMesh, rhs: seq<real>)
    requires mesh.Shaped() && |rhs| == Unknowns(mesh.grid) && Filled(mesh, rhs, 0, 0, mesh.grid.nz - 1)
    ensures rhs == FullDomainRhs(mesh)
  {
    forall r | 0 <= r < |rhs| ensures rhs[r] == FullDomainRhs(mesh)[r] {
      IndexToNodeRoundTrip(mesh.grid, r);
    }
  }

  /** Writing the right-hand side of node (i, j, k) at its unknown moves Filled
      one node on. */
  lemma FilledStep(mesh: SpatialMesh, rhs: seq<real>, i: int, j: int, k: int)
    requires mesh.Shaped() && |rhs| == Unknowns(mesh.grid) && Interior(mesh.grid, Node(i, j, k))
    requires Filled(mesh, rhs, i, j, k)
    ensures 0 <= Index(mesh.grid, Node(i, j, k)) < |rhs|
    ensures Filled(mesh, rhs[Index(mesh.grid, Node(i, j, k)) := MeshRhsAt(mesh, Node(i, j, k))], i + 1, j, k)
  {
    var g, p := mesh.grid, Node(i, j, k);
    IndexRoundTrip(g, p);
    var ix := Index(g, p);
    var rhs' := rhs[ix := MeshRhsAt(mesh, p)];
    forall r | 0 <= r < |rhs'| && Before(IndexToNode(g, r), i + 1, j, k)
      ensures rhs'[r] == FullDomainRhs(mesh)[r]
    {
      if r != ix {
        IndexToNodeRoundTrip(g, r);
        assert Index(g, IndexToNode(g, r)) == r;
      }
    }
  }

  /** The electric field component along one axis at coordinate c of n nodes:
      minus the one-sided difference at the two ends, minus the central
      difference elsewhere. */
  function FieldComponent(n: int, c: int, d: real, prev: real, here: real, next: real): real
    requires d != 0.0
  {
    if c == 0 then -BoundaryDifference(here, next, d)
    else if c == n - 1 then -BoundaryDifference(prev, here, d)
    else -CentralDifference(prev, next, d)
  }

  /** The electric field at node p from the mesh potential. */
  function FieldAt(mesh: SpatialMesh, p: Node): Vec3
    reads mesh.potential
    requires mesh.Shaped() && InGrid(mesh.grid, p)
  {
    var g, phi, i, j, k := mesh.grid, mesh.potential, p.i, p.j, p.k;
    Vec3(
      FieldComponent(g.nx, i, g.dx, if i > 0 then phi[i - 1, j, k] else 0.0, phi[i, j, k],
                     if i < g.nx - 1 then phi[i + 1, j, k] else 0.0),
      FieldComponent(g.ny, j, g.dy, if j > 0 then phi[i, j - 1, k] else 0.0, phi[i, j, k],
                     if j < g.ny - 1 then phi[i, j + 1, k] else 0.0),
      FieldComponent(g.nz, k, g.dz, if k > 0 then phi[i, j, k - 1] else 0.0, phi[i, j, k],
                     if k < g.nz - 1 then phi[i, j, k + 1] else 0.0))
  }

  /** The solution at the unknown of interior node p. */
  function SolutionAt(g: Grid, phi: seq<real>, p: Node): real
    requires Valid(g) && |phi| == Unknowns(g) && Interior(g, p)
  {
    IndexRoundTrip(g, p);
    phi[Index(g, p)]
  }

  /** The value a mesh node holds after the scatter: the solution at its unknown
      for an interior node, its previous value for a node on the domain edge. */
  function ScatteredValue(g: Grid, phi: seq<real>, p: Node, previous: real): real
    requires Valid(g) && |phi| == Unknowns(g)
  {
    if Interior(g, p) then SolutionAt(g, phi, p) else previous
  }

  /** The linear solve: applied to the operator, the right-hand side and the
      initial guess, it returns one value per unknown. */
  ghost predicate LengthPreserving(solve: (Matrix, seq<real>, seq<real>) -> seq<real>)
  {
    forall m, b, x :: |solve(m, b, x)| == |b|
  }

  /** The region value of the right-hand side: no charge inside a conductor. */
  function Zero(reg: Region): real { 0.0 }

  /** The region value of the solution: the region's potential. */
  function PotentialOf(reg: Region): real { reg.potential }

  /** The right-hand side init_rhs_vector assembles: the full-domain right-hand
      side, zeros at the unknowns inside the regions, then the compensation at
      the near-boundary unknowns. */
  function RhsVector(mesh: SpatialMesh, regs: seq<Region>): (b: seq<real>)
    reads mesh.potential, mesh.chargeDensity
    requires mesh.Shaped() && AllWellFormed(mesh.grid, regs)
    ensures |b| == Unknowns(mesh.grid)
  {
    ModifyRhs(FillRegions(FullDomainRhs(mesh), mesh.grid, regs, Zero), mesh.grid, regs)
  }

  /** The assembled right-hand side, row by row: zero at an unknown inside some
      region and the full-domain value elsewhere, plus the compensation every
      region adds there; an unknown no region lists keeps the full-domain value. */
  lemma RhsVectorRows(mesh: SpatialMesh, regs: seq<Region>, r: int)
    requires mesh.Shaped() && AllWellFormed(mesh.grid, regs) && 0 <= r < Unknowns(mesh.grid)
    ensures RhsVector(mesh, regs)[r] ==
      (if Occupied(mesh.grid, regs, r) then 0.0 else FullDomainRhs(mesh)[r]) + TotalModification(mesh.grid, regs, r)
  {
    var g := mesh.grid;
    var filled := FillRegions(FullDomainRhs(mesh), g, regs, Zero);
    FillRegionsRows(FullDomainRhs(mesh), g, regs, Zero, r);
    LastListingSpec(g, regs, r);
    ModifyRhsRows(filled, g, regs, r);
  }

  /** After the override, the unknown of an inner node of region t holds that
      region's potential when no later region lists it (the last region wins),
      and so does the mesh node after the scatter. */
  lemma RegionNodeHoldsPotential(v: seq<real>, g: Grid, regs: seq<Region>, t: int, p: Node, previous: real)
    requires Valid(g) && AllWellFormed(g, regs) && |v| == Unknowns(g)
    requires 0 <= t < |regs| && p in regs[t].innerNodesNotAtDomainEdge
    requires forall u :: t < u < |regs| ==> Index(g, p) !in NodeIndices(g, regs[u].innerNodesNotAtDomainEdge)
    ensures Interior(g, p)
    ensures ScatteredValue(g, FillRegions(v, g, regs, PotentialOf), p, previous) == regs[t].potential
  {
    var nodes := regs[t].innerNodesNotAtDomainEdge;
    var idx :| 0 <= idx < |nodes| && nodes[idx] == p;
    assert WellFormed(g, regs[t]);
    var r := Index(g, p);
    IndexRoundTrip(g, p);
    assert NodeIndices(g, nodes)[idx] == r;
    assert Occupied(g, regs, r);
    LastListingSpec(g, regs, r);
    FillRegionsRows(v, g, regs, PotentialOf, r);
  }

  /** x times a non-zero d determines x. */
  lemma CancelFactor(x: real, y: real, d: real)
    requires d != 0.0 && x * d == y * d
    ensures x == y
  {
    assert (x - y) * d == 0.0;
  }

  /** One component of the field of a potential that falls linearly by e per
      unit length along the axis: the difference the source takes, whichever of
      its three formulas applies, is exactly e. */
  lemma RampComponent(n: int, c: int, d: real, e: real, base: real, prev: real, here: real, next: real)
    requires 3 <= n && 0 <= c < n && d > 0.0
    requires here == base - e * (c as real) * d
    requires c > 0 ==> prev == base - e * ((c - 1) as real) * d
    requires c < n - 1 ==> next == base - e * ((c + 1) as real) * d
    ensures FieldComponent(n, c, d, prev, here, next) == e
  {
    if c == 0 {
      var r := BoundaryDifference(here, next, d);
      assert next - here == (-e) * d;
      CancelFactor(r, -e, d);
    } else if c == n - 1 {
      var r := BoundaryDifference(prev, here, d);
      assert here - prev == (-e) * d;
      CancelFactor(r, -e, d);
    } else {
      var r := CentralDifference(prev, next, d);
      assert next - prev == (-e) * (2.0 * d);
      CancelFactor(r, -e, 2.0 * d);
    }
  }

  /** The potential phi0 - (ex x + ey y + ez z) at node (i, j, k). */
  function Ramp(g: Grid, phi0: real, ex: real, ey: real, ez: real, i: int, j: int, k: int): real
  {
    phi0 - (ex * (i as real) * g.dx + ey * (j as real) * g.dy + ez * (k as real) * g.dz)
  }

  /** The mesh potential is the ramp at every node. */
  ghost predicate IsRamp(mesh: SpatialMesh, phi0: real, ex: real, ey: real, ez: real)
    reads mesh.potential
    requires mesh.Shaped()
  {
    forall i, j, k :: 0 <= i < mesh.grid.nx && 0 <= j < mesh.grid.ny && 0 <= k < mesh.grid.nz ==>
      mesh.potential[i, j, k] == Ramp(mesh.grid, phi0, ex, ey, ez, i, j, k)
  }

  /** The x component of the field of a ramp. */
  lemma RampFieldX(mesh: SpatialMesh, phi0: real, ex: real, ey: real, ez: real, p: Node)
    requires mesh.Shaped() && InGrid(mesh.grid, p) && IsRamp(mesh, phi0, ex, ey, ez)
    ensures FieldAt(mesh, p).x == ex
  {
    var g, phi, i, j, k := mesh.grid, mesh.potential, p.i, p.j, p.k;
    var base := phi0 - (ey * (j as real) * g.dy + ez * (k as real) * g.dz);
    var prev := if i > 0 then phi[i - 1, j, k] else 0.0;
    var next := if i < g.nx - 1 then phi[i + 1, j, k] else 0.0;
    assert phi[i, j, k] == Ramp(g, phi0, ex, ey, ez, i, j, k);
    if i > 0 {
      assert prev == Ramp(g, phi0, ex, ey, ez, i - 1, j, k);
    }
    if i < g.nx - 1 {
      assert next == Ramp(g, phi0, ex, ey, ez, i + 1, j, k);
    }
    RampComponent(g.nx, i, g.dx, ex, base, prev, phi[i, j, k], next);
  }

  /** The y component of the field of a ramp. */
  lemma RampFieldY(mesh: SpatialMesh, phi0: real, ex: real, ey: real, ez: real, p: Node)
    requires mesh.Shaped() && InGrid(mesh.grid, p) && IsRamp(mesh, phi0, ex, ey, ez)
    ensures FieldAt(mesh, p).y == ey
  {
    var g, phi, i, j, k := mesh.grid, mesh.potential, p.i, p.j, p.k;
    var base := phi0 - (ex * (i as real) * g.dx + ez * (k as real) * g.dz);
    var prev := if j > 0 then phi[i, j - 1, k] else 0.0;
    var next := if j < g.ny - 1 then phi[i, j + 1, k] else 0.0;
    assert phi[i, j, k] == Ramp(g, phi0, ex, ey, ez, i, j, k);
    if j > 0 {
      assert prev == Ramp(g, phi0, ex, ey, ez, i, j - 1, k);
    }
    if j < g.ny - 1 {
      assert next == Ramp(g, phi0, ex, ey, ez, i, j + 1, k);
    }
    RampComponent(g.ny, j, g.dy, ey, base, prev, phi[i, j, k], next);
  }

  /** The z component of the field of a ramp. */
  lemma RampFieldZ(mesh: SpatialMesh, phi0: real, ex: real, ey: real, ez: real, p: Node)
    requires mesh.Shaped() && InGrid(mesh.grid, p) && IsRamp(mesh, phi0, ex, ey, ez)
    ensures FieldAt(mesh, p).z == ez
  {
    var g, phi, i, j, k := mesh.grid, mesh.potential, p.i, p.j, p.k;
    var base := phi0 - (ex * (i as real) * g.dx + ey * (j as real) * g.dy);
    var prev := if k > 0 then phi[i, j, k - 1] else 0.0;
    var next := if k < g.nz - 1 then phi[i, j, k + 1] else 0.0;
    assert phi[i, j, k] == Ramp(g, phi0, ex, ey, ez, i, j, k);
    if k > 0 {
      assert prev == Ramp(g, phi0, ex, ey, ez, i, j, k - 1);
    }
    if k < g.nz - 1 {
      assert next == Ramp(g, phi0, ex, ey, ez, i, j, k + 1);
    }
    RampComponent(g.nz, k, g.dz, ez, base, prev, phi[i, j, k], next);
  }

  /** The potential phi0 - (ex x + ey y + ez z) yields the uniform field
      (ex, ey, ez) at every node, the domain edge included. */
  lemma LinearRampGivesUniformField(mesh: SpatialMesh, phi0: real, ex: real, ey: real, ez: real, p: Node)
    requires mesh.Shaped() && InGrid(mesh.grid, p) && IsRamp(mesh, phi0, ex, ey, ez)
    ensures FieldAt(mesh, p) == Vec3(ex, ey, ez)
  {
    RampFieldX(mesh, phi0, ex, ey, ez, p);
    RampFieldY(mesh, phi0, ex, ey, ez, p);
    RampFieldZ(mesh, phi0, ex, ey, ez, p);
  }

  class FieldSolver {
    const grid: Grid
    var a: Matrix
    var rhs: seq<real>
    var phiVec: seq<real>

    /** The operator, the right-hand side and the solution all have one entry
        per unknown. */
    predicate Ready()
      reads this
    {
      Valid(grid) && |a| == Unknowns(grid) && |rhs| == Unknowns(grid) && |phiVec| == Unknowns(grid)
    }

    /** Allocates the solution (set to 0) and the right-hand side, and builds the
        operator with the regions embedded. */
    constructor (g: Grid, regs: seq<Region>)
      requires Valid(g) && AllWellFormed(g, regs)
      ensures Ready() && grid == g
      ensures a == SystemMatrix(g, regs)
      ensures phiVec == seq(Unknowns(g), _ => 0.0)
    {
      UnknownsPositive(g);
      var m := ConstructEquationMatrix(g, regs);
      grid := g;
      phiVec := seq(Unknowns(g), _ => 0.0);
      rhs := seq(Unknowns(g), _ => 0.0);
      a := m;
    }

    /** The value the loop body of init_rhs_vector_in_full_domain computes at
        node (i, j, k), step by step as the source does. */
    static method RhsAtMeshNode(mesh: SpatialMesh, i: int, j: int, k: int) returns (rhsAtNode: real)
      requires mesh.Shaped() && Interior(mesh.grid, Node(i, j, k))
      ensures rhsAtNode == MeshRhsAt(mesh, Node(i, j, k))
    {
      var g, phi := mesh.grid, mesh.potential;
      var nx, ny, nz := g.nx, g.ny, g.nz;
      var dx, dy, dz := g.dx, g.dy, g.dz;
      var rho := mesh.chargeDensity[i, j, k];
      var left, right := phi[0, j, k], phi[nx - 1, j, k];
      var bottom, top := phi[i, 0, k], phi[i, ny - 1, k];
      var near, far := phi[i, j, 0], phi[i, j, nz - 1];
      rhsAtNode := -4.0 * Pi * rho;
      rhsAtNode := rhsAtNode * dx * dx * dy * dy * dz * dz;
      assert rhsAtNode == ChargeTerm(g, rho);
      var x := XFactor(g) * ((KroneckerDelta(i, 1) as real) * left + (KroneckerDelta(i, nx - 2) as real) * right);
      var y := YFactor(g) * ((KroneckerDelta(j, 1) as real) * bottom + (KroneckerDelta(j, ny - 2) as real) * top);
      var z := ZFactor(g) * ((KroneckerDelta(k, 1) as real) * near + (KroneckerDelta(k, nz - 2) as real) * far);
      ghost var charge := rhsAtNode;
      rhsAtNode := rhsAtNode - x;
      rhsAtNode := rhsAtNode - y;
      rhsAtNode := rhsAtNode - z;
      RhsAtNodeTerms(g, Node(i, j, k), rho, left, right, bottom, top, near, far, charge, x, y, z);
    }

    /** init_rhs_vector_in_full_domain: the k, j, i loop over the interior nodes. */
    method InitRhsVectorInFullDomain(mesh: SpatialMesh)
      requires Ready() && mesh.Shaped() && mesh.grid == grid
      modifies this
      ensures Ready() && rhs == FullDomainRhs(mesh)
      ensures a == old(a) && phiVec == old(phiVec)
    {
      var g := grid;
      var nx, ny, nz := g.nx, g.ny, g.nz;
      FilledNone(mesh, rhs);
      for k := 1 to nz - 1
        invariant Ready() && a == old(a) && phiVec == old(phiVec)
        invariant Filled(mesh, rhs, 0, 0, k)
      {
        FilledPlaneStart(mesh, rhs, k);
        for j := 1 to ny - 1
          invariant Ready() && a == old(a) && phiVec == old(phiVec)
          invariant Filled(mesh, rhs, 0, j, k)
        {
          FilledRowStart(mesh, rhs, j, k);
          for i := 1 to nx - 1
            invariant Ready() && a == old(a) && phiVec == old(phiVec)
            invariant Filled(mesh, rhs, i, j, k)
          {
            var rhsAtNode := RhsAtMeshNode(mesh, i, j, k);
            var ix := NodeIjkToGlobalIndex(g, i, j, k);
            FilledStep(mesh, rhs, i, j, k);
            rhs := rhs[ix.value := rhsAtNode];
          }
          FilledRowEnd(mesh, rhs, j, k);
        }
        FilledPlaneEnd(mesh, rhs, k);
      }
      FilledAll(mesh, rhs);
    }

    /** set_rhs_at_nodes_occupied_by_objects: zeros at the inner unknowns of
        each region in turn. */
    method SetRhsAtNodesOccupiedByObjects(regs: seq<Region>)
      requires Ready() && AllWellFormed(grid, regs)
      modifies this
      ensures Ready() && rhs == FillRegions(old(rhs), grid, regs, Zero)
      ensures a == old(a) && phiVec == old(phiVec)
    {
      for t := 0 to |regs|
        invariant Ready() && a == old(a) && phiVec == old(phiVec)
        invariant rhs == FillRegions(old(rhs), grid, regs[..t], Zero)
      {
        assert regs[..t + 1][..t] == regs[..t];
        rhs := SetRhsAtNodesOccupiedByRegion(rhs, grid, regs[t]);
      }
      assert regs[..|regs|] == regs;
    }

    /** modify_rhs_near_object_boundaries: each region's compensation added in
        turn. */
    method ModifyRhsNearObjectBoundaries(regs: seq<Region>)
      requires Ready() && AllWellFormed(grid, regs)
      modifies this
      ensures Ready() && rhs == ModifyRhs(old(rhs), grid, regs)
      ensures a == old(a) && phiVec == old(phiVec)
    {
      for t := 0 to |regs|
        invariant Ready() && a == old(a) && phiVec == old(phiVec)
        invariant rhs == ModifyRhs(old(rhs), grid, regs[..t])
      {
        assert regs[..t + 1][..t] == regs[..t];
        rhs := ModifyRhsNearRegionBoundary(rhs, grid, regs[t]);
      }
      assert regs[..|regs|] == regs;
    }

    /** set_solution_at_nodes_of_inner_regions: each region's potential forced
        at its inner unknowns in turn. */
    method SetSolutionAtNodesOfInnerRegions(regs: seq<Region>)
      requires Ready() && AllWellFormed(grid, regs)
      modifies this
      ensures Ready() && phiVec == FillRegions(old(phiVec), grid, regs, PotentialOf)
      ensures a == old(a) && rhs == old(rhs)
    {
      for t := 0 to |regs|
        invariant Ready() && a == old(a) && rhs == old(rhs)
        invariant phiVec == FillRegions(old(phiVec), grid, regs[..t], PotentialOf)
      {
        assert regs[..t + 1][..t] == regs[..t];
        phiVec := SetSolutionAtNodesOfRegion(phiVec, grid, regs[t]);
      }
      assert regs[..|regs|] == regs;
    }

    /** init_rhs_vector: the full-domain right-hand side, then zeros inside the
        regions, then the compensation near their boundaries. */
    method InitRhsVector(mesh: SpatialMesh, regs: seq<Region>)
      requires Ready() && mesh.Shaped() && mesh.grid == grid && AllWellFormed(grid, regs)
      modifies this
      ensures Ready() && rhs == RhsVector(mesh, regs)
      ensures a == old(a) && phiVec == old(phiVec)
    {
      InitRhsVectorInFullDomain(mesh);
      SetRhsAtNodesOccupiedByObjects(regs);
      ModifyRhsNearObjectBoundaries(regs);
    }

    /** transfer_solution_to_spat_mesh: the k, j, i loop copying the solution
        into the interior of the mesh potential; the domain edge keeps its
        values. */
    method TransferSolutionToSpatMesh(mesh: SpatialMesh)
      requires Ready() && mesh.Shaped() && mesh.grid == grid
      modifies mesh.potential
      ensures forall i, j, k :: 0 <= i < grid.nx && 0 <= j < grid.ny && 0 <= k < grid.nz ==>
        mesh.potential[i, j, k] == ScatteredValue(grid, phiVec, Node(i, j, k), old(mesh.potential[i, j, k]))
    {
      var g := grid;
      var nx, ny, nz := g.nx, g.ny, g.nz;
      for k := 1 to nz - 1
        invariant forall i, j, k' :: 0 <= i < nx && 0 <= j < ny && 0 <= k' < nz ==>
          mesh.potential[i, j, k'] ==
            if Interior(g, Node(i, j, k')) && Before(Node(i, j, k'), 0, 0, k) then SolutionAt(g, phiVec, Node(i, j, k'))
            else old(mesh.potential[i, j, k'])
      {
        for j := 1 to ny - 1
          invariant forall i, j', k' :: 0 <= i < nx && 0 <= j' < ny && 0 <= k' < nz ==>
            mesh.potential[i, j', k'] ==
              if Interior(g, Node(i, j', k')) && Before(Node(i, j', k'), 0, j, k) then SolutionAt(g, phiVec, Node(i, j', k'))
              else old(mesh.potential[i, j', k'])
        {
          for i := 1 to nx - 1
            invariant forall i', j', k' :: 0 <= i' < nx && 0 <= j' < ny && 0 <= k' < nz ==>
              mesh.potential[i', j', k'] ==
                if Interior(g, Node(i', j', k')) && Before(Node(i', j', k'), i, j, k) then SolutionAt(g, phiVec, Node(i', j', k'))
                else old(mesh.potential[i', j', k'])
          {
            var ix := NodeIjkToGlobalIndex(g, i, j, k);
            var phiAtPoint := phiVec[ix.value];
            mesh.potential[i, j, k] := phiAtPoint;
          }
        }
      }
    }

    /** solve_poisson_eqn: assembles the right-hand side, solves the system
        from the current solution as initial guess, forces the regions'
        potentials at their inner unknowns and scatters the solution onto the
        mesh. */
    method SolvePoissonEqn(mesh: SpatialMesh, regs: seq<Region>, solve: (Matrix, seq<real>, seq<real>) -> seq<real>)
      requires Ready() && mesh.Shaped() && mesh.grid == grid && AllWellFormed(grid, regs)
      requires LengthPreserving(solve)
      modifies this, mesh.potential
      ensures Ready() && a == old(a)
      ensures rhs == old(RhsVector(mesh, regs))
      ensures phiVec == FillRegions(solve(a, rhs, old(phiVec)), grid, regs, PotentialOf)
      ensures forall i, j, k :: 0 <= i < grid.nx && 0 <= j < grid.ny && 0 <= k < grid.nz ==>
        mesh.potential[i, j, k] == ScatteredValue(grid, phiVec, Node(i, j, k), old(mesh.potential[i, j, k]))
    {
      InitRhsVector(mesh, regs);
      phiVec := solve(a, rhs, phiVec);
      SetSolutionAtNodesOfInnerRegions(regs);
      TransferSolutionToSpatMesh(mesh);
    }

    /** The field the loop body of eval_fields_from_potential computes at node
        (i, j, k), formula by formula as the source does. */
    static method FieldAtNode(mesh: SpatialMesh, i: int, j: int, k: int) returns (e: Vec3)
      requires mesh.Shaped() && InGrid(mesh.grid, Node(i, j, k))
      ensures e == FieldAt(mesh, Node(i, j, k))
    {
      var g, phi := mesh.grid, mesh.potential;
      var nx, ny, nz := g.nx, g.ny, g.nz;
      var dx, dy, dz := g.dx, g.dy, g.dz;
      var ex, ey, ez;
      if i == 0 {
        ex := -BoundaryDifference(phi[i, j, k], phi[i + 1, j, k], dx);
      } else if i == nx - 1 {
        ex := -BoundaryDifference(phi[i - 1, j, k], phi[i, j, k], dx);
      } else {
        ex := -CentralDifference(phi[i - 1, j, k], phi[i + 1, j, k], dx);
      }
      if j == 0 {
        ey := -BoundaryDifference(phi[i, j, k], phi[i, j + 1, k], dy);
      } else if j == ny - 1 {
        ey := -BoundaryDifference(phi[i, j - 1, k], phi[i, j, k], dy);
      } else {
        ey := -CentralDifference(phi[i, j - 1, k], phi[i, j + 1, k], dy);
      }
      if k == 0 {
        ez := -BoundaryDifference(phi[i, j, k], phi[i, j, k + 1], dz);
      } else if k == nz - 1 {
        ez := -BoundaryDifference(phi[i, j, k - 1], phi[i, j, k], dz);
      } else {
        ez := -CentralDifference(phi[i, j, k - 1], phi[i, j, k + 1], dz);
      }
      e := Vec3(ex, ey, ez);
    }

    /** eval_fields_from_potential: the i, j, k loop over every node of the
        mesh storing minus the finite-difference gradient of the potential. */
    static method EvalFieldsFromPotential(mesh: SpatialMesh)
      requires mesh.Shaped()
      modifies mesh.electricField
      ensures forall i, j, k :: 0 <= i < mesh.grid.nx && 0 <= j < mesh.grid.ny && 0 <= k < mesh.grid.nz ==>
        mesh.electricField[i, j, k] == FieldAt(mesh, Node(i, j, k))
    {
      var g := mesh.grid;
      var nx, ny, nz := g.nx, g.ny, g.nz;
      for i := 0 to nx
        invariant forall i', j', k' :: 0 <= i' < i && 0 <= j' < ny && 0 <= k' < nz ==>
          mesh.electricField[i', j', k'] == FieldAt(mesh, Node(i', j', k'))
      {
        for j := 0 to ny
          invariant forall i', j', k' :: 0 <= i' < nx && 0 <= j' < ny && 0 <= k' < nz && (i' < i || (i' == i && j' < j)) ==>
            mesh.electricField[i', j', k'] == FieldAt(mesh, Node(i', j', k'))
        {
          for k := 0 to nz
            invariant forall i', j', k' ::
              0 <= i' < nx && 0 <= j' < ny && 0 <= k' < nz && (i' < i || (i' == i && (j' < j || (j' == j && k' < k)))) ==>
              mesh.electricField[i', j', k'] == FieldAt(mesh, Node(i', j', k'))
          {
            var e := FieldAtNode(mesh, i, j, k);
            mesh.electricField[i, j, k] := e;
          }
        }
      }
    }
  }
}

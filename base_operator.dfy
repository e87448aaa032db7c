/** The 7-point Laplacian of the whole interior (construct_equation_matrix_in_full_domain):
    dy^2 dz^2 times the x operator plus dx^2 dz^2 times the y operator plus
    dx^2 dy^2 times the z operator, and what its rows are node by node. */
module BaseOperator {
  import opened Grid
  import opened LinearAlgebra
  import opened Patterns

  /** The scale factor of each axis: the product of the squared cell sizes of the
      two other axes. */
  function XFactor(g: Grid): real { g.dy * g.dy * g.dz * g.dz }
  function YFactor(g: Grid): real { g.dx * g.dx * g.dz * g.dz }
  function ZFactor(g: Grid): real { g.dx * g.dx * g.dy * g.dy }

  lemma SquarePositive(u: real)
    requires u > 0.0
    ensures u * u > 0.0
  {
  }

  /** Every axis factor is positive on a valid grid. */
  lemma FactorsPositive(g: Grid)
    requires Valid(g)
    ensures XFactor(g) > 0.0 && YFactor(g) > 0.0 && ZFactor(g) > 0.0
  {
    var yz, xz, xy := g.dy * g.dz, g.dx * g.dz, g.dx * g.dy;
    assert yz > 0.0 && xz > 0.0 && xy > 0.0;
    SquarePositive(yz);
    SquarePositive(xz);
    SquarePositive(xy);
    assert XFactor(g) == yz * yz && YFactor(g) == xz * xz && ZFactor(g) == xy * xy;
  }

  function AxisFactor(g: Grid, ax: Axis): real
  {
    match ax
    case X => XFactor(g)
    case Y => YFactor(g)
    case Z => ZFactor(g)
  }

  /** At least two interior nodes along every axis: the grids on which every
      stored column stays inside the unknowns. */
  predicate Wide(g: Grid)
  {
    Valid(g) && g.nx >= 4 && g.ny >= 4 && g.nz >= 4
  }

  /** The three axis operators all have one row per unknown. */
  lemma OperatorSizes(g: Grid)
    requires Valid(g)
    ensures |D2dx2In3d(g)| == Unknowns(g) && |D2dy2In3d(g)| == Unknowns(g) && |D2dz2In3d(g)| == Unknowns(g)
  {
    UnknownsPositive(g);
  }

  ghost function EquationMatrixInFullDomain(g: Grid): Matrix
    requires Valid(g)
  {
    OperatorSizes(g);
    Axpy(Axpy(Scale(D2dx2In3d(g), XFactor(g)), YFactor(g), D2dy2In3d(g)), ZFactor(g), D2dz2In3d(g))
  }

  /** MatScale of the x operator, then two MatAXPY calls. */
  method ConstructEquationMatrixInFullDomain(g: Grid) returns (a: Matrix)
    requires Valid(g)
    ensures |a| == Unknowns(g)
    ensures a == EquationMatrixInFullDomain(g)
  {
    OperatorSizes(g);
    var d2dx2 := ConstructD2dx2In3d(g);
    a := Scale(d2dx2, XFactor(g));
    var d2dy2 := ConstructD2dy2In3d(g);
    a := Axpy(a, YFactor(g), d2dy2);
    var d2dz2 := ConstructD2dz2In3d(g);
    a := Axpy(a, ZFactor(g), d2dz2);
  }

  /** The coefficient the 7-point stencil of interior node p gives unknown q. */
  function StencilCoefficient(g: Grid, p: Node, q: Node): real
  {
    if q == p then -2.0 * (XFactor(g) + YFactor(g) + ZFactor(g))
    else if Neighbours(p, q, X) then XFactor(g)
    else if Neighbours(p, q, Y) then YFactor(g)
    else if Neighbours(p, q, Z) then ZFactor(g)
    else 0.0
  }

  /** The axis second difference at p gives -2 to p, 1 to its interior neighbours
      along the axis and nothing to any other unknown. */
  lemma AxisRowAt(g: Grid, p: Node, ax: Axis, q: Node)
    requires Valid(g) && Interior(g, p) && Interior(g, q)
    ensures Get(AxisRow(g, p, ax), Index(g, q)) ==
      if q == p then -2.0 else if Neighbours(p, q, ax) then 1.0 else 0.0
  {
    var low, high := Step(p, LowDir(ax)), Step(p, HighDir(ax));
    IndexInjective(g, p, q);
    if Interior(g, low) {
      IndexInjective(g, low, q);
      IndexInjective(g, low, p);
    }
    if Interior(g, high) {
      IndexInjective(g, high, q);
      IndexInjective(g, high, p);
    }
    assert Neighbours(p, q, ax) <==> q == low || q == high;
  }

  /** Every column stored in the axis row of p is the unknown of p or of one of
      its interior neighbours along the axis. */
  lemma AxisRowColumns(g: Grid, p: Node, ax: Axis, c: int)
    requires Valid(g) && Interior(g, p) && c in AxisRow(g, p, ax)
    ensures c == Index(g, p) || exists d :: AxisOf(d) == ax && Interior(g, Step(p, d)) && c == Index(g, Step(p, d))
  {
    var low, high := Step(p, LowDir(ax)), Step(p, HighDir(ax));
    assert AxisOf(LowDir(ax)) == ax && AxisOf(HighDir(ax)) == ax;
    if c != Index(g, p) && !(Interior(g, low) && c == Index(g, low)) {
      assert Interior(g, high) && c == Index(g, high);
    }
  }

  /** Row r of fx X + fy Y + fz Z, built by MatScale and two MatAXPY calls,
      stores exactly the columns stored in row r of any of the three terms. */
  lemma ScaledSumKeys(mx: Matrix, my: Matrix, mz: Matrix, fx: real, fy: real, fz: real, r: int)
    requires |mx| == |my| == |mz| && 0 <= r < |mx|
    ensures Axpy(Axpy(Scale(mx, fx), fy, my), fz, mz)[r].Keys == mx[r].Keys + my[r].Keys + mz[r].Keys
  {
    var sx := Scale(mx, fx);
    ScaleRow(mx, fx, r);
    AxpyRow(sx, fy, my, r);
    AxpyRow(Axpy(sx, fy, my), fz, mz, r);
  }

  /** ... and holds at column c the scaled sum of their values there. */
  lemma ScaledSumEntry(mx: Matrix, my: Matrix, mz: Matrix, fx: real, fy: real, fz: real, r: int, c: int)
    requires |mx| == |my| == |mz| && 0 <= r < |mx|
    ensures Get(Axpy(Axpy(Scale(mx, fx), fy, my), fz, mz)[r], c) ==
      fx * Get(mx[r], c) + fy * Get(my[r], c) + fz * Get(mz[r], c)
  {
    var sx := Scale(mx, fx);
    ScaleRow(mx, fx, r);
    AxpyRow(sx, fy, my, r);
    AxpyRow(Axpy(sx, fy, my), fz, mz, r);
  }

  /** Row p of the full operator stores the columns of the three axis rows of p. */
  lemma EquationMatrixRow(g: Grid, p: Node)
    requires Wide(g) && Interior(g, p)
    ensures 0 <= Index(g, p) < |EquationMatrixInFullDomain(g)|
    ensures EquationMatrixInFullDomain(g)[Index(g, p)].Keys ==
      AxisRow(g, p, X).Keys + AxisRow(g, p, Y).Keys + AxisRow(g, p, Z).Keys
  {
    OperatorSizes(g);
    XOperatorRow(g, p);
    YOperatorRow(g, p);
    ZOperatorRow(g, p);
    ScaledSumKeys(D2dx2In3d(g), D2dy2In3d(g), D2dz2In3d(g), XFactor(g), YFactor(g), ZFactor(g), Index(g, p));
  }

  /** Entry (p, q) of the full operator is the stencil coefficient: the diagonal
      is -2(dy^2 dz^2 + dx^2 dz^2 + dx^2 dy^2), each interior neighbour along an
      axis gets that axis's factor, every other unknown gets 0. */
  lemma EquationMatrixEntry(g: Grid, p: Node, q: Node)
    requires Wide(g) && Interior(g, p) && Interior(g, q)
    ensures 0 <= Index(g, p) < |EquationMatrixInFullDomain(g)|
    ensures Entry(EquationMatrixInFullDomain(g), Index(g, p), Index(g, q)) == StencilCoefficient(g, p, q)
  {
    OperatorSizes(g);
    XOperatorRow(g, p);
    YOperatorRow(g, p);
    ZOperatorRow(g, p);
    ScaledSumEntry(D2dx2In3d(g), D2dy2In3d(g), D2dz2In3d(g), XFactor(g), YFactor(g), ZFactor(g),
                   Index(g, p), Index(g, q));
    AxisRowAt(g, p, X, q);
    AxisRowAt(g, p, Y, q);
    AxisRowAt(g, p, Z, q);
  }

  /** Every column stored in row p is the unknown of p or of one of its six
      neighbours, so it lies inside the unknowns. */
  lemma EquationMatrixColumns(g: Grid, p: Node, c: int)
    requires Wide(g) && Interior(g, p)
    requires 0 <= Index(g, p) < |EquationMatrixInFullDomain(g)|
    requires c in EquationMatrixInFullDomain(g)[Index(g, p)]
    ensures c == Index(g, p) || exists d :: Interior(g, Step(p, d)) && c == Index(g, Step(p, d))
    ensures 0 <= c < Unknowns(g)
  {
    EquationMatrixRow(g, p);
    IndexRoundTrip(g, p);
    var ax := if c in AxisRow(g, p, X) then X else if c in AxisRow(g, p, Y) then Y else Z;
    AxisRowColumns(g, p, ax, c);
    if c != Index(g, p) {
      var d :| AxisOf(d) == ax && Interior(g, Step(p, d)) && c == Index(g, Step(p, d));
      IndexRoundTrip(g, Step(p, d));
    }
  }

  /** A subset has at most as many members. */
  lemma {:induction false} SubsetCard(a: set<int>, b: set<int>)
    requires a <= b
    ensures |a| <= |b|
    decreases a
  {
    if a != {} {
      HasMember(a);
      var x :| x in a;
      SubsetCard(a - {x}, b - {x});
    }
  }

  /** The unknown of p and of its six neighbours: the only columns a row may use. */
  function StencilColumns(g: Grid, p: Node): set<int>
  {
    {Index(g, p), Index(g, Step(p, Left)), Index(g, Step(p, Right)), Index(g, Step(p, Bottom)),
     Index(g, Step(p, Top)), Index(g, Step(p, Near)), Index(g, Step(p, Far))}
  }

  lemma StencilColumnsCard(g: Grid, p: Node)
    ensures |StencilColumns(g, p)| <= 7
  {
  }

  /** Row p stores no column outside the stencil of p. */
  lemma EquationMatrixRowInStencil(g: Grid, p: Node)
    requires Wide(g) && Interior(g, p)
    ensures 0 <= Index(g, p) < |EquationMatrixInFullDomain(g)|
    ensures EquationMatrixInFullDomain(g)[Index(g, p)].Keys <= StencilColumns(g, p)
  {
    EquationMatrixRow(g, p);
    var row := EquationMatrixInFullDomain(g)[Index(g, p)];
    forall c | c in row ensures c in StencilColumns(g, p) {
      EquationMatrixColumns(g, p, c);
      if c != Index(g, p) {
        var d :| Interior(g, Step(p, d)) && c == Index(g, Step(p, d));
        match d
        case Left => case Right => case Bottom => case Top => case Near => case Far =>
      }
    }
  }

  /** Each row of the full operator stores at most 7 columns. */
  lemma EquationMatrixNonzeros(g: Grid, p: Node)
    requires Wide(g) && Interior(g, p)
    ensures 0 <= Index(g, p) < |EquationMatrixInFullDomain(g)|
    ensures |EquationMatrixInFullDomain(g)[Index(g, p)].Keys| <= 7
  {
    EquationMatrixRowInStencil(g, p);
    SubsetCard(EquationMatrixInFullDomain(g)[Index(g, p)].Keys, StencilColumns(g, p));
    StencilColumnsCard(g, p);
  }

  /** With 3 nodes along x and p above an interior node q, entry (p, q) of the
      full operator is dy^2 dz^2 + dx^2 dz^2 but entry (q, p) is dx^2 dz^2: the x
      operator adds a coupling along y to one side only, so the operator is not
      symmetric. */
  lemma EquationMatrixThreeNodesAsymmetric(g: Grid, p: Node)
    requires Valid(g) && g.nx == 3 && Interior(g, p) && p.j >= 2
    ensures Interior(g, Step(p, Bottom))
    ensures 0 <= Index(g, p) < |EquationMatrixInFullDomain(g)|
    ensures 0 <= Index(g, Step(p, Bottom)) < |EquationMatrixInFullDomain(g)|
    ensures Entry(EquationMatrixInFullDomain(g), Index(g, p), Index(g, Step(p, Bottom))) == XFactor(g) + YFactor(g)
    ensures Entry(EquationMatrixInFullDomain(g), Index(g, Step(p, Bottom)), Index(g, p)) == YFactor(g)
    ensures Entry(EquationMatrixInFullDomain(g), Index(g, p), Index(g, Step(p, Bottom))) !=
            Entry(EquationMatrixInFullDomain(g), Index(g, Step(p, Bottom)), Index(g, p))
  {
    OperatorSizes(g);
    FactorsPositive(g);
    var q := Step(p, Bottom);
    var rp, rq := Index(g, p), Index(g, q);
    StepIndex(g, p, Bottom);
    assert rq == rp - 1 && Plane(g) >= 2;
    XOperatorThreeNodesBelow(g, p);
    XOperatorRowThreeNodes(g, q);
    if q.j >= 2 {
      StepIndex(g, q, Bottom);
    }
    assert Get(D2dx2In3d(g)[rp], rq) == 1.0 && Get(D2dx2In3d(g)[rq], rp) == 0.0;
    YOperatorRow(g, p);
    YOperatorRow(g, q);
    AxisRowAt(g, p, Y, q);
    AxisRowAt(g, q, Y, p);
    ZPatternRowNear(g, rp, rq);
    ZPatternRowNear(g, rq, rp);
    ScaledSumEntry(D2dx2In3d(g), D2dy2In3d(g), D2dz2In3d(g), XFactor(g), YFactor(g), ZFactor(g), rp, rq);
    ScaledSumEntry(D2dx2In3d(g), D2dy2In3d(g), D2dz2In3d(g), XFactor(g), YFactor(g), ZFactor(g), rq, rp);
  }

  /** The full operator is symmetric. */
  lemma EquationMatrixSymmetric(g: Grid, r: int, c: int)
    requires Wide(g) && 0 <= r < Unknowns(g) && 0 <= c < Unknowns(g)
    ensures |EquationMatrixInFullDomain(g)| == Unknowns(g)
    ensures Entry(EquationMatrixInFullDomain(g), r, c) == Entry(EquationMatrixInFullDomain(g), c, r)
  {
    OperatorSizes(g);
    var p, q := IndexToNode(g, r), IndexToNode(g, c);
    IndexToNodeRoundTrip(g, r);
    IndexToNodeRoundTrip(g, c);
    EquationMatrixEntry(g, p, q);
    EquationMatrixEntry(g, q, p);
  }
}

/** The embedded-boundary part of the Poisson system: the unknowns a region lists,
    the neighbours of a near-boundary node that lie inside the region, row
    elimination (cross_out_nodes_occupied_by_objects), stencil surgery
    (modify_equation_near_object_boundaries), the three stages of the right-hand
    side and the overriding of the solution inside the regions. Every stage is a
    function on matrix and vector values; the loops of the source are methods
    proved equal to those functions. */
module Embedded {
  import opened Grid
  import opened LinearAlgebra
  import opened BaseOperator
  import opened InnerRegions

  /** Every listed node is an unknown. */
  predicate AllInterior(g: Grid, nodes: seq<Node>)
  {
    forall t :: 0 <= t < |nodes| ==> Interior(g, nodes[t])
  }

  /** Every region lists only unknowns in its two "not at domain edge" lists. */
  predicate AllWellFormed(g: Grid, regs: seq<Region>)
  {
    forall t :: 0 <= t < |regs| ==> WellFormed(g, regs[t])
  }

  // ---- the unknowns of a node list -----------------------------------------

  /** The unknowns of the listed nodes, in list order. */
  function NodeIndices(g: Grid, nodes: seq<Node>): seq<int>
  {
    seq(|nodes|, t requires 0 <= t < |nodes| => Index(g, nodes[t]))
  }

  /** The unknowns of a list of interior nodes are unknowns of the system. */
  lemma NodeIndicesInRange(g: Grid, nodes: seq<Node>)
    requires Valid(g) && AllInterior(g, nodes)
    ensures forall t :: 0 <= t < |nodes| ==> 0 <= NodeIndices(g, nodes)[t] < Unknowns(g)
  {
    forall t | 0 <= t < |nodes| ensures 0 <= NodeIndices(g, nodes)[t] < Unknowns(g) {
      IndexRoundTrip(g, nodes[t]);
    }
  }

  /** The outcome of list_of_nodes_global_indices_in_matrix: the unknowns of all
      nodes, or the abort at the first node that is not interior. */
  datatype IndicesOutcome = Indices(values: seq<int>) | Abort(i: int, j: int, k: int)

  /** Maps the nodes in order through the checked index map; the first node that
      is not interior aborts the program with its coordinates. */
  method ListOfNodesGlobalIndicesInMatrix(g: Grid, nodes: seq<Node>) returns (out: IndicesOutcome)
    requires Valid(g)
    ensures out.Indices? <==> AllInterior(g, nodes)
    ensures out.Indices? ==> out.values == NodeIndices(g, nodes)
    ensures out.Abort? ==>
      (exists t :: 0 <= t < |nodes| && AllInterior(g, nodes[..t]) && out == Abort(nodes[t].i, nodes[t].j, nodes[t].k))
  {
    var indices: seq<int> := [];
    for t := 0 to |nodes|
      invariant AllInterior(g, nodes[..t])
      invariant indices == NodeIndices(g, nodes[..t])
    {
      var p := nodes[t];
      var r := NodeIjkToGlobalIndex(g, p.i, p.j, p.k);
      if r.IncorrectIndex? {
        return Abort(p.i, p.j, p.k);
      }
      assert p == Node(p.i, p.j, p.k);
      IndexToNodeRoundTrip(g, r.value);
      assert nodes[..t + 1][..t] == nodes[..t];
      indices := indices + [r.value];
    }
    assert nodes[..|nodes|] == nodes;
    return Indices(indices);
  }

  // ---- the neighbours inside a region --------------------------------------

  /** A neighbour whose stencil entry the region removes: it is not on the domain
      edge and the region's node test accepts it. */
  predicate Qualifies(g: Grid, reg: Region, q: Node)
  {
    !AtDomainEdge(g, q) && q in reg.inside
  }

  /** The unknowns of the qualifying neighbours of p, visited in the order ds. */
  function AdjacentIn(g: Grid, reg: Region, p: Node, ds: seq<Direction>): seq<int>
    decreases |ds|
  {
    if ds == [] then []
    else
      var q := Step(p, ds[|ds| - 1]);
      AdjacentIn(g, reg, p, ds[..|ds| - 1]) + (if Qualifies(g, reg, q) then [Index(g, q)] else [])
  }

  /** The columns adjacent_nodes_not_at_domain_edge_and_inside_inner_region returns. */
  function AdjacentIndices(g: Grid, reg: Region, p: Node): seq<int>
  {
    AdjacentIn(g, reg, p, Directions)
  }

  /** A qualifying neighbour of an unknown is itself an unknown. */
  lemma QualifyingNeighbourInterior(g: Grid, reg: Region, p: Node, d: Direction)
    requires Valid(g) && Interior(g, p) && Qualifies(g, reg, Step(p, d))
    ensures Interior(g, Step(p, d)) && 0 <= Index(g, Step(p, d)) < Unknowns(g)
  {
    StepIndex(g, p, d);
    GridNodeInteriorIffNotAtEdge(g, Step(p, d));
    IndexRoundTrip(g, Step(p, d));
  }

  /** Visits the six neighbours in order and keeps the unknown of each that is
      not on the domain edge and inside the region. */
  method AdjacentNodesNotAtDomainEdgeAndInsideInnerRegion(g: Grid, reg: Region, p: Node)
    returns (cols: seq<int>)
    requires Valid(g) && Interior(g, p)
    ensures cols == AdjacentIndices(g, reg, p)
  {
    cols := [];
    for t := 0 to |Directions|
      invariant cols == AdjacentIn(g, reg, p, Directions[..t])
    {
      var q := Step(p, Directions[t]);
      assert Directions[..t + 1][..t] == Directions[..t];
      if !AtDomainEdge(g, q) && q in reg.inside {
        QualifyingNeighbourInterior(g, reg, p, Directions[t]);
        var r := NodeIjkToGlobalIndex(g, q.i, q.j, q.k);
        assert q == Node(q.i, q.j, q.k);
        IndexToNodeRoundTrip(g, r.value);
        cols := cols + [r.value];
      }
    }
    assert Directions[..|Directions|] == Directions;
  }

  lemma {:induction false} AdjacentInMembers(g: Grid, reg: Region, p: Node, ds: seq<Direction>, c: int)
    ensures c in AdjacentIn(g, reg, p, ds) <==>
      exists t :: 0 <= t < |ds| && Qualifies(g, reg, Step(p, ds[t])) && c == Index(g, Step(p, ds[t]))
    decreases |ds|
  {
    if ds != [] {
      var init := ds[..|ds| - 1];
      AdjacentInMembers(g, reg, p, init, c);
      assert forall t :: 0 <= t < |init| ==> init[t] == ds[t];
      if c in AdjacentIn(g, reg, p, init) {
        var t :| 0 <= t < |init| && Qualifies(g, reg, Step(p, init[t])) && c == Index(g, Step(p, init[t]));
        assert ds[t] == init[t];
      }
    }
  }

  /** The returned columns are exactly the unknowns of the qualifying neighbours. */
  lemma AdjacentIndicesMembers(g: Grid, reg: Region, p: Node, c: int)
    ensures c in AdjacentIndices(g, reg, p) <==> exists d :: Qualifies(g, reg, Step(p, d)) && c == Index(g, Step(p, d))
  {
    AdjacentInMembers(g, reg, p, Directions, c);
    if exists d :: Qualifies(g, reg, Step(p, d)) && c == Index(g, Step(p, d)) {
      var d :| Qualifies(g, reg, Step(p, d)) && c == Index(g, Step(p, d));
      var t := match d case Left => 0 case Right => 1 case Bottom => 2 case Top => 3 case Near => 4 case Far => 5;
      assert Directions[t] == d;
    }
  }

  lemma {:induction false} AdjacentInNone(g: Grid, reg: Region, p: Node, ds: seq<Direction>)
    requires forall t :: 0 <= t < |ds| ==> !Qualifies(g, reg, Step(p, ds[t]))
    ensures AdjacentIn(g, reg, p, ds) == []
    decreases |ds|
  {
    if ds != [] {
      AdjacentInNone(g, reg, p, ds[..|ds| - 1]);
    }
  }

  lemma {:induction false} AdjacentInCount(g: Grid, reg: Region, p: Node, ds: seq<Direction>)
    ensures |AdjacentIn(g, reg, p, ds)| <= |ds|
    decreases |ds|
  {
    if ds != [] {
      AdjacentInCount(g, reg, p, ds[..|ds| - 1]);
    }
  }

  /** At most six columns are returned, so the six-entry zero buffer handed to
      MatSetValues always covers them; they are all unknowns of the system. */
  lemma AdjacentIndicesFitBuffer(g: Grid, reg: Region, p: Node)
    requires Valid(g) && Interior(g, p)
    ensures |AdjacentIndices(g, reg, p)| <= 6
    ensures forall c :: c in AdjacentIndices(g, reg, p) ==> 0 <= c < Unknowns(g)
  {
    AdjacentInCount(g, reg, p, Directions);
    forall c | c in AdjacentIndices(g, reg, p) ensures 0 <= c < Unknowns(g) {
      AdjacentIndicesMembers(g, reg, p, c);
      var d :| Qualifies(g, reg, Step(p, d)) && c == Index(g, Step(p, d));
      QualifyingNeighbourInterior(g, reg, p, d);
    }
  }

  // ---- row elimination -----------------------------------------------------

  /** MatZeroRows with diagonal 1 on the rows of the region's inner nodes that are
      not at the domain edge, skipped when that list is empty. */
  function CrossOutRegion(a: Matrix, g: Grid, reg: Region): Matrix
  {
    var rows := NodeIndices(g, reg.innerNodesNotAtDomainEdge);
    if |rows| != 0 then ZeroRows(a, rows, 1.0) else a
  }

  /** Row elimination for the regions in order. */
  function CrossOut(a: Matrix, g: Grid, regs: seq<Region>): (res: Matrix)
    ensures |res| == |a|
    decreases |regs|
  {
    if regs == [] then a
    else CrossOutRegion(CrossOut(a, g, regs[..|regs| - 1]), g, regs[|regs| - 1])
  }

  /** Row r is the unknown of an inner node (not at the domain edge) of some region. */
  predicate Occupied(g: Grid, regs: seq<Region>, r: int)
  {
    exists t :: 0 <= t < |regs| && r in NodeIndices(g, regs[t].innerNodesNotAtDomainEdge)
  }

  /** After row elimination, a row listed by some region is the identity row, and
      every other row is as it was. */
  lemma {:induction false} CrossOutRows(a: Matrix, g: Grid, regs: seq<Region>, r: int)
    requires 0 <= r < |a|
    ensures CrossOut(a, g, regs)[r] == if Occupied(g, regs, r) then IdentityRow(r, 1.0) else a[r]
    decreases |regs|
  {
    if regs != [] {
      var init := regs[..|regs| - 1];
      CrossOutRows(a, g, init, r);
      assert forall t :: 0 <= t < |init| ==> init[t] == regs[t];
      if Occupied(g, init, r) {
        var t :| 0 <= t < |init| && r in NodeIndices(g, init[t].innerNodesNotAtDomainEdge);
        assert r in NodeIndices(g, regs[t].innerNodesNotAtDomainEdge);
      }
    }
  }

  /** cross_out_nodes_occupied_by_objects for one region. */
  method CrossOutNodesOccupiedByRegion(a: Matrix, g: Grid, reg: Region) returns (res: Matrix)
    requires Valid(g) && WellFormed(g, reg)
    ensures res == CrossOutRegion(a, g, reg)
  {
    var out := ListOfNodesGlobalIndicesInMatrix(g, reg.innerNodesNotAtDomainEdge);
    assert out.Indices?;
    var rows := out.values;
    res := a;
    if |rows| != 0 {
      res := ZeroRows(a, rows, 1.0);
    }
  }

  /** cross_out_nodes_occupied_by_objects over all regions, in order. */
  method CrossOutNodesOccupiedByObjects(a: Matrix, g: Grid, regs: seq<Region>) returns (res: Matrix)
    requires Valid(g) && AllWellFormed(g, regs)
    ensures res == CrossOut(a, g, regs)
  {
    res := a;
    for t := 0 to |regs|
      invariant res == CrossOut(a, g, regs[..t])
    {
      assert regs[..t + 1][..t] == regs[..t];
      res := CrossOutNodesOccupiedByRegion(res, g, regs[t]);
    }
    assert regs[..|regs|] == regs;
  }

  // ---- stencil surgery ---------------------------------------------------

  /** MatSetValues of zeros in row p at the columns of its qualifying neighbours,
      skipped when there are none. */
  function ZeroCouplings(a: Matrix, g: Grid, reg: Region, p: Node): (res: Matrix)
    requires 0 <= Index(g, p) < |a|
    ensures |res| == |a|
  {
    var cols := AdjacentIndices(g, reg, p);
    var r := Index(g, p);
    if |cols| != 0 then a[r := ZeroEntries(a[r], cols)] else a
  }

  /** Stencil surgery of one region at the listed near-boundary nodes, in order. */
  function ZeroCouplingsAt(a: Matrix, g: Grid, reg: Region, nodes: seq<Node>): (res: Matrix)
    requires Valid(g) && AllInterior(g, nodes) && |a| == Unknowns(g)
    ensures |res| == |a|
    decreases |nodes|
  {
    if nodes == [] then a
    else
      var last := nodes[|nodes| - 1];
      IndexRoundTrip(g, last);
      ZeroCouplings(ZeroCouplingsAt(a, g, reg, nodes[..|nodes| - 1]), g, reg, last)
  }

  /** Stencil surgery for the regions in order. */
  function ModifyNear(a: Matrix, g: Grid, regs: seq<Region>): (res: Matrix)
    requires Valid(g) && AllWellFormed(g, regs) && |a| == Unknowns(g)
    ensures |res| == |a|
    decreases |regs|
  {
    if regs == [] then a
    else
      var last := regs[|regs| - 1];
      ZeroCouplingsAt(ModifyNear(a, g, regs[..|regs| - 1]), g, last, last.nearBoundaryNodesNotAtDomainEdge)
  }

  /** Entry (r, c) is removed by the region: r is the unknown of a listed node one
      of whose qualifying neighbours has unknown c. */
  predicate ZeroedIn(g: Grid, reg: Region, nodes: seq<Node>, r: int, c: int)
  {
    exists t, d :: 0 <= t < |nodes| && Index(g, nodes[t]) == r &&
      Qualifies(g, reg, Step(nodes[t], d)) && c == Index(g, Step(nodes[t], d))
  }

  /** Some region removes entry (r, c). */
  predicate Zeroed(g: Grid, regs: seq<Region>, r: int, c: int)
  {
    exists t :: 0 <= t < |regs| && ZeroedIn(g, regs[t], regs[t].nearBoundaryNodesNotAtDomainEdge, r, c)
  }

  lemma ZeroCouplingsEntry(a: Matrix, g: Grid, reg: Region, p: Node, r: int, c: int)
    requires 0 <= Index(g, p) < |a| && 0 <= r < |a|
    ensures Get(ZeroCouplings(a, g, reg, p)[r], c) ==
      if r == Index(g, p) && c in AdjacentIndices(g, reg, p) then 0.0 else Get(a[r], c)
  {
  }

  /** After the surgery of one region, exactly the removed entries read 0; every
      other entry is as it was. */
  lemma {:induction false} ZeroCouplingsAtEntries(a: Matrix, g: Grid, reg: Region, nodes: seq<Node>, r: int, c: int)
    requires Valid(g) && AllInterior(g, nodes) && |a| == Unknowns(g) && 0 <= r < |a|
    ensures Get(ZeroCouplingsAt(a, g, reg, nodes)[r], c) == if ZeroedIn(g, reg, nodes, r, c) then 0.0 else Get(a[r], c)
    decreases |nodes|
  {
    if nodes != [] {
      var init, last := nodes[..|nodes| - 1], nodes[|nodes| - 1];
      assert forall t :: 0 <= t < |init| ==> init[t] == nodes[t];
      ZeroCouplingsAtEntries(a, g, reg, init, r, c);
      IndexRoundTrip(g, last);
      ZeroCouplingsEntry(ZeroCouplingsAt(a, g, reg, init), g, reg, last, r, c);
      AdjacentIndicesMembers(g, reg, last, c);
      if ZeroedIn(g, reg, init, r, c) {
        var t, d :| 0 <= t < |init| && Index(g, init[t]) == r &&
          Qualifies(g, reg, Step(init[t], d)) && c == Index(g, Step(init[t], d));
        assert nodes[t] == init[t];
      }
      if r == Index(g, last) && c in AdjacentIndices(g, reg, last) {
        var d :| Qualifies(g, reg, Step(last, d)) && c == Index(g, Step(last, d));
        assert nodes[|nodes| - 1] == last;
      }
    }
  }

  /** A row none of whose listed nodes has a qualifying neighbour is left as it
      was, stored columns included. */
  lemma {:induction false} ZeroCouplingsAtUntouched(a: Matrix, g: Grid, reg: Region, nodes: seq<Node>, r: int)
    requires Valid(g) && AllInterior(g, nodes) && |a| == Unknowns(g) && 0 <= r < |a|
    requires forall t, d :: 0 <= t < |nodes| && Index(g, nodes[t]) == r ==> !Qualifies(g, reg, Step(nodes[t], d))
    ensures ZeroCouplingsAt(a, g, reg, nodes)[r] == a[r]
    decreases |nodes|
  {
    if nodes != [] {
      var init, last := nodes[..|nodes| - 1], nodes[|nodes| - 1];
      assert forall t :: 0 <= t < |init| ==> init[t] == nodes[t];
      ZeroCouplingsAtUntouched(a, g, reg, init, r);
      if r == Index(g, last) {
        assert nodes[|nodes| - 1] == last;
        AdjacentInNone(g, reg, last, Directions);
      }
    }
  }

  /** After the surgery of all regions, an entry reads 0 exactly when some region
      removes it; every other entry is as it was. */
  lemma {:induction false} ModifyNearEntries(a: Matrix, g: Grid, regs: seq<Region>, r: int, c: int)
    requires Valid(g) && AllWellFormed(g, regs) && |a| == Unknowns(g) && 0 <= r < |a|
    ensures Get(ModifyNear(a, g, regs)[r], c) == if Zeroed(g, regs, r, c) then 0.0 else Get(a[r], c)
    decreases |regs|
  {
    if regs != [] {
      var init, last := regs[..|regs| - 1], regs[|regs| - 1];
      assert forall t :: 0 <= t < |init| ==> init[t] == regs[t];
      ModifyNearEntries(a, g, init, r, c);
      ZeroCouplingsAtEntries(ModifyNear(a, g, init), g, last, last.nearBoundaryNodesNotAtDomainEdge, r, c);
      if Zeroed(g, init, r, c) {
        var t :| 0 <= t < |init| && ZeroedIn(g, init[t], init[t].nearBoundaryNodesNotAtDomainEdge, r, c);
        assert regs[t] == init[t];
      }
    }
  }

  /** An entry removed by the earlier regions or by the last one is removed by
      the whole sequence. */
  lemma ZeroedGrows(g: Grid, regs: seq<Region>, r: int, c: int)
    requires regs != []
    ensures Zeroed(g, regs[..|regs| - 1], r, c) ==> Zeroed(g, regs, r, c)
    ensures ZeroedIn(g, regs[|regs| - 1], regs[|regs| - 1].nearBoundaryNodesNotAtDomainEdge, r, c) ==> Zeroed(g, regs, r, c)
  {
    var init := regs[..|regs| - 1];
    if Zeroed(g, init, r, c) {
      var t :| 0 <= t < |init| && ZeroedIn(g, init[t], init[t].nearBoundaryNodesNotAtDomainEdge, r, c);
      assert regs[t] == init[t];
    }
  }

  /** A row that no region touches keeps its stored columns and values. */
  lemma {:induction false} ModifyNearUntouched(a: Matrix, g: Grid, regs: seq<Region>, r: int)
    requires Valid(g) && AllWellFormed(g, regs) && |a| == Unknowns(g) && 0 <= r < |a|
    requires forall c :: !Zeroed(g, regs, r, c)
    ensures ModifyNear(a, g, regs)[r] == a[r]
    decreases |regs|
  {
    if regs != [] {
      var init, last := regs[..|regs| - 1], regs[|regs| - 1];
      var nodes := last.nearBoundaryNodesNotAtDomainEdge;
      forall c ensures !Zeroed(g, init, r, c) {
        ZeroedGrows(g, regs, r, c);
      }
      ModifyNearUntouched(a, g, init, r);
      forall t, d | 0 <= t < |nodes| && Index(g, nodes[t]) == r ensures !Qualifies(g, last, Step(nodes[t], d)) {
        ZeroedGrows(g, regs, r, Index(g, Step(nodes[t], d)));
      }
      ZeroCouplingsAtUntouched(ModifyNear(a, g, init), g, last, nodes, r);
    }
  }

  /** modify_equation_near_object_boundaries for one region: the loop over its
      near-boundary nodes. */
  method ModifyEquationNearRegionBoundary(a: Matrix, g: Grid, reg: Region) returns (res: Matrix)
    requires Valid(g) && WellFormed(g, reg) && |a| == Unknowns(g)
    ensures res == ZeroCouplingsAt(a, g, reg, reg.nearBoundaryNodesNotAtDomainEdge)
  {
    var nodes := reg.nearBoundaryNodesNotAtDomainEdge;
    res := a;
    for t := 0 to |nodes|
      invariant res == ZeroCouplingsAt(a, g, reg, nodes[..t])
    {
      assert nodes[..t + 1][..t] == nodes[..t];
      var p := nodes[t];
      var row := NodeIjkToGlobalIndex(g, p.i, p.j, p.k);
      assert p == Node(p.i, p.j, p.k);
      IndexToNodeRoundTrip(g, row.value);
      var cols := AdjacentNodesNotAtDomainEdgeAndInsideInnerRegion(g, reg, p);
      if |cols| != 0 {
        res := res[row.value := ZeroEntries(res[row.value], cols)];
      }
    }
    assert nodes[..|nodes|] == nodes;
  }

  /** modify_equation_near_object_boundaries over all regions, in order. */
  method ModifyEquationNearObjectBoundaries(a: Matrix, g: Grid, regs: seq<Region>) returns (res: Matrix)
    requires Valid(g) && AllWellFormed(g, regs) && |a| == Unknowns(g)
    ensures res == ModifyNear(a, g, regs)
  {
    res := a;
    for t := 0 to |regs|
      invariant res == ModifyNear(a, g, regs[..t])
    {
      assert regs[..t + 1][..t] == regs[..t];
      res := ModifyEquationNearRegionBoundary(res, g, regs[t]);
    }
    assert regs[..|regs|] == regs;
  }

  // ---- the system matrix -------------------------------------------------

  /** The operator with the regions embedded: the full-domain Laplacian, then row
      elimination, then stencil surgery. */
  ghost function SystemMatrix(g: Grid, regs: seq<Region>): (res: Matrix)
    requires Valid(g) && AllWellFormed(g, regs)
    ensures |res| == Unknowns(g)
  {
    OperatorSizes(g);
    ModifyNear(CrossOut(EquationMatrixInFullDomain(g), g, regs), g, regs)
  }

  /** construct_equation_matrix: the full-domain operator, then row elimination,
      then stencil surgery. */
  method ConstructEquationMatrix(g: Grid, regs: seq<Region>) returns (a: Matrix)
    requires Valid(g) && AllWellFormed(g, regs)
    ensures a == SystemMatrix(g, regs)
  {
    a := ConstructEquationMatrixInFullDomain(g);
    a := CrossOutNodesOccupiedByObjects(a, g, regs);
    a := ModifyEquationNearObjectBoundaries(a, g, regs);
  }

  /** The surgery never removes a diagonal entry: a qualifying neighbour is a
      different unknown. */
  lemma NotZeroedOnDiagonal(g: Grid, regs: seq<Region>, r: int)
    requires Valid(g) && AllWellFormed(g, regs)
    ensures !Zeroed(g, regs, r, r)
  {
    forall t, u, d | 0 <= t < |regs| && 0 <= u < |regs[t].nearBoundaryNodesNotAtDomainEdge| &&
      Qualifies(g, regs[t], Step(regs[t].nearBoundaryNodesNotAtDomainEdge[u], d))
      ensures Index(g, Step(regs[t].nearBoundaryNodesNotAtDomainEdge[u], d)) != Index(g, regs[t].nearBoundaryNodesNotAtDomainEdge[u])
    {
      var p := regs[t].nearBoundaryNodesNotAtDomainEdge[u];
      QualifyingNeighbourInterior(g, regs[t], p, d);
      IndexInjective(g, p, Step(p, d));
    }
  }

  /** The row of an unknown inside a region is the identity row of the system:
      1 on the diagonal and 0 at every other column. */
  lemma SystemMatrixOccupiedRow(g: Grid, regs: seq<Region>, r: int, c: int)
    requires Valid(g) && AllWellFormed(g, regs) && 0 <= r < Unknowns(g) && Occupied(g, regs, r)
    ensures Entry(SystemMatrix(g, regs), r, c) == if c == r then 1.0 else 0.0
  {
    OperatorSizes(g);
    var crossed := CrossOut(EquationMatrixInFullDomain(g), g, regs);
    CrossOutRows(EquationMatrixInFullDomain(g), g, regs, r);
    ModifyNearEntries(crossed, g, regs, r, c);
    NotZeroedOnDiagonal(g, regs, r);
  }

  /** Any other row is the full-domain row with the removed entries read as 0. */
  lemma SystemMatrixFreeRow(g: Grid, regs: seq<Region>, r: int, c: int)
    requires Valid(g) && AllWellFormed(g, regs) && 0 <= r < Unknowns(g) && !Occupied(g, regs, r)
    ensures |EquationMatrixInFullDomain(g)| == Unknowns(g)
    ensures Entry(SystemMatrix(g, regs), r, c) ==
      if Zeroed(g, regs, r, c) then 0.0 else Entry(EquationMatrixInFullDomain(g), r, c)
  {
    OperatorSizes(g);
    CrossOutRows(EquationMatrixInFullDomain(g), g, regs, r);
    ModifyNearEntries(CrossOut(EquationMatrixInFullDomain(g), g, regs), g, regs, r, c);
  }

  /** The coefficient the full-domain row of p gives an interior neighbour is the
      factor of that neighbour's axis. */
  lemma NeighbourCoefficient(g: Grid, p: Node, d: Direction)
    requires Wide(g) && Interior(g, p) && Interior(g, Step(p, d))
    ensures 0 <= Index(g, p) < |EquationMatrixInFullDomain(g)|
    ensures Entry(EquationMatrixInFullDomain(g), Index(g, p), Index(g, Step(p, d))) == AxisFactor(g, AxisOf(d))
  {
    EquationMatrixEntry(g, p, Step(p, d));
  }

  /** The coupling of a near-boundary row to a qualifying neighbour is a positive
      coefficient of the full-domain operator: the surgery removes a real term. */
  lemma RemovedCouplingPositive(g: Grid, reg: Region, p: Node, d: Direction)
    requires Wide(g) && Interior(g, p) && Qualifies(g, reg, Step(p, d))
    ensures 0 <= Index(g, p) < |EquationMatrixInFullDomain(g)|
    ensures Entry(EquationMatrixInFullDomain(g), Index(g, p), Index(g, Step(p, d))) > 0.0
  {
    QualifyingNeighbourInterior(g, reg, p, d);
    NeighbourCoefficient(g, p, d);
    FactorsPositive(g);
  }

  /** That coupling is 0 in the system matrix. */
  lemma SystemMatrixDropsCoupling(g: Grid, regs: seq<Region>, t: int, u: int, d: Direction)
    requires Valid(g) && AllWellFormed(g, regs) && 0 <= t < |regs|
    requires 0 <= u < |regs[t].nearBoundaryNodesNotAtDomainEdge|
    requires Qualifies(g, regs[t], Step(regs[t].nearBoundaryNodesNotAtDomainEdge[u], d))
    ensures 0 <= Index(g, regs[t].nearBoundaryNodesNotAtDomainEdge[u]) < Unknowns(g)
    ensures Entry(SystemMatrix(g, regs), Index(g, regs[t].nearBoundaryNodesNotAtDomainEdge[u]),
                  Index(g, Step(regs[t].nearBoundaryNodesNotAtDomainEdge[u], d))) == 0.0
  {
    OperatorSizes(g);
    var p := regs[t].nearBoundaryNodesNotAtDomainEdge[u];
    var r, c := Index(g, p), Index(g, Step(p, d));
    IndexRoundTrip(g, p);
    assert ZeroedIn(g, regs[t], regs[t].nearBoundaryNodesNotAtDomainEdge, r, c);
    ModifyNearEntries(CrossOut(EquationMatrixInFullDomain(g), g, regs), g, regs, r, c);
  }

  // ---- overriding values inside the regions ------------------------------

  /** VecSetValues with INSERT_VALUES of one value at the unknowns of the
      region's inner nodes, skipped when the list is empty. */
  function FillRegion(v: seq<real>, g: Grid, reg: Region, x: real): (res: seq<real>)
    requires Valid(g) && WellFormed(g, reg) && |v| == Unknowns(g)
    ensures |res| == |v|
  {
    var idx := NodeIndices(g, reg.innerNodesNotAtDomainEdge);
    NodeIndicesInRange(g, reg.innerNodesNotAtDomainEdge);
    if |idx| != 0 then VecInsert(v, idx, seq(|idx|, _ => x)) else v
  }

  /** FillRegion for the regions in order, each with the value value(region). */
  function FillRegions(v: seq<real>, g: Grid, regs: seq<Region>, value: Region -> real): (res: seq<real>)
    requires Valid(g) && AllWellFormed(g, regs) && |v| == Unknowns(g)
    ensures |res| == |v|
    decreases |regs|
  {
    if regs == [] then v
    else
      var last := regs[|regs| - 1];
      FillRegion(FillRegions(v, g, regs[..|regs| - 1], value), g, last, value(last))
  }

  /** The last region that lists r among its inner unknowns, or -1 when none does. */
  function LastListing(g: Grid, regs: seq<Region>, r: int): (t: int)
    ensures -1 <= t < |regs|
    decreases |regs|
  {
    if regs == [] then -1
    else if r in NodeIndices(g, regs[|regs| - 1].innerNodesNotAtDomainEdge) then |regs| - 1
    else LastListing(g, regs[..|regs| - 1], r)
  }

  /** LastListing is -1 exactly for the unknowns no region lists; otherwise that
      region lists r and no later region does. */
  lemma {:induction false} LastListingSpec(g: Grid, regs: seq<Region>, r: int)
    ensures LastListing(g, regs, r) == -1 <==> !Occupied(g, regs, r)
    ensures LastListing(g, regs, r) >= 0 ==>
      r in NodeIndices(g, regs[LastListing(g, regs, r)].innerNodesNotAtDomainEdge) &&
      forall u :: LastListing(g, regs, r) < u < |regs| ==> r !in NodeIndices(g, regs[u].innerNodesNotAtDomainEdge)
    decreases |regs|
  {
    if regs != [] {
      var init := regs[..|regs| - 1];
      LastListingSpec(g, init, r);
      assert forall t :: 0 <= t < |init| ==> init[t] == regs[t];
      if Occupied(g, init, r) {
        var t :| 0 <= t < |init| && r in NodeIndices(g, init[t].innerNodesNotAtDomainEdge);
        assert r in NodeIndices(g, regs[t].innerNodesNotAtDomainEdge);
      }
    }
  }

  /** After the regions fill their unknowns in order, every unknown holds the
      value of the last region that lists it, or its old value when none does. */
  lemma {:induction false} FillRegionsRows(v: seq<real>, g: Grid, regs: seq<Region>, value: Region -> real, r: int)
    requires Valid(g) && AllWellFormed(g, regs) && |v| == Unknowns(g) && 0 <= r < |v|
    ensures FillRegions(v, g, regs, value)[r] ==
      if LastListing(g, regs, r) < 0 then v[r] else value(regs[LastListing(g, regs, r)])
    decreases |regs|
  {
    if regs != [] {
      var init, last := regs[..|regs| - 1], regs[|regs| - 1];
      assert forall t :: 0 <= t < |init| ==> init[t] == regs[t];
      FillRegionsRows(v, g, init, value, r);
      NodeIndicesInRange(g, last.innerNodesNotAtDomainEdge);
      VecInsertUniform(FillRegions(v, g, init, value), NodeIndices(g, last.innerNodesNotAtDomainEdge), value(last), r);
    }
  }

  /** set_rhs_at_nodes_occupied_by_objects for one region. */
  method SetRhsAtNodesOccupiedByRegion(b: seq<real>, g: Grid, reg: Region) returns (res: seq<real>)
    requires Valid(g) && WellFormed(g, reg) && |b| == Unknowns(g)
    ensures res == FillRegion(b, g, reg, 0.0)
  {
    var out := ListOfNodesGlobalIndicesInMatrix(g, reg.innerNodesNotAtDomainEdge);
    assert out.Indices?;
    var idx := out.values;
    NodeIndicesInRange(g, reg.innerNodesNotAtDomainEdge);
    res := b;
    if |idx| != 0 {
      var zeroes := seq(|idx|, _ => 0.0);
      res := VecInsert(b, idx, zeroes);
    }
  }

  /** set_solution_at_nodes_of_inner_regions for one region. */
  method SetSolutionAtNodesOfRegion(phi: seq<real>, g: Grid, reg: Region) returns (res: seq<real>)
    requires Valid(g) && WellFormed(g, reg) && |phi| == Unknowns(g)
    ensures res == FillRegion(phi, g, reg, reg.potential)
  {
    var out := ListOfNodesGlobalIndicesInMatrix(g, reg.innerNodesNotAtDomainEdge);
    assert out.Indices?;
    var idx := out.values;
    NodeIndicesInRange(g, reg.innerNodesNotAtDomainEdge);
    res := phi;
    if |idx| != 0 {
      var phiInsideRegion := seq(|idx|, _ => reg.potential);
      res := VecInsert(phi, idx, phiInsideRegion);
    }
  }

  // ---- the compensation at near-boundary rows -----------------------------

  /** The sum of -V times the axis factor over the qualifying neighbours of p
      visited in the order ds. */
  function RhsModIn(g: Grid, reg: Region, p: Node, ds: seq<Direction>): real
    decreases |ds|
  {
    if ds == [] then 0.0
    else
      var d := ds[|ds| - 1];
      RhsModIn(g, reg, p, ds[..|ds| - 1]) +
        (if Qualifies(g, reg, Step(p, d)) then -reg.potential * AxisFactor(g, AxisOf(d)) else 0.0)
  }

  /** The right-hand side compensation of near-boundary node p. */
  function RhsModification(g: Grid, reg: Region, p: Node): real
  {
    RhsModIn(g, reg, p, Directions)
  }

  /** The compensations of all near-boundary nodes of the region, in list order. */
  function RhsModifications(g: Grid, reg: Region): seq<real>
  {
    var nodes := reg.nearBoundaryNodesNotAtDomainEdge;
    seq(|nodes|, t requires 0 <= t < |nodes| => RhsModification(g, reg, nodes[t]))
  }

  /** indicies_of_near_boundary_nodes_and_rhs_modifications: for each near-boundary
      node its unknown and the sum over its qualifying neighbours of -V times the
      factor of the neighbour's direction. */
  method IndiciesOfNearBoundaryNodesAndRhsModifications(g: Grid, reg: Region)
    returns (indices: seq<int>, mods: seq<real>)
    requires Valid(g) && WellFormed(g, reg)
    ensures indices == NodeIndices(g, reg.nearBoundaryNodesNotAtDomainEdge)
    ensures mods == RhsModifications(g, reg)
  {
    var nodes := reg.nearBoundaryNodesNotAtDomainEdge;
    var v := reg.potential;
    indices, mods := [], [];
    for t := 0 to |nodes|
      invariant indices == NodeIndices(g, nodes[..t])
      invariant |mods| == t && forall u :: 0 <= u < t ==> mods[u] == RhsModification(g, reg, nodes[u])
    {
      var p := nodes[t];
      var rhsMod := 0.0;
      for s := 0 to |Directions|
        invariant rhsMod == RhsModIn(g, reg, p, Directions[..s])
      {
        assert Directions[..s + 1][..s] == Directions[..s];
        var q := Step(p, Directions[s]);
        if !AtDomainEdge(g, q) && q in reg.inside {
          if q == Step(p, Left) {
            rhsMod := rhsMod + -v * XFactor(g);
          } else if q == Step(p, Right) {
            rhsMod := rhsMod + -v * XFactor(g);
          } else if q == Step(p, Top) {
            rhsMod := rhsMod + -v * YFactor(g);
          } else if q == Step(p, Bottom) {
            rhsMod := rhsMod + -v * YFactor(g);
          } else if q == Step(p, Near) {
            rhsMod := rhsMod + -v * ZFactor(g);
          } else if q == Step(p, Far) {
            rhsMod := rhsMod + -v * ZFactor(g);
          }
        }
      }
      assert Directions[..|Directions|] == Directions;
      var row := NodeIjkToGlobalIndex(g, p.i, p.j, p.k);
      assert p == Node(p.i, p.j, p.k);
      IndexToNodeRoundTrip(g, row.value);
      assert nodes[..t + 1][..t] == nodes[..t];
      indices := indices + [row.value];
      mods := mods + [rhsMod];
    }
    assert nodes[..|nodes|] == nodes;
  }

  /** The sum over the listed columns of -v times the coefficient the row gives
      each of them. */
  function Compensation(row: Row, cols: seq<int>, v: real): real
    decreases |cols|
  {
    if cols == [] then 0.0
    else Compensation(row, cols[..|cols| - 1], v) + -v * Get(row, cols[|cols| - 1])
  }

  lemma CompensationStep(row: Row, cols: seq<int>, c: int, v: real)
    ensures Compensation(row, cols + [c], v) == Compensation(row, cols, v) + -v * Get(row, c)
  {
    assert (cols + [c])[..|cols|] == cols;
  }

  /** Summing -V times the axis factor over the qualifying neighbours is summing
      -V times the coefficients of a row that gives each of them its axis factor. */
  lemma {:induction false} RhsModInMatchesRow(g: Grid, reg: Region, p: Node, ds: seq<Direction>, row: Row)
    requires forall d :: Qualifies(g, reg, Step(p, d)) ==> Get(row, Index(g, Step(p, d))) == AxisFactor(g, AxisOf(d))
    ensures RhsModIn(g, reg, p, ds) == Compensation(row, AdjacentIn(g, reg, p, ds), reg.potential)
    decreases |ds|
  {
    if ds != [] {
      var init, d := ds[..|ds| - 1], ds[|ds| - 1];
      RhsModInMatchesRow(g, reg, p, init, row);
      var q := Step(p, d);
      if Qualifies(g, reg, q) {
        assert AdjacentIn(g, reg, p, ds) == AdjacentIn(g, reg, p, init) + [Index(g, q)];
        CompensationStep(row, AdjacentIn(g, reg, p, init), Index(g, q), reg.potential);
      } else {
        assert AdjacentIn(g, reg, p, ds) == AdjacentIn(g, reg, p, init);
      }
    }
  }

  /** The central invariant of the embedded boundary: the compensation added to
      the right-hand side of near-boundary node p is -V times the coefficients the
      surgery removes from its row, summed over exactly the columns it zeroes. */
  lemma RhsModificationMatchesRemovedCoefficients(g: Grid, reg: Region, p: Node)
    requires Wide(g) && Interior(g, p)
    ensures 0 <= Index(g, p) < |EquationMatrixInFullDomain(g)|
    ensures RhsModification(g, reg, p) ==
      Compensation(EquationMatrixInFullDomain(g)[Index(g, p)], AdjacentIndices(g, reg, p), reg.potential)
  {
    OperatorSizes(g);
    IndexRoundTrip(g, p);
    var row := EquationMatrixInFullDomain(g)[Index(g, p)];
    forall d | Qualifies(g, reg, Step(p, d)) ensures Get(row, Index(g, Step(p, d))) == AxisFactor(g, AxisOf(d)) {
      QualifyingNeighbourInterior(g, reg, p, d);
      NeighbourCoefficient(g, p, d);
    }
    RhsModInMatchesRow(g, reg, p, Directions, row);
  }

  /** VecSetValues with ADD_VALUES of the region's compensations at the unknowns
      of its near-boundary nodes, skipped when there are none. */
  function ModifyRhsRegion(b: seq<real>, g: Grid, reg: Region): (res: seq<real>)
    requires Valid(g) && WellFormed(g, reg) && |b| == Unknowns(g)
    ensures |res| == |b|
  {
    var idx := NodeIndices(g, reg.nearBoundaryNodesNotAtDomainEdge);
    NodeIndicesInRange(g, reg.nearBoundaryNodesNotAtDomainEdge);
    if |idx| != 0 then VecAdd(b, idx, RhsModifications(g, reg)) else b
  }

  /** The compensation for the regions in order. */
  function ModifyRhs(b: seq<real>, g: Grid, regs: seq<Region>): (res: seq<real>)
    requires Valid(g) && AllWellFormed(g, regs) && |b| == Unknowns(g)
    ensures |res| == |b|
    decreases |regs|
  {
    if regs == [] then b
    else ModifyRhsRegion(ModifyRhs(b, g, regs[..|regs| - 1]), g, regs[|regs| - 1])
  }

  /** The total compensation the regions add at unknown r. */
  function TotalModification(g: Grid, regs: seq<Region>, r: int): real
    decreases |regs|
  {
    if regs == [] then 0.0
    else
      var last := regs[|regs| - 1];
      TotalModification(g, regs[..|regs| - 1], r) +
        SumAt(NodeIndices(g, last.nearBoundaryNodesNotAtDomainEdge), RhsModifications(g, last), r)
  }

  /** The compensations of all regions accumulate at every row; a row that no
      region lists as near its boundary is left as it was. */
  lemma {:induction false} ModifyRhsRows(b: seq<real>, g: Grid, regs: seq<Region>, r: int)
    requires Valid(g) && AllWellFormed(g, regs) && |b| == Unknowns(g) && 0 <= r < |b|
    ensures ModifyRhs(b, g, regs)[r] == b[r] + TotalModification(g, regs, r)
    ensures (forall t :: 0 <= t < |regs| ==> r !in NodeIndices(g, regs[t].nearBoundaryNodesNotAtDomainEdge)) ==>
      ModifyRhs(b, g, regs)[r] == b[r]
    decreases |regs|
  {
    if regs != [] {
      var init, last := regs[..|regs| - 1], regs[|regs| - 1];
      assert forall t :: 0 <= t < |init| ==> init[t] == regs[t];
      ModifyRhsRows(b, g, init, r);
      var idx := NodeIndices(g, last.nearBoundaryNodesNotAtDomainEdge);
      if idx == [] {
        assert SumAt(idx, RhsModifications(g, last), r) == 0.0;
      }
      if forall t :: 0 <= t < |regs| ==> r !in NodeIndices(g, regs[t].nearBoundaryNodesNotAtDomainEdge) {
        assert r !in NodeIndices(g, regs[|regs| - 1].nearBoundaryNodesNotAtDomainEdge);
        SumAtUnlisted(idx, RhsModifications(g, last), r);
      }
    }
  }

  /** modify_rhs_near_object_boundaries for one region. */
  method ModifyRhsNearRegionBoundary(b: seq<real>, g: Grid, reg: Region) returns (res: seq<real>)
    requires Valid(g) && WellFormed(g, reg) && |b| == Unknowns(g)
    ensures res == ModifyRhsRegion(b, g, reg)
  {
    var indices, mods := IndiciesOfNearBoundaryNodesAndRhsModifications(g, reg);
    NodeIndicesInRange(g, reg.nearBoundaryNodesNotAtDomainEdge);
    res := b;
    if |indices| != 0 {
      res := VecAdd(b, indices, mods);
    }
  }
}

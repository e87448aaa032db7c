# Embedded-boundary Poisson system builder

A Dafny model of the sequential core of the electrostatic field solver of a 3-D
particle-in-cell code (`field_solver.cpp`), together with the collection of
inner regions the solver walks (`inner_region.h`).

The solver sets up a finite-difference Poisson system over the interior nodes of
a regular `nx × ny × nz` grid. Its unknowns are the interior nodes, numbered x
fastest, then y, then z.

- The operator is the 7-point Laplacian scaled to clear denominators,
  `dy²dz²·Dxx + dx²dz²·Dyy + dx²dy²·Dzz`. It is built from 1-D second-difference
  patterns that are replicated along the block diagonal.
- Conducting regions at a fixed potential are embedded in two steps:
  - the row of every unknown inside a region becomes an identity row;
  - in every near-boundary row, the entries coupling it to neighbours inside the
    region are set to 0.
- The right-hand side is built in three stages:
  1. the charge term plus the potentials from the outer domain edge;
  2. zeros inside the regions;
  3. `-V·factor` added at near-boundary rows, one term for each removed coupling.
- After the linear solve, the regions' potentials are forced at their unknowns.
  The solution is then scattered onto the mesh, and the electric field is taken
  by finite differences.

Modules, one per file:

- `Grid` (`grid.dfy`): the node/unknown numbering; the checked index map, with its abort and its inverse; the six axis directions; the Kronecker delta and the two difference quotients.
- `LinearAlgebra` (`linear_algebra.dfy`): sparse rows as `map<int, real>`, matrices as sequences of rows, and the PETSc operations as functions on values:
  - MatSetValues (INSERT), which ignores a negative column as PETSc does;
  - MatScale, MatAXPY;
  - MatZeroRows;
  - VecSetValues (INSERT and ADD).
- `Patterns` (`patterns.dfy`):
  - the loop builders of the 2-D x/y patterns, of the 3-D z operator and of the block-diagonal replication, each proved equal to a row-by-row specification;
  - the lemmas that say what each row is on the grid.
- `BaseOperator` (`base_operator.dfy`): the scaled sum and its stencil characterisation.
- `InnerRegions` (`inner_regions.dfy`): the region record, the manager class and its search loops.
- `Embedded` (`embedded.dfy`):
  - row elimination, stencil surgery, the override values and the compensation;
  - the central invariant: the compensation at a near-boundary row is exactly minus the potential times the coefficients removed from that row.
- `Solver` (`solver.dfy`):
  - the mesh (a class with `array3` fields);
  - the solver object (a class holding the operator, right-hand side and solution);
  - its i/j/k loops, proved against specification functions.

Two places where the intended behaviour and the code differ:

- Grids with at most 2 nodes along an axis are meant to be refused up front. The code has no such check. The model requires `Valid` (at least 3 nodes per axis, positive cell sizes) of every operation instead.
- With exactly 3 nodes along an axis, the coupling to the domain edge is meant to be dropped. The code's patterns do something else:
  - Along x (nx = 3), every row of the 2-D x operator takes the right pattern [1, -2] at columns (s-1, s). PETSc ignores the column -1 of row 0. Every later row s couples unknown s to unknown s-1, which is the interior node one step down along y. The full-domain operator thus carries a coupling the 7-point stencil does not have, and it is not symmetric: `Patterns.XPatternRowThreeNodes`, `Patterns.XOperatorRowThreeNodes`, `BaseOperator.EquationMatrixThreeNodesAsymmetric`.
  - Along y (ny = 3), every row of the 2-D y operator takes the bottom pattern, whose second column is the plane size or past it. After the replication along the diagonal, that entry of every z-plane but the last lands on the unknown of the same node one z-plane on. Along z (nz = 3), every row takes the near pattern, whose second column is past the last unknown. `Patterns.YColumnsInRange` and `Patterns.ZColumnsInRange` show that the columns stay inside the matrix exactly when the axis has at least 4 nodes.

  The node-level stencil lemmas therefore assume `Wide` (every axis has at least 4 nodes).

## Model

| member | source | states |
|---|---|---|
| Grid.GridNodeInteriorIffNotAtEdge | field_solver.cpp:965-981 | a grid node is an unknown exactly when it is not on the domain edge |
| Grid.NodeIjkToGlobalIndex | field_solver.cpp:965-981 | the index map aborts with the coordinates exactly for a node that is not interior; otherwise its value is an unknown below (nx-2)(ny-2)(nz-2) that maps back to (i, j, k) |
| Grid.IndexRoundTrip | field_solver.cpp:977-980 | an interior node's index lies in [0, unknowns) and decodes back to the node |
| Grid.IndexToNodeRoundTrip | field_solver.cpp:977-980 | every unknown is the index of exactly one interior node (the map is onto) |
| Grid.IndexInjective | field_solver.cpp:977-980 | two interior nodes have the same index only if they are the same node |
| Grid.StepIndex | field_solver.cpp:977-980 | the neighbour one step along x, y or z has index ±1, ±(nx-2), ±(nx-2)(ny-2) |
| Grid.KroneckerDelta | field_solver.cpp:942-949 | the result is 1 when i = j and 0 otherwise |
| Grid.CentralDifference | field_solver.cpp:1050-1053 | the result times 2d is phi2 - phi1 |
| Grid.BoundaryDifference | field_solver.cpp:1055-1058 | the result times d is phi2 - phi1 |
| Patterns.ConstructD2dx2In2d | field_solver.cpp:435-490 | the loop builds the 2-D x operator whose rows are [-2, 1], [1, -2] or [1, -2, 1] according to the row's position modulo nx-2, with the column -1 of row 0 (nx = 3 only) ignored |
| Patterns.ConstructD2dy2In2d | field_solver.cpp:491-545 | the loop builds the 2-D y operator: the same patterns at offset nx-2, the boundary ones in the first and last row blocks |
| Patterns.ConstructD2dz2In3d | field_solver.cpp:339-394 | the loop builds the 3-D z operator: offset (nx-2)(ny-2), [-2, 1] in the first plane, [1, -2] in the last |
| Patterns.MultiplyPatternAlongDiagonal | field_solver.cpp:396-432 | result row i holds the stored entries of pattern row i mod pt moved by (i / pt)·pt, and nothing else |
| Patterns.ConstructD2dx2In3d | field_solver.cpp:307-321 | the 3-D x operator is the 2-D x pattern replicated nz-2 times along the diagonal |
| Patterns.ConstructD2dy2In3d | field_solver.cpp:323-337 | the 3-D y operator is the 2-D y pattern replicated nz-2 times along the diagonal |
| Patterns.ShiftColumns | field_solver.cpp:415-417 | the moved row stores exactly the pattern row's columns shifted by the block offset, with their values |
| Patterns.BlockDiagonalRow | field_solver.cpp:396-432 | row s + b·pt of the replicated operator is pattern row s moved into block b |
| Patterns.BlockDiagonalInBlocks | field_solver.cpp:396-432 | when the pattern's columns lie inside the pattern, every stored column of row i lies in the diagonal block of i |
| Patterns.XPatternRowByPosition | field_solver.cpp:435-490 | with nx ≥ 4 the x pattern of the unknown at x position x is the left pattern at x = 0, the right one at x = nx-3, the centred one otherwise |
| Patterns.XPatternRowThreeNodes | field_solver.cpp:435-490 | with nx = 3 every row takes the right pattern: row 0 keeps only its -2, since column -1 is ignored, and every later row s is [1, -2] at columns (s-1, s) |
| Patterns.YPatternRowByPosition | field_solver.cpp:491-545 | with ny ≥ 4 the y pattern is chosen by the x-row: bottom in the first, top in the last, centred otherwise |
| Patterns.ZPatternRowByPosition | field_solver.cpp:339-394 | with nz ≥ 4 the z pattern is chosen by the z-plane: near in the first, far in the last, centred otherwise |
| Patterns.XOperatorRow | field_solver.cpp:307-321 | the row of interior node p in the 3-D x operator is the x second difference at p: -2 at p, 1 at each x neighbour that is interior |
| Patterns.YOperatorRow | field_solver.cpp:323-337 | the row of p in the 3-D y operator is the y second difference at p |
| Patterns.ZOperatorRow | field_solver.cpp:339-394 | the row of p in the 3-D z operator is the z second difference at p |
| Patterns.XColumnsInRange | field_solver.cpp:435-490 | every column of the 2-D x operator lies in the plane on every valid grid |
| Patterns.XOperatorRowThreeNodes | field_solver.cpp:307-321 | with nx = 3 the row of interior node p in the 3-D x operator is -2 at p alone when p is in the first row of unknowns along y, and otherwise also 1 at the node one step down along y |
| Patterns.YColumnsInRange | field_solver.cpp:491-545 | every column of the 2-D y operator lies in the plane exactly when ny ≥ 4 |
| Patterns.ZColumnsInRange | field_solver.cpp:339-394 | every column of the 3-D z operator lies among the unknowns exactly when nz ≥ 4 |
| BaseOperator.ConstructEquationMatrixInFullDomain | field_solver.cpp:66-90 | the operator is dy²dz²·Dxx + dx²dz²·Dyy + dx²dy²·Dzz (MatScale then two MatAXPY) |
| BaseOperator.FactorsPositive | field_solver.cpp:77-86 | the three axis factors are positive on a valid grid |
| BaseOperator.ScaledSumEntry | field_solver.cpp:76-86 | each entry of the scaled sum is fx·X + fy·Y + fz·Z at that entry |
| BaseOperator.EquationMatrixEntry | field_solver.cpp:66-90 | entry (p, q) is -2(dy²dz² + dx²dz² + dx²dy²) on the diagonal, the axis factor for an interior neighbour q of p, and 0 for any other interior q |
| BaseOperator.EquationMatrixColumns | field_solver.cpp:66-90 | every stored column of row p is p itself or an interior neighbour of p, and is an unknown |
| BaseOperator.EquationMatrixNonzeros | field_solver.cpp:66-90 | every row stores at most 7 entries |
| BaseOperator.EquationMatrixSymmetric | field_solver.cpp:66-90 | entry (r, c) equals entry (c, r) for all unknowns r, c |
| BaseOperator.EquationMatrixThreeNodesAsymmetric | field_solver.cpp:66-90 | with nx = 3 and q the interior node one step down along y from p, entry (p, q) is dy²dz² + dx²dz² but entry (q, p) is dx²dz², so the operator is not symmetric |
| InnerRegions.ShapeOf | inner_region.h:234-260 | a config part yields no region type exactly when its kind is unknown |
| InnerRegions.RegionsFromConfigSpec | inner_region.h:232-262 | building aborts exactly when some part has an unknown kind; otherwise there is one region per part, in config order, of the type the part names |
| InnerRegions.RegionsManager.Create | inner_region.h:232-262 | the constructor's loop appends one region per part in order; null (the abort) exactly when some part is of unknown type |
| InnerRegions.RegionsManager.CheckIfParticleInside | inner_region.h:266-273 | true exactly when some region reports the particle inside (false for no regions) |
| InnerRegions.RegionsManager.CheckIfParticleInsideAndCountCharge | inner_region.h:275-282 | true exactly when some region reports the particle; the hit is the first such region, and no earlier one reports it |
| Embedded.ListOfNodesGlobalIndicesInMatrix | field_solver.cpp:956-963 | the indices of all nodes in list order when every node is interior; otherwise the abort at the first non-interior node |
| Embedded.AdjacentNodesNotAtDomainEdgeAndInsideInnerRegion | field_solver.cpp:270-286 | the loop collects the indices of the neighbours (in adjacency order) that are off the domain edge and inside the region |
| Embedded.AdjacentIndicesMembers | field_solver.cpp:270-286 | a column is collected exactly when it is the index of a qualifying neighbour |
| Embedded.AdjacentIndicesFitBuffer | field_solver.cpp:211-214 | at most 6 columns are collected, all unknowns, so the six-entry zero buffer suffices |
| Embedded.QualifyingNeighbourInterior | field_solver.cpp:270-286 | a qualifying neighbour is an interior node, so its index is an unknown |
| Embedded.CrossOutNodesOccupiedByRegion | field_solver.cpp:104-146 | MatZeroRows with diagonal 1 at the region's inner unknowns, skipped for an empty list |
| Embedded.CrossOutNodesOccupiedByObjects | field_solver.cpp:92-101 | the regions are crossed out in order |
| Embedded.CrossOutRows | field_solver.cpp:92-146 | after row elimination a row listed by some region is the identity row and every other row is unchanged |
| Embedded.ModifyEquationNearRegionBoundary | field_solver.cpp:207-236 | the loop zeroes, in each near-boundary row, the columns of its qualifying neighbours |
| Embedded.ModifyEquationNearObjectBoundaries | field_solver.cpp:193-205 | the regions are processed in order |
| Embedded.ZeroCouplingsAtEntries | field_solver.cpp:207-236 | after one region's surgery an entry is 0 when its row is a listed near-boundary node and its column a qualifying neighbour, and is unchanged otherwise |
| Embedded.ModifyNearEntries | field_solver.cpp:193-236 | after all regions' surgery an entry is 0 exactly where some region zeroes it, else unchanged |
| Embedded.ModifyNearUntouched | field_solver.cpp:207-236 | a row with no qualifying neighbour in any region is left as it was |
| Embedded.ConstructEquationMatrix | field_solver.cpp:54-62 | the full-domain operator, then row elimination, then stencil surgery |
| Embedded.NotZeroedOnDiagonal | field_solver.cpp:207-236 | the surgery never removes a diagonal entry |
| Embedded.SystemMatrixOccupiedRow | field_solver.cpp:54-62 | the row of an unknown inside a region is 1 on the diagonal and 0 elsewhere in the final operator |
| Embedded.SystemMatrixFreeRow | field_solver.cpp:54-62 | any other row is the full-domain row with the removed entries read as 0 |
| Embedded.NeighbourCoefficient | field_solver.cpp:66-90 | the full-domain coefficient of an interior neighbour is the factor of its axis |
| Embedded.RemovedCouplingPositive | field_solver.cpp:207-236 | a coupling the surgery removes is a positive coefficient of the full-domain operator |
| Embedded.SystemMatrixDropsCoupling | field_solver.cpp:207-236 | that coupling is 0 in the final operator |
| Embedded.LastListingSpec | field_solver.cpp:873-882 | the last region listing an unknown is -1 exactly when none does; otherwise it lists it and no later region does |
| Embedded.FillRegionsRows | field_solver.cpp:873-882 | after the regions write their value in order, each unknown holds the value of the last region listing it, else its old value (last writer wins) |
| Embedded.SetRhsAtNodesOccupiedByRegion | field_solver.cpp:664-687 | zeros at the region's inner unknowns, skipped for an empty list |
| Embedded.SetSolutionAtNodesOfRegion | field_solver.cpp:884-910 | the region's potential at its inner unknowns, skipped for an empty list |
| Embedded.IndiciesOfNearBoundaryNodesAndRhsModifications | field_solver.cpp:798-833 | the indices of the near-boundary nodes in order, and for each the sum of -V times the axis factor (dy²dz² left/right, dx²dz² top/bottom, dx²dy² near/far) over its qualifying neighbours |
| Embedded.RhsModificationMatchesRemovedCoefficients | field_solver.cpp:798-833 | the compensation of a near-boundary node is -V times the sum of the full-domain coefficients at exactly the columns the surgery zeroes in its row |
| Embedded.ModifyRhsNearRegionBoundary | field_solver.cpp:727-760 | VecSetValues with ADD_VALUES of the compensations at the near-boundary unknowns, skipped when there are none |
| Embedded.ModifyRhsRows | field_solver.cpp:715-760 | the compensations of all regions accumulate at each row; a row no region lists is unchanged |
| Solver.RhsAtNodeInjectsBoundary | field_solver.cpp:621-637 | the full-domain right-hand side is the charge term minus the axis factor times the boundary potential for each neighbour on the domain edge |
| Solver.FieldSolver.constructor | field_solver.cpp:3-26 | the solution is all zeros, and the operator is the system matrix with the regions embedded |
| Solver.FieldSolver.RhsAtMeshNode | field_solver.cpp:621-637 | the value computed step by step is the full-domain right-hand side of the node |
| Solver.FieldSolver.InitRhsVectorInFullDomain | field_solver.cpp:602-651 | the k, j, i loop leaves in every unknown the full-domain right-hand side of its node |
| Solver.FieldSolver.SetRhsAtNodesOccupiedByObjects | field_solver.cpp:653-662 | zeros written region by region at the inner unknowns |
| Solver.FieldSolver.ModifyRhsNearObjectBoundaries | field_solver.cpp:715-725 | the compensations added region by region |
| Solver.FieldSolver.InitRhsVector | field_solver.cpp:593-600 | the right-hand side after the three stages in order |
| Solver.RhsVectorRows | field_solver.cpp:593-600 | each row is 0 inside a region and the full-domain value elsewhere, plus the compensation every region adds there |
| Solver.FieldSolver.SetSolutionAtNodesOfInnerRegions | field_solver.cpp:873-882 | each region's potential written region by region at its inner unknowns |
| Solver.RegionNodeHoldsPotential | field_solver.cpp:873-910 | an inner node of region t holds that region's potential after the override and the scatter, when no later region lists it |
| Solver.FieldSolver.TransferSolutionToSpatMesh | field_solver.cpp:983-1001 | each interior mesh node takes the solution at its unknown; each edge node keeps its value |
| Solver.FieldSolver.SolvePoissonEqn | field_solver.cpp:576-591 | the right-hand side is assembled, the solution is the solve from the previous solution with the regions' potentials forced, and the mesh receives it |
| Solver.FieldSolver.FieldAtNode | field_solver.cpp:1018-1042 | the component formulas at one node give minus the one-sided difference at an axis end and minus the central difference elsewhere |
| Solver.FieldSolver.EvalFieldsFromPotential | field_solver.cpp:1004-1048 | every node of the mesh gets that field from the potential |
| Solver.RampComponent | field_solver.cpp:1018-1040 | on a potential falling linearly by e per unit length, each of the three formulas gives exactly e |
| Solver.LinearRampGivesUniformField | field_solver.cpp:1004-1048 | the potential phi0 - (ex·x + ey·y + ez·z) gives the field (ex, ey, ez) at every node, edges included |

## Left out

- PETSc object lifecycle (VecCreate, MatCreateSeqAIJ, MatSetUp, assembly begin/end, destroy), including the unreleased temporary vectors at field_solver.cpp:142-144: this is library plumbing, and matrices and vectors are plain values here.
- The Krylov solve (field_solver.cpp:547-567: GMRES, GAMG preconditioner, rtol 1e-12, nonzero initial guess). It is a function parameter that receives the operator, the right-hand side and the initial guess, and is only assumed to return one value per unknown.
- MatZeroRows' effect on its two temporary vectors: it is discarded by the code, and only the row-to-identity effect on the operator is modelled.
- Geometric containment (`check_if_node_inside`, `check_if_point_inside`) and the node classification that fills the four node lists: their bodies are not part of this model. A region carries its node lists and its node test (the set of nodes it accepts) as data, and the particle test is a function parameter.
- The `Node_reference` helpers (`adjacent_nodes`, `left_from` and the rest) are not part of this model. Adjacency is modelled as the six axis neighbours in the order left, right, bottom, top, near, far, and the direction tests as the matching one-step offsets. Every neighbour matches exactly one test, so the if-chain reduces to the factor of its axis.
- The per-region charge counting behind `check_if_particle_inside_and_count_charge`: it updates counters the solver never reads. The manager's loop is modelled and reports the region hit.
- I/O, MPI and diagnostics: HDF5 output, the `print*` methods, `sync_absorbed_charge_and_particles_across_proc` and config parsing.
- Floating point: all arithmetic is on `real`, and M_PI is the literal 3.14159265358979323846.
- The "with model" region overloads: they repeat the plain ones line for line. The model uses one Region type and one list, with the plain regions first.
- The abort paths beyond the index map: only `ListOfNodesGlobalIndicesInMatrix` and `NodeIjkToGlobalIndex` model the abort. The region stages require `WellFormed` regions (interior node lists), so the abort cannot occur there.
- Patterns.ConstructD2dy2In2d, Patterns.ConstructD2dy2In3d, Patterns.ConstructD2dz2In3d: with exactly 3 nodes along y or z the code writes a coefficient at a column at or past the matrix size, which PETSc refuses in its checking builds. The model keeps the value at that column, so on such grids these operators hold entries that the program does not have. A negative column is ignored, as PETSc does.
- `eval_potential` (field_solver.cpp:569-574): a wrapper that only calls `solve_poisson_eqn`.
- Solver.FieldSolver.constructor: the right-hand side starts as zeros; in the code it is allocated without values (field_solver.cpp:21) and only filled by the first assembly.
- BaseOperator.EquationMatrixEntry, BaseOperator.EquationMatrixColumns, BaseOperator.EquationMatrixNonzeros, BaseOperator.EquationMatrixSymmetric, Embedded.RhsModificationMatchesRemovedCoefficients: these node-level stencil facts are stated only for `Wide` grids (every axis has at least 4 nodes), since with 3 nodes along an axis the code's couplings are not the 7-point stencil (see `BaseOperator.EquationMatrixThreeNodesAsymmetric`).
- Grids with at most 2 nodes along an axis: every operation requires `Valid`, so nothing is modelled for them; the code has no check for this case.

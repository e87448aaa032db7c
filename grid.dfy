/** The structured grid, the interior-node numbering used for the unknowns of the
    Poisson system, the six axis neighbours of a node and the scalar helpers of
    the field solver (kronecker_delta, central_difference, boundary_difference). */
module Grid {

  /** Node counts and cell sizes of the spatial mesh. */
  datatype Grid = Grid(nx: int, ny: int, nz: int, dx: real, dy: real, dz: real)

  /** A grid node by its integer coordinates (0-based along each axis). */
  datatype Node = Node(i: int, j: int, k: int)

  /** A mesh the solver can work on: at least one interior layer along every
      axis and positive cell sizes. */
  predicate Valid(g: Grid)
  {
    g.nx >= 3 && g.ny >= 3 && g.nz >= 3 && g.dx > 0.0 && g.dy > 0.0 && g.dz > 0.0
  }

  /** Number of interior nodes along x, along y, in one z-plane, and in all. */
  function Ax(g: Grid): int { g.nx - 2 }
  function Ay(g: Grid): int { g.ny - 2 }
  function Plane(g: Grid): int { Ax(g) * Ay(g) }
  function Unknowns(g: Grid): int { Plane(g) * (g.nz - 2) }

  lemma UnknownsPositive(g: Grid)
    requires Valid(g)
    ensures Ax(g) >= 1 && Ay(g) >= 1 && Plane(g) >= Ax(g) && Plane(g) >= Ay(g)
    ensures Unknowns(g) >= Plane(g) >= 1
  {
    MulMonotone(Ax(g), Ay(g));
    MulMonotone(Ay(g), Ax(g));
    MulMonotone(Plane(g), g.nz - 2);
  }

  predicate InGrid(g: Grid, p: Node)
  {
    0 <= p.i < g.nx && 0 <= p.j < g.ny && 0 <= p.k < g.nz
  }

  /** An interior node: an unknown of the Poisson system. */
  predicate Interior(g: Grid, p: Node)
  {
    1 <= p.i <= g.nx - 2 && 1 <= p.j <= g.ny - 2 && 1 <= p.k <= g.nz - 2
  }

  /** A node of the outermost layer along some axis. */
  predicate AtDomainEdge(g: Grid, p: Node)
  {
    p.i == 0 || p.i == g.nx - 1 || p.j == 0 || p.j == g.ny - 1 || p.k == 0 || p.k == g.nz - 1
  }

  /** A grid node is an unknown exactly when it is not on the domain edge. */
  lemma GridNodeInteriorIffNotAtEdge(g: Grid, p: Node)
    requires InGrid(g, p)
    ensures Interior(g, p) <==> !AtDomainEdge(g, p)
  {
  }

  /** Linear index of an interior node: numbering runs along x, then y, then z. */
  function Index(g: Grid, p: Node): int
  {
    (p.i - 1) + (p.j - 1) * Ax(g) + (p.k - 1) * Plane(g)
  }

  /** The inverse numbering: the interior node that carries unknown r. */
  function IndexToNode(g: Grid, r: int): Node
    requires Valid(g) && 0 <= r
  {
    Node(r % Ax(g) + 1, (r / Ax(g)) % Ay(g) + 1, r / Plane(g) + 1)
  }

  /** The outcome of node_ijk_to_global_index_in_matrix: an unknown index, or the
      abort ("incorrect index") with the offending coordinates. */
  datatype IndexOutcome = GlobalIndex(value: nat) | IncorrectIndex(i: int, j: int, k: int)

  /** The checked index map: aborts on every node that is not interior, and on
      interior nodes yields the unknown that IndexToNode maps back to (i, j, k). */
  function NodeIjkToGlobalIndex(g: Grid, i: int, j: int, k: int): (r: IndexOutcome)
    requires Valid(g)
    ensures r.IncorrectIndex? <==> !Interior(g, Node(i, j, k))
    ensures r.IncorrectIndex? ==> r == IncorrectIndex(i, j, k)
    ensures r.GlobalIndex? ==> r.value < Unknowns(g) && IndexToNode(g, r.value) == Node(i, j, k)
  {
    if i <= 0 || i >= g.nx - 1 || j <= 0 || j >= g.ny - 1 || k <= 0 || k >= g.nz - 1 then
      IncorrectIndex(i, j, k)
    else
      IndexRoundTrip(g, Node(i, j, k));
      GlobalIndex(Index(g, Node(i, j, k)))
  }

  // ---- arithmetic helpers -------------------------------------------------

  lemma MulMonotone(a: int, b: int)
    requires a >= 1 && b >= 1
    ensures a * b >= a
  {
    assert a * b == a * (b - 1) + a;
  }

  /** The quotient and remainder of Euclidean division are unique. */
  lemma DivModUnique(n: int, d: int, q: int, m: int)
    requires d > 0 && 0 <= m < d && n == q * d + m
    ensures n / d == q && n % d == m
  {
    var q', m' := n / d, n % d;
    assert n == q' * d + m';
    assert (q - q') * d == m' - m;
    MultipleOf(q - q', d);
  }

  /** A multiple of d other than 0 is at least d away from 0. */
  lemma MultipleOf(k: int, d: int)
    requires d >= 1
    ensures k == 0 || k * d >= d || k * d <= -d
  {
    if k >= 1 {
      MulMonotone(k, d);
    } else if k <= -1 {
      MulMonotone(-k, d);
      assert k * d == -((-k) * d);
    }
  }

  /** x + y * a lies below a * b when x < a and y < b. */
  lemma MixedBound(x: int, y: int, a: int, b: int)
    requires 0 <= x < a && 0 <= y < b
    ensures 0 <= x + y * a < a * b
  {
    assert y * a <= (b - 1) * a by {
      assert (b - 1) * a - y * a == (b - 1 - y) * a;
      assert (b - 1 - y) * a >= 0;
    }
    assert (b - 1) * a + a == a * b;
  }

  /** Decoding the number of (x, y, z) recovers the coordinates, and each partial
      quotient and remainder that the x, y and z operators test. */
  lemma Decompose(g: Grid, x: int, y: int, z: int)
    requires Valid(g)
    requires 0 <= x < Ax(g) && 0 <= y < Ay(g) && 0 <= z < g.nz - 2
    ensures var r := x + y * Ax(g) + z * Plane(g);
      && 0 <= r < Unknowns(g)
      && r % Ax(g) == x && r / Ax(g) == y + z * Ay(g) && (r / Ax(g)) % Ay(g) == y
      && r % Plane(g) == x + y * Ax(g) && r / Plane(g) == z
  {
    var a, b, c := Ax(g), Ay(g), g.nz - 2;
    var r := x + y * a + z * (a * b);
    MixedBound(x, y, a, b);
    MixedBound(x + y * a, z, a * b, c);
    DivModUnique(r, a * b, z, x + y * a);
    assert r == (y + z * b) * a + x;
    DivModUnique(r, a, y + z * b, x);
    DivModUnique(y + z * b, b, z, y);
  }

  lemma RecomposeInts(r: int, a: int, b: int, c: int)
    requires a >= 1 && b >= 1 && c >= 1 && 0 <= r < (a * b) * c
    ensures 0 <= r % a < a && 0 <= (r / a) % b < b && 0 <= r / (a * b) < c
    ensures r == r % a + ((r / a) % b) * a + (r / (a * b)) * (a * b)
  {
    var x, w := r % a, r / a;
    var y, z := w % b, w / b;
    var ab := a * b;
    assert r == w * a + x && 0 <= w;
    assert w == z * b + y && 0 <= z;
    assert r == (x + y * a) + z * ab by {
      assert w * a == z * ab + y * a by {
        assert w * a == (z * b + y) * a;
        assert (z * b + y) * a == z * b * a + y * a;
        assert z * b * a == z * ab;
      }
    }
    MixedBound(x, y, a, b);
    assert r / ab == z by { DivModUnique(r, ab, z, x + y * a); }
    assert z < c by {
      assert z * ab <= r < c * ab;
      if z >= c {
        MulLeq(c, z, ab);
        assert false;
      }
    }
  }

  /** The remainder that the x operator tests, one node further along x. */
  lemma NextRemainder(x: int, y: int, a: int)
    requires a >= 2 && 0 <= x < a
    ensures (x + y * a + 1) % a == if x == a - 1 then 0 else x + 1
  {
    if x == a - 1 {
      assert x + y * a + 1 == (y + 1) * a + 0;
      DivModUnique(x + y * a + 1, a, y + 1, 0);
    } else {
      DivModUnique(x + y * a + 1, a, y, x + 1);
    }
  }

  /** For m in a block of size a and block number y < b: the number m + y * a lies
      in the first block exactly when y = 0 and in the last exactly when y = b - 1. */
  lemma BlockPosition(m: int, y: int, a: int, b: int)
    requires 0 <= m < a && 0 <= y < b
    ensures m + y * a < a <==> y == 0
    ensures m + y * a >= a * (b - 1) <==> y == b - 1
  {
    if y >= 1 {
      MulLeq(1, y, a);
    }
    if y < b - 1 {
      MulLeq(y + 1, b - 1, a);
      assert (y + 1) * a == y * a + a;
    } else {
      assert a * (b - 1) == y * a;
    }
  }

  lemma MulLeq(u: int, v: int, m: int)
    requires 0 <= u <= v && m >= 0
    ensures u * m <= v * m
  {
    assert v * m - u * m == (v - u) * m;
  }

  // ---- the bijection ------------------------------------------------------

  /** The index of an interior node is an unknown, and IndexToNode inverts it. */
  lemma IndexRoundTrip(g: Grid, p: Node)
    requires Valid(g) && Interior(g, p)
    ensures 0 <= Index(g, p) < Unknowns(g) && IndexToNode(g, Index(g, p)) == p
  {
    Decompose(g, p.i - 1, p.j - 1, p.k - 1);
  }

  /** Every unknown is the index of exactly one interior node. */
  lemma IndexToNodeRoundTrip(g: Grid, r: int)
    requires Valid(g) && 0 <= r < Unknowns(g)
    ensures Interior(g, IndexToNode(g, r)) && Index(g, IndexToNode(g, r)) == r
  {
    UnknownsPositive(g);
    RecomposeInts(r, Ax(g), Ay(g), g.nz - 2);
  }

  /** Different interior nodes get different unknowns. */
  lemma IndexInjective(g: Grid, p: Node, q: Node)
    requires Valid(g) && Interior(g, p) && Interior(g, q)
    ensures Index(g, p) == Index(g, q) <==> p == q
  {
    IndexRoundTrip(g, p);
    IndexRoundTrip(g, q);
  }

  // ---- axis neighbours ----------------------------------------------------

  datatype Axis = X | Y | Z

  /** The six axis neighbours, named as Node_reference names them. */
  datatype Direction = Left | Right | Bottom | Top | Near | Far

  function AxisOf(d: Direction): Axis
  {
    match d
    case Left | Right => X
    case Bottom | Top => Y
    case Near | Far => Z
  }

  function Step(p: Node, d: Direction): Node
  {
    match d
    case Left => Node(p.i - 1, p.j, p.k)
    case Right => Node(p.i + 1, p.j, p.k)
    case Bottom => Node(p.i, p.j - 1, p.k)
    case Top => Node(p.i, p.j + 1, p.k)
    case Near => Node(p.i, p.j, p.k - 1)
    case Far => Node(p.i, p.j, p.k + 1)
  }

  /** The neighbour towards lower and towards higher coordinates along an axis. */
  function LowDir(ax: Axis): Direction
  {
    match ax
    case X => Left
    case Y => Bottom
    case Z => Near
  }

  function HighDir(ax: Axis): Direction
  {
    match ax
    case X => Right
    case Y => Top
    case Z => Far
  }

  /** The order in which the neighbours of a node are visited. */
  const Directions: seq<Direction> := [Left, Right, Bottom, Top, Near, Far]

  /** q is one of the two neighbours of p along axis ax. */
  predicate Neighbours(p: Node, q: Node, ax: Axis)
  {
    match ax
    case X => q.j == p.j && q.k == p.k && (q.i == p.i + 1 || q.i == p.i - 1)
    case Y => q.i == p.i && q.k == p.k && (q.j == p.j + 1 || q.j == p.j - 1)
    case Z => q.i == p.i && q.j == p.j && (q.k == p.k + 1 || q.k == p.k - 1)
  }

  /** Stepping to an interior neighbour moves the unknown by 1, by one x-row or by
      one z-plane; the neighbours of an interior node lie inside the grid. */
  lemma StepIndex(g: Grid, p: Node, d: Direction)
    requires Valid(g) && Interior(g, p)
    ensures InGrid(g, Step(p, d)) && Neighbours(p, Step(p, d), AxisOf(d))
    ensures Index(g, Step(p, d)) == Index(g, p) + match d
      case Left => -1
      case Right => 1
      case Bottom => -Ax(g)
      case Top => Ax(g)
      case Near => -Plane(g)
      case Far => Plane(g)
  {
    var a, pl := Ax(g), Plane(g);
    match d
    case Bottom => assert (p.j - 2) * a == (p.j - 1) * a - a;
    case Top => assert p.j * a == (p.j - 1) * a + a;
    case Near => assert (p.k - 2) * pl == (p.k - 1) * pl - pl;
    case Far => assert p.k * pl == (p.k - 1) * pl + pl;
    case _ =>
  }

  /** Each neighbour relation is one of the six steps. */
  lemma NeighbourIsStep(p: Node, q: Node, ax: Axis)
    requires Neighbours(p, q, ax)
    ensures exists d :: AxisOf(d) == ax && q == Step(p, d)
  {
    match ax
    case X => if q.i == p.i + 1 { assert q == Step(p, Right); } else { assert q == Step(p, Left); }
    case Y => if q.j == p.j + 1 { assert q == Step(p, Top); } else { assert q == Step(p, Bottom); }
    case Z => if q.k == p.k + 1 { assert q == Step(p, Far); } else { assert q == Step(p, Near); }
  }

  // ---- scalar helpers of the field solver ----------------------------------

  /** kronecker_delta: 1 on equal arguments, 0 otherwise. */
  function KroneckerDelta(i: int, j: int): (r: int)
    ensures r == 1 || r == 0
    ensures r == 1 <==> i == j
  {
    if i == j then 1 else 0
  }

  /** central_difference: the slope between two samples two cells apart. */
  function CentralDifference(phi1: real, phi2: real, d: real): (r: real)
    requires d != 0.0
    ensures r * (2.0 * d) == phi2 - phi1
  {
    (phi2 - phi1) / (2.0 * d)
  }

  /** boundary_difference: the slope between two samples one cell apart. */
  function BoundaryDifference(phi1: real, phi2: real, d: real): (r: real)
    requires d != 0.0
    ensures r * d == phi2 - phi1
  {
    (phi2 - phi1) / d
  }
}

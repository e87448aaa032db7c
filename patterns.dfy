/** The second-difference operators of the field solver: the 2-D x and y patterns
    (construct_d2dx2_in_2d, construct_d2dy2_in_2d), their replication along the
    diagonal into 3-D (multiply_pattern_along_diagonal, construct_d2dx2_in_3d,
    construct_d2dy2_in_3d) and the 3-D z operator (construct_d2dz2_in_3d).
    Each builder is a method with the source's loop; each is proved equal to a
    row-by-row specification, and the lemmas say what those rows mean on the grid. */
module Patterns {
  import opened Grid
  import opened LinearAlgebra

  // ---- specifications, row by row -----------------------------------------

  /** Row i of the 2-D x operator: the left pattern [-2, 1] at (i, i+1), the right
      pattern [1, -2] at (i-1, i), or the centre pattern [1, -2, 1]. The right
      pattern of row 0 (only taken when nx = 3) names column -1, which the
      library drops. */
  function XPatternRow(g: Grid, i: int): Row
    requires Valid(g)
  {
    if (i + 1) % Ax(g) == 1 then map[i := -2.0, i + 1 := 1.0]
    else if (i + 1) % Ax(g) == 0 then (if i < 1 then map[i := -2.0] else map[i - 1 := 1.0, i := -2.0])
    else map[i - 1 := 1.0, i := -2.0, i + 1 := 1.0]
  }

  /** Row i of the 2-D y operator: the same patterns with offset nx-2, the
      boundary ones on the first and on the last row of nodes. */
  function YPatternRow(g: Grid, i: int): Row
    requires Valid(g)
  {
    var a := Ax(g);
    if i < a then map[i := -2.0, i + a := 1.0]
    else if i >= a * (g.ny - 3) then map[i - a := 1.0, i := -2.0]
    else map[i - a := 1.0, i := -2.0, i + a := 1.0]
  }

  /** Row i of the 3-D z operator: offset one z-plane, boundary patterns on the
      first and on the last plane. */
  function ZPatternRow(g: Grid, i: int): Row
    requires Valid(g)
  {
    var pl := Plane(g);
    if i < pl then map[i := -2.0, i + pl := 1.0]
    else if i >= pl * (g.nz - 3) then map[i - pl := 1.0, i := -2.0]
    else map[i - pl := 1.0, i := -2.0, i + pl := 1.0]
  }

  function D2dx2In2d(g: Grid): Matrix
    requires Valid(g)
  {
    seq(Plane(g), i => XPatternRow(g, i))
  }

  function D2dy2In2d(g: Grid): Matrix
    requires Valid(g)
  {
    seq(Plane(g), i => YPatternRow(g, i))
  }

  function D2dz2In3d(g: Grid): Matrix
    requires Valid(g)
  {
    seq(Unknowns(g), i => ZPatternRow(g, i))
  }

  /** The set keys with every member moved by s. */
  ghost function ShiftedKeys(keys: set<int>, s: int): set<int>
    decreases keys
  {
    if keys == {} then {}
    else
      HasMember(keys);
      var k :| k in keys;
      ShiftedKeys(keys - {k}, s) + {k + s}
  }

  lemma {:induction false} ShiftedKeysSpec(keys: set<int>, s: int)
    ensures forall c :: c in ShiftedKeys(keys, s) <==> c - s in keys
    decreases keys
  {
    if keys != {} {
      HasMember(keys);
      var k :| k in keys && ShiftedKeys(keys, s) == ShiftedKeys(keys - {k}, s) + {k + s};
      ShiftedKeysSpec(keys - {k}, s);
    }
  }

  /** A row with every column moved by s. */
  ghost function Shift(row: Row, s: int): Row
  {
    ShiftedKeysSpec(row.Keys, s);
    map c | c in ShiftedKeys(row.Keys, s) :: row[c - s]
  }

  /** Column c of the moved row is column c - s of the original. */
  lemma ShiftSpec(row: Row, s: int)
    ensures forall c :: c in Shift(row, s) <==> c - s in row
    ensures forall c :: c in Shift(row, s) ==> Shift(row, s)[c] == row[c - s]
  {
    ShiftedKeysSpec(row.Keys, s);
  }

  /** Shift is the only row with its keys and values. */
  lemma ShiftUnique(row: Row, s: int, other: Row)
    requires forall c :: c in other <==> c - s in row
    requires forall c :: c in other ==> other[c] == row[c - s]
    ensures other == Shift(row, s)
  {
    ShiftSpec(row, s);
    forall c ensures c in other <==> c in Shift(row, s) {
    }
  }

  /** n copies of the pt x pt pattern along the diagonal: row i is pattern row
      i % pt with its columns moved into block i / pt. */
  ghost function BlockDiagonal(pattern: Matrix, pt: int, n: int): Matrix
    requires pt >= 1 && |pattern| == pt && n >= 0
  {
    seq(pt * n, i requires 0 <= i < pt * n => Shift(pattern[i % pt], (i / pt) * pt))
  }

  ghost function D2dx2In3d(g: Grid): Matrix
    requires Valid(g)
  {
    UnknownsPositive(g);
    BlockDiagonal(D2dx2In2d(g), Plane(g), g.nz - 2)
  }

  ghost function D2dy2In3d(g: Grid): Matrix
    requires Valid(g)
  {
    UnknownsPositive(g);
    BlockDiagonal(D2dy2In2d(g), Plane(g), g.nz - 2)
  }

  // ---- the builders -------------------------------------------------------

  method ConstructD2dx2In2d(g: Grid) returns (m: Matrix)
    requires Valid(g)
    ensures m == D2dx2In2d(g)
  {
    var nrow := Plane(g);
    UnknownsPositive(g);
    var atLeftBoundaryPattern := [-2.0, 1.0];
    var noBoundariesPattern := [1.0, -2.0, 1.0];
    var atRightBoundaryPattern := [1.0, -2.0];
    m := Zeros(nrow);
    for i := 0 to nrow
      invariant |m| == nrow
      invariant forall r :: 0 <= r < i ==> m[r] == XPatternRow(g, r)
      invariant forall r :: i <= r < nrow ==> m[r] == map[]
    {
      assert m[i] == map[];
      ghost var before := m;
      if (i + 1) % (g.nx - 2) == 1 {
        m := SetValues(m, i, [i, i + 1], atLeftBoundaryPattern);
        assert m == before[i := XPatternRow(g, i)] by { XRowAtLeft(g, i); }
      } else if (i + 1) % (g.nx - 2) == 0 {
        m := SetValues(m, i, [i - 1, i], atRightBoundaryPattern);
        assert m == before[i := XPatternRow(g, i)] by { XRowAtRight(g, i); }
      } else {
        m := SetValues(m, i, [i - 1, i, i + 1], noBoundariesPattern);
        assert m == before[i := XPatternRow(g, i)] by { XRowInside(g, i); }
      }
    }
    assert forall r :: 0 <= r < nrow ==> m[r] == D2dx2In2d(g)[r];
  }

  /** The row the left pattern writes at i is row i of the x specification. */
  lemma XRowAtLeft(g: Grid, i: int)
    requires Valid(g) && 0 <= i && (i + 1) % Ax(g) == 1
    ensures Insert(map[], [i, i + 1], [-2.0, 1.0]) == XPatternRow(g, i)
  {
    InsertTwo(i, i + 1, -2.0, 1.0);
  }

  /** The row the right pattern writes at i is row i of the x specification, the
      column -1 of row 0 being dropped. */
  lemma XRowAtRight(g: Grid, i: int)
    requires Valid(g) && 0 <= i && (i + 1) % Ax(g) == 0
    ensures Insert(map[], [i - 1, i], [1.0, -2.0]) == XPatternRow(g, i)
  {
    InsertTwo(i - 1, i, 1.0, -2.0);
  }

  /** A row taking the centre pattern is never row 0, and the pattern it writes is
      row i of the x specification. */
  lemma XRowInside(g: Grid, i: int)
    requires Valid(g) && 0 <= i && (i + 1) % Ax(g) != 1 && (i + 1) % Ax(g) != 0
    ensures i >= 1
    ensures Insert(map[], [i - 1, i, i + 1], [1.0, -2.0, 1.0]) == XPatternRow(g, i)
  {
    InsertThree(i - 1, i, i + 1, 1.0, -2.0, 1.0);
  }

  method ConstructD2dy2In2d(g: Grid) returns (m: Matrix)
    requires Valid(g)
    ensures m == D2dy2In2d(g)
  {
    var nrow := Plane(g);
    UnknownsPositive(g);
    var atBottomBoundaryPattern := [-2.0, 1.0];
    var noBoundariesPattern := [1.0, -2.0, 1.0];
    var atTopBoundaryPattern := [1.0, -2.0];
    m := Zeros(nrow);
    for i := 0 to nrow
      invariant |m| == nrow
      invariant forall r :: 0 <= r < i ==> m[r] == YPatternRow(g, r)
      invariant forall r :: i <= r < nrow ==> m[r] == map[]
    {
      var a := g.nx - 2;
      assert m[i] == map[];
      ghost var before := m;
      if i < a {
        m := SetValues(m, i, [i, i + a], atBottomBoundaryPattern);
        assert m == before[i := YPatternRow(g, i)] by { InsertTwo(i, i + a, -2.0, 1.0); }
      } else if i >= a * (g.ny - 3) {
        m := SetValues(m, i, [i - a, i], atTopBoundaryPattern);
        assert m == before[i := YPatternRow(g, i)] by { InsertTwo(i - a, i, 1.0, -2.0); }
      } else {
        m := SetValues(m, i, [i - a, i, i + a], noBoundariesPattern);
        assert m == before[i := YPatternRow(g, i)] by { InsertThree(i - a, i, i + a, 1.0, -2.0, 1.0); }
      }
    }
    assert forall r :: 0 <= r < nrow ==> m[r] == D2dy2In2d(g)[r];
  }

  method ConstructD2dz2In3d(g: Grid) returns (m: Matrix)
    requires Valid(g)
    ensures m == D2dz2In3d(g)
  {
    var pl := Plane(g);
    var nrow := Unknowns(g);
    UnknownsPositive(g);
    var atNearBoundaryPattern := [-2.0, 1.0];
    var noBoundariesPattern := [1.0, -2.0, 1.0];
    var atFarBoundaryPattern := [1.0, -2.0];
    m := Zeros(nrow);
    for i := 0 to nrow
      invariant |m| == nrow
      invariant forall r :: 0 <= r < i ==> m[r] == ZPatternRow(g, r)
      invariant forall r :: i <= r < nrow ==> m[r] == map[]
    {
      assert m[i] == map[];
      var cols: seq<int>, pattern: seq<real>;
      if i < pl {
        cols, pattern := [i, i + pl], atNearBoundaryPattern;
        assert Insert(map[], cols, pattern) == ZPatternRow(g, i) by { InsertTwo(i, i + pl, -2.0, 1.0); }
      } else if i >= pl * (g.nz - 3) {
        cols, pattern := [i - pl, i], atFarBoundaryPattern;
        assert Insert(map[], cols, pattern) == ZPatternRow(g, i) by { InsertTwo(i - pl, i, 1.0, -2.0); }
      } else {
        cols, pattern := [i - pl, i, i + pl], noBoundariesPattern;
        assert Insert(map[], cols, pattern) == ZPatternRow(g, i) by { InsertThree(i - pl, i, i + pl, 1.0, -2.0, 1.0); }
      }
      m := SetValues(m, i, cols, pattern);
    }
    assert forall r :: 0 <= r < nrow ==> m[r] == D2dz2In3d(g)[r];
  }

  /** A set that is not empty has a member to pick. */
  lemma HasMember(s: set<int>)
    requires s != {}
    ensures exists t :: t in s
  {
    if forall t :: t !in s {
      assert false;
    }
  }

  /** The columns of one stored pattern row moved by shift, values kept. */
  method ShiftColumns(patternRow: Row, shift: int) returns (shifted: Row)
    ensures shifted == Shift(patternRow, shift)
  {
    shifted := map[];
    var rest := patternRow.Keys;
    while rest != {}
      invariant rest <= patternRow.Keys
      invariant forall c :: c in shifted <==> c - shift in patternRow && c - shift !in rest
      invariant forall c :: c in shifted ==> shifted[c] == patternRow[c - shift]
      decreases rest
    {
      HasMember(rest);
      var t :| t in rest;
      shifted := shifted[t + shift := patternRow[t]];
      rest := rest - {t};
    }
    ShiftUnique(patternRow, shift, shifted);
  }

  /** Row i of the result takes the stored columns of pattern row i % ptSize, each
      moved by (i / ptSize) * ptSize, and nothing else. */
  method MultiplyPatternAlongDiagonal(pattern: Matrix, ptSize: int, nTimes: int) returns (result: Matrix)
    requires ptSize >= 1 && |pattern| == ptSize && nTimes >= 0
    ensures result == BlockDiagonal(pattern, ptSize, nTimes)
  {
    var mulNrow := ptSize * nTimes;
    assert mulNrow >= 0 by { MulLeq(0, nTimes, ptSize); }
    result := Zeros(mulNrow);
    for i := 0 to mulNrow
      invariant |result| == mulNrow
      invariant forall r :: 0 <= r < i ==> result[r] == Shift(pattern[r % ptSize], (r / ptSize) * ptSize)
      invariant forall r :: i <= r < mulNrow ==> result[r] == map[]
    {
      var patternRow := pattern[i % ptSize];
      var shift := (i / ptSize) * ptSize;
      var shifted := ShiftColumns(patternRow, shift);
      result := result[i := shifted];
    }
    assert forall r :: 0 <= r < mulNrow ==> result[r] == BlockDiagonal(pattern, ptSize, nTimes)[r];
  }

  method ConstructD2dx2In3d(g: Grid) returns (m: Matrix)
    requires Valid(g)
    ensures m == D2dx2In3d(g)
  {
    UnknownsPositive(g);
    var d2dx2In2d := ConstructD2dx2In2d(g);
    m := MultiplyPatternAlongDiagonal(d2dx2In2d, (g.nx - 2) * (g.ny - 2), g.nz - 2);
  }

  method ConstructD2dy2In3d(g: Grid) returns (m: Matrix)
    requires Valid(g)
    ensures m == D2dy2In3d(g)
  {
    UnknownsPositive(g);
    var d2dy2In2d := ConstructD2dy2In2d(g);
    m := MultiplyPatternAlongDiagonal(d2dy2In2d, (g.nx - 2) * (g.ny - 2), g.nz - 2);
  }

  // ---- what the rows mean -------------------------------------------------

  /** With at least two interior nodes along x, the x pattern of the unknown at x
      position x of x-row y is chosen by x alone: the left pattern at x = 0, the
      right one at x = nx - 3, the centre one elsewhere. */
  lemma XPatternRowByPosition(g: Grid, x: int, y: int)
    requires Valid(g) && g.nx >= 4 && 0 <= x < Ax(g) && 0 <= y
    ensures XPatternRow(g, x + y * Ax(g)) == PatternAt(x + y * Ax(g), 1, x == 0, x == Ax(g) - 1)
  {
    NextRemainder(x, y, Ax(g));
    MulLeq(0, y, Ax(g));
  }

  /** With a single interior node along x every row takes the right pattern: row
      0 keeps only its diagonal, every later row also couples to the previous
      unknown. */
  lemma XPatternRowThreeNodes(g: Grid, s: int)
    requires Valid(g) && g.nx == 3
    ensures XPatternRow(g, s) == if s < 1 then map[s := -2.0] else map[s - 1 := 1.0, s := -2.0]
  {
    assert Ax(g) == 1;
  }

  /** The same, as rows of the 2-D x operator. */
  lemma D2dx2In2dThreeNodes(g: Grid, s: int)
    requires Valid(g) && g.nx == 3 && 0 <= s < Plane(g)
    ensures |D2dx2In2d(g)| == Plane(g)
    ensures s < 1 ==> D2dx2In2d(g)[s] == map[s := -2.0]
    ensures s >= 1 ==> D2dx2In2d(g)[s] == PatternAt(s, 1, false, true)
  {
    XPatternRowThreeNodes(g, s);
  }

  /** The y pattern of the unknown at x-row y is chosen by y: the bottom pattern on
      the first x-row, the top one on the last, the centre one elsewhere. */
  lemma YPatternRowByPosition(g: Grid, x: int, y: int)
    requires Valid(g) && g.ny >= 4 && 0 <= x < Ax(g) && 0 <= y < Ay(g)
    ensures YPatternRow(g, x + y * Ax(g)) == PatternAt(x + y * Ax(g), Ax(g), y == 0, y == Ay(g) - 1)
  {
    BlockPosition(x, y, Ax(g), Ay(g));
  }

  /** The z pattern of the unknown in z-plane z: the near pattern in the first
      plane, the far one in the last, the centre one elsewhere. */
  lemma ZPatternRowByPosition(g: Grid, m: int, z: int)
    requires Valid(g) && g.nz >= 4 && 0 <= m < Plane(g) && 0 <= z < g.nz - 2
    ensures ZPatternRow(g, m + z * Plane(g)) == PatternAt(m + z * Plane(g), Plane(g), z == 0, z == g.nz - 3)
  {
    BlockPosition(m, z, Plane(g), g.nz - 2);
  }

  /** The second difference along ax at interior node p, as the row of p: -2 at p
      and 1 at each of its two neighbours along ax that is an unknown. */
  function AxisRow(g: Grid, p: Node, ax: Axis): Row
  {
    var low, high := Step(p, LowDir(ax)), Step(p, HighDir(ax));
    var row := map[Index(g, p) := -2.0];
    var row := if Interior(g, low) then row[Index(g, low) := 1.0] else row;
    if Interior(g, high) then row[Index(g, high) := 1.0] else row
  }

  /** Row s + b * pt of the replicated operator is pattern row s moved into block b. */
  lemma BlockDiagonalRow(pattern: Matrix, pt: int, n: int, s: int, b: int)
    requires pt >= 1 && |pattern| == pt && n >= 0 && 0 <= s < pt && 0 <= b < n
    ensures 0 <= s + b * pt < |BlockDiagonal(pattern, pt, n)|
    ensures BlockDiagonal(pattern, pt, n)[s + b * pt] == Shift(pattern[s], b * pt)
  {
    var i := s + b * pt;
    MixedBound(s, b, pt, n);
    DivModUnique(i, pt, b, s);
    var m := BlockDiagonal(pattern, pt, n);
    assert m[i] == Shift(pattern[i % pt], (i / pt) * pt);
  }

  /** The three patterns of an axis, centred on unknown r with neighbour offset d. */
  function PatternAt(r: int, d: int, atLow: bool, atHigh: bool): Row
  {
    if atLow then map[r := -2.0, r + d := 1.0]
    else if atHigh then map[r - d := 1.0, r := -2.0]
    else map[r - d := 1.0, r := -2.0, r + d := 1.0]
  }

  /** Moving a pattern by sh moves its centre by sh. */
  lemma ShiftPatternAt(s: int, d: int, atLow: bool, atHigh: bool, sh: int)
    ensures Shift(PatternAt(s, d, atLow, atHigh), sh) == PatternAt(s + sh, d, atLow, atHigh)
  {
    ShiftUnique(PatternAt(s, d, atLow, atHigh), sh, PatternAt(s + sh, d, atLow, atHigh));
  }

  /** The second difference along ax at an interior node is the pattern centred on
      its unknown, with the neighbour offset of ax; the low pattern exactly when
      the node is first along ax, the high one when it is last. */
  lemma AxisRowIsPattern(g: Grid, p: Node, ax: Axis)
    requires Valid(g) && Interior(g, p)
    requires match ax
      case X => g.nx >= 4
      case Y => g.ny >= 4
      case Z => g.nz >= 4
    ensures AxisRow(g, p, ax) == match ax
      case X => PatternAt(Index(g, p), 1, p.i == 1, p.i == g.nx - 2)
      case Y => PatternAt(Index(g, p), Ax(g), p.j == 1, p.j == g.ny - 2)
      case Z => PatternAt(Index(g, p), Plane(g), p.k == 1, p.k == g.nz - 2)
  {
    var r := Index(g, p);
    var low, high := Step(p, LowDir(ax)), Step(p, HighDir(ax));
    var d := match ax case X => 1 case Y => Ax(g) case Z => Plane(g);
    assert Index(g, low) == r - d && Index(g, high) == r + d by {
      StepIndex(g, p, LowDir(ax));
      StepIndex(g, p, HighDir(ax));
    }
    var atLow, atHigh := !Interior(g, low), !Interior(g, high);
    assert !(atLow && atHigh);
    if atLow {
      assert AxisRow(g, p, ax) == map[r := -2.0, r + d := 1.0];
    } else if atHigh {
      assert AxisRow(g, p, ax) == map[r := -2.0, r - d := 1.0];
    } else {
      assert AxisRow(g, p, ax) == map[r := -2.0, r - d := 1.0, r + d := 1.0];
    }
  }

  /** When pattern row s is the pattern centred on s, row s + b * pt of the
      replicated operator m is the same pattern centred on s + b * pt. */
  lemma BlockDiagonalPatternRow(m: Matrix, pattern: Matrix, pt: int, n: int, s: int, b: int, d: int, atLow: bool, atHigh: bool)
    requires pt >= 1 && |pattern| == pt && n >= 0 && 0 <= s < pt && 0 <= b < n
    requires m == BlockDiagonal(pattern, pt, n) && pattern[s] == PatternAt(s, d, atLow, atHigh)
    ensures 0 <= s + b * pt < |m| && m[s + b * pt] == PatternAt(s + b * pt, d, atLow, atHigh)
  {
    ShiftedPatternRow(pattern, pt, n, s, b, d, atLow, atHigh);
  }

  lemma ShiftedPatternRow(pattern: Matrix, pt: int, n: int, s: int, b: int, d: int, atLow: bool, atHigh: bool)
    requires pt >= 1 && |pattern| == pt && n >= 0 && 0 <= s < pt && 0 <= b < n
    requires pattern[s] == PatternAt(s, d, atLow, atHigh)
    ensures 0 <= s + b * pt < |BlockDiagonal(pattern, pt, n)|
    ensures BlockDiagonal(pattern, pt, n)[s + b * pt] == PatternAt(s + b * pt, d, atLow, atHigh)
  {
    BlockDiagonalRow(pattern, pt, n, s, b);
    ShiftPatternAt(s, d, atLow, atHigh, b * pt);
  }

  /** The unknown of interior node p sits at x position p.i - 1 of x-row
      (p.j - 1) + (p.k - 1) * Ay in its z-plane p.k - 1. */
  lemma IndexSplit(g: Grid, p: Node)
    requires Valid(g) && Interior(g, p)
    ensures 0 <= (p.i - 1) + (p.j - 1) * Ax(g) < Plane(g)
    ensures Index(g, p) == (p.i - 1) + (p.j - 1) * Ax(g) + (p.k - 1) * Plane(g)
  {
    MixedBound(p.i - 1, p.j - 1, Ax(g), Ay(g));
  }

  /** Row x + y * Ax + z * Plane of the 3-D x operator is the x pattern chosen
      by x alone. */
  lemma XOperatorRowByPosition(g: Grid, x: int, y: int, z: int)
    requires Valid(g) && g.nx >= 4 && 0 <= x < Ax(g) && 0 <= y < Ay(g) && 0 <= z < g.nz - 2
    ensures 0 <= x + y * Ax(g) + z * Plane(g) < |D2dx2In3d(g)|
    ensures var r := x + y * Ax(g) + z * Plane(g);
      D2dx2In3d(g)[r] == PatternAt(r, 1, x == 0, x == Ax(g) - 1)
  {
    XPlaneRowByPosition(g, x, y);
    XOperatorPatternRow(g, x + y * Ax(g), z, 1, x == 0, x == Ax(g) - 1);
  }

  /** Row x + y * Ax of the 2-D x operator is the x pattern chosen by x alone. */
  lemma XPlaneRowByPosition(g: Grid, x: int, y: int)
    requires Valid(g) && g.nx >= 4 && 0 <= x < Ax(g) && 0 <= y < Ay(g)
    ensures 0 <= x + y * Ax(g) < |D2dx2In2d(g)|
    ensures D2dx2In2d(g)[x + y * Ax(g)] == PatternAt(x + y * Ax(g), 1, x == 0, x == Ax(g) - 1)
  {
    MixedBound(x, y, Ax(g), Ay(g));
    XPatternRowByPosition(g, x, y);
  }

  /** A pattern row s of the 2-D x operator reappears, shifted, as row s + z * Plane
      of the 3-D one. */
  lemma XOperatorPatternRow(g: Grid, s: int, z: int, d: int, atLow: bool, atHigh: bool)
    requires Valid(g) && 0 <= s < Plane(g) && 0 <= z < g.nz - 2
    requires D2dx2In2d(g)[s] == PatternAt(s, d, atLow, atHigh)
    ensures 0 <= s + z * Plane(g) < |D2dx2In3d(g)|
    ensures D2dx2In3d(g)[s + z * Plane(g)] == PatternAt(s + z * Plane(g), d, atLow, atHigh)
  {
    UnknownsPositive(g);
    BlockDiagonalPatternRow(D2dx2In3d(g), D2dx2In2d(g), Plane(g), g.nz - 2, s, z, d, atLow, atHigh);
  }

  /** Row p of the 3-D x operator is the x second difference at p. */
  lemma XOperatorRow(g: Grid, p: Node)
    requires Valid(g) && g.nx >= 4 && Interior(g, p)
    ensures 0 <= Index(g, p) < Unknowns(g)
    ensures D2dx2In3d(g)[Index(g, p)] == AxisRow(g, p, X)
  {
    IndexRoundTrip(g, p);
    IndexSplit(g, p);
    XOperatorRowByPosition(g, p.i - 1, p.j - 1, p.k - 1);
    AxisRowIsPattern(g, p, X);
    assert (p.i - 1 == 0) == (p.i == 1) && (p.i - 1 == Ax(g) - 1) == (p.i == g.nx - 2);
  }

  /** When pattern row s keeps only its diagonal, so does row s + b * pt of the
      replicated operator m. */
  lemma BlockDiagonalDiagonalRow(m: Matrix, pattern: Matrix, pt: int, n: int, s: int, b: int)
    requires pt >= 1 && |pattern| == pt && n >= 0 && 0 <= s < pt && 0 <= b < n
    requires m == BlockDiagonal(pattern, pt, n) && pattern[s] == map[s := -2.0]
    ensures 0 <= s + b * pt < |m| && m[s + b * pt] == map[s + b * pt := -2.0]
  {
    ShiftedDiagonalRow(pattern, pt, n, s, b);
  }

  lemma ShiftedDiagonalRow(pattern: Matrix, pt: int, n: int, s: int, b: int)
    requires pt >= 1 && |pattern| == pt && n >= 0 && 0 <= s < pt && 0 <= b < n
    requires pattern[s] == map[s := -2.0]
    ensures 0 <= s + b * pt < |BlockDiagonal(pattern, pt, n)|
    ensures BlockDiagonal(pattern, pt, n)[s + b * pt] == map[s + b * pt := -2.0]
  {
    BlockDiagonalRow(pattern, pt, n, s, b);
    ShiftDiagonal(s, -2.0, b * pt);
  }

  lemma ShiftDiagonal(s: int, v: real, sh: int)
    ensures Shift(map[s := v], sh) == map[s + sh := v]
  {
    ShiftUnique(map[s := v], sh, map[s + sh := v]);
  }

  /** With 3 nodes along x, row b * Plane of the 3-D x operator, the first of
      its block, keeps only its diagonal ... */
  lemma XOperatorThreeNodesFirst(g: Grid, b: int)
    requires Valid(g) && g.nx == 3 && 0 <= b < g.nz - 2
    ensures 0 <= b * Plane(g) < |D2dx2In3d(g)|
    ensures D2dx2In3d(g)[b * Plane(g)] == map[b * Plane(g) := -2.0]
  {
    UnknownsPositive(g);
    D2dx2In2dThreeNodes(g, 0);
    BlockDiagonalDiagonalRow(D2dx2In3d(g), D2dx2In2d(g), Plane(g), g.nz - 2, 0, b);
  }

  /** ... and every later row r of the block also couples to unknown r - 1. */
  lemma XOperatorThreeNodesLater(g: Grid, s: int, b: int)
    requires Valid(g) && g.nx == 3 && 1 <= s < Plane(g) && 0 <= b < g.nz - 2
    ensures 0 <= s + b * Plane(g) < |D2dx2In3d(g)|
    ensures D2dx2In3d(g)[s + b * Plane(g)] == PatternAt(s + b * Plane(g), 1, false, true)
  {
    D2dx2In2dThreeNodes(g, s);
    XOperatorPatternRow(g, s, b, 1, false, true);
  }

  /** With 3 nodes along x, the row the code builds for p holds -2 at p and, when
      the node below p is interior, 1 at that node's unknown, a coupling along y;
      the x second difference at p has only the -2 (AxisRowThreeNodes). */
  lemma XOperatorRowThreeNodes(g: Grid, p: Node)
    requires Valid(g) && g.nx == 3 && Interior(g, p)
    ensures 0 <= Index(g, p) < Unknowns(g)
    ensures D2dx2In3d(g)[Index(g, p)] ==
      if p.j == 1 then map[Index(g, p) := -2.0] else map[Index(g, Step(p, Bottom)) := 1.0, Index(g, p) := -2.0]
  {
    if p.j == 1 {
      XOperatorThreeNodesBottom(g, p);
    } else {
      XOperatorThreeNodesBelow(g, p);
    }
  }

  /** ... which for a node of the bottom row of unknowns is the diagonal alone ... */
  lemma XOperatorThreeNodesBottom(g: Grid, p: Node)
    requires Valid(g) && g.nx == 3 && Interior(g, p) && p.j == 1
    ensures 0 <= Index(g, p) < Unknowns(g)
    ensures D2dx2In3d(g)[Index(g, p)] == map[Index(g, p) := -2.0]
  {
    IndexThreeNodes(g, p);
    XOperatorThreeNodesFirst(g, p.k - 1);
  }

  /** ... and for a node with an interior node below it also holds the coupling
      to that node. */
  lemma XOperatorThreeNodesBelow(g: Grid, p: Node)
    requires Valid(g) && g.nx == 3 && Interior(g, p) && p.j >= 2
    ensures 0 <= Index(g, p) < Unknowns(g)
    ensures D2dx2In3d(g)[Index(g, p)] == map[Index(g, Step(p, Bottom)) := 1.0, Index(g, p) := -2.0]
  {
    IndexThreeNodes(g, p);
    XOperatorThreeNodesLater(g, p.j - 1, p.k - 1);
    StepIndex(g, p, Bottom);
  }

  /** With 3 nodes along x the unknown of p is its y position plus its z-plane offset. */
  lemma IndexThreeNodes(g: Grid, p: Node)
    requires Valid(g) && g.nx == 3 && Interior(g, p)
    ensures 0 <= p.j - 1 < Plane(g) && 0 <= p.k - 1 < g.nz - 2
    ensures Index(g, p) == (p.j - 1) + (p.k - 1) * Plane(g) && 0 <= Index(g, p) < Unknowns(g)
  {
    IndexRoundTrip(g, p);
    IndexSplit(g, p);
    assert Ax(g) == 1 && p.i == 1;
  }

  /** With 3 nodes along x neither x neighbour of an interior node is an unknown. */
  lemma AxisRowThreeNodes(g: Grid, p: Node)
    requires Valid(g) && g.nx == 3 && Interior(g, p)
    ensures AxisRow(g, p, X) == map[Index(g, p) := -2.0]
  {
    assert !Interior(g, Step(p, Left)) && !Interior(g, Step(p, Right));
  }

  /** Row x + y * Ax + z * Plane of the 3-D y operator is the y pattern chosen
      by y alone. */
  lemma YOperatorRowByPosition(g: Grid, x: int, y: int, z: int)
    requires Valid(g) && g.ny >= 4 && 0 <= x < Ax(g) && 0 <= y < Ay(g) && 0 <= z < g.nz - 2
    ensures 0 <= x + y * Ax(g) + z * Plane(g) < |D2dy2In3d(g)|
    ensures var r := x + y * Ax(g) + z * Plane(g);
      D2dy2In3d(g)[r] == PatternAt(r, Ax(g), y == 0, y == Ay(g) - 1)
  {
    YPlaneRowByPosition(g, x, y);
    YOperatorPatternRow(g, x + y * Ax(g), z, Ax(g), y == 0, y == Ay(g) - 1);
  }

  /** Row x + y * Ax of the 2-D y operator is the y pattern chosen by y alone. */
  lemma YPlaneRowByPosition(g: Grid, x: int, y: int)
    requires Valid(g) && g.ny >= 4 && 0 <= x < Ax(g) && 0 <= y < Ay(g)
    ensures 0 <= x + y * Ax(g) < |D2dy2In2d(g)|
    ensures D2dy2In2d(g)[x + y * Ax(g)] == PatternAt(x + y * Ax(g), Ax(g), y == 0, y == Ay(g) - 1)
  {
    MixedBound(x, y, Ax(g), Ay(g));
    YPatternRowByPosition(g, x, y);
  }

  /** A pattern row s of the 2-D y operator reappears, shifted, as row s + z * Plane
      of the 3-D one. */
  lemma YOperatorPatternRow(g: Grid, s: int, z: int, d: int, atLow: bool, atHigh: bool)
    requires Valid(g) && 0 <= s < Plane(g) && 0 <= z < g.nz - 2
    requires D2dy2In2d(g)[s] == PatternAt(s, d, atLow, atHigh)
    ensures 0 <= s + z * Plane(g) < |D2dy2In3d(g)|
    ensures D2dy2In3d(g)[s + z * Plane(g)] == PatternAt(s + z * Plane(g), d, atLow, atHigh)
  {
    UnknownsPositive(g);
    BlockDiagonalPatternRow(D2dy2In3d(g), D2dy2In2d(g), Plane(g), g.nz - 2, s, z, d, atLow, atHigh);
  }

  /** Row p of the 3-D y operator is the y second difference at p. */
  lemma YOperatorRow(g: Grid, p: Node)
    requires Valid(g) && g.ny >= 4 && Interior(g, p)
    ensures 0 <= Index(g, p) < Unknowns(g)
    ensures D2dy2In3d(g)[Index(g, p)] == AxisRow(g, p, Y)
  {
    IndexRoundTrip(g, p);
    IndexSplit(g, p);
    YOperatorRowByPosition(g, p.i - 1, p.j - 1, p.k - 1);
    AxisRowIsPattern(g, p, Y);
    assert (p.j - 1 == 0) == (p.j == 1) && (p.j - 1 == Ay(g) - 1) == (p.j == g.ny - 2);
  }

  /** Row p of the 3-D z operator is the z second difference at p. */
  lemma ZOperatorRow(g: Grid, p: Node)
    requires Valid(g) && g.nz >= 4 && Interior(g, p)
    ensures 0 <= Index(g, p) < Unknowns(g)
    ensures D2dz2In3d(g)[Index(g, p)] == AxisRow(g, p, Z)
  {
    var x, y, z := p.i - 1, p.j - 1, p.k - 1;
    MixedBound(x, y, Ax(g), Ay(g));
    MixedBound(x + y * Ax(g), z, Plane(g), g.nz - 2);
    ZPatternRowByPosition(g, x + y * Ax(g), z);
    AxisRowIsPattern(g, p, Z);
  }

  // ---- columns in range ---------------------------------------------------

  /** Every column stored in m lies in 0 .. n-1. */
  ghost predicate ColumnsIn(m: Matrix, n: int)
  {
    forall r, c :: 0 <= r < |m| && c in m[r] ==> 0 <= c < n
  }

  /** Each unknown of a z-plane is at some x position of some x-row. */
  lemma PlanePosition(g: Grid, r: int)
    requires Valid(g) && 0 <= r < Plane(g)
    ensures 0 <= r % Ax(g) < Ax(g) && 0 <= (r / Ax(g)) % Ay(g) < Ay(g)
    ensures r == r % Ax(g) + ((r / Ax(g)) % Ay(g)) * Ax(g)
  {
    UnknownsPositive(g);
    RecomposeInts(r, Ax(g), Ay(g), 1);
  }

  /** Each unknown is at some position of some z-plane. */
  lemma VolumePosition(g: Grid, r: int)
    requires Valid(g) && 0 <= r < Unknowns(g)
    ensures 0 <= r % Plane(g) < Plane(g) && 0 <= (r / Plane(g)) % (g.nz - 2) < g.nz - 2
    ensures r == r % Plane(g) + ((r / Plane(g)) % (g.nz - 2)) * Plane(g)
  {
    UnknownsPositive(g);
    RecomposeInts(r, Plane(g), g.nz - 2, 1);
  }

  /** The 2-D x operator keeps all its columns inside the z-plane, on every valid
      grid (the column -1 of a 3-node x axis is dropped). */
  lemma XColumnsInRange(g: Grid)
    requires Valid(g)
    ensures ColumnsIn(D2dx2In2d(g), Plane(g))
  {
    UnknownsPositive(g);
    var m := D2dx2In2d(g);
    if g.nx >= 4 {
      forall r, c | 0 <= r < |m| && c in m[r] ensures 0 <= c < Plane(g) {
        PlanePosition(g, r);
        var x, y := r % Ax(g), (r / Ax(g)) % Ay(g);
        XPatternRowByPosition(g, x, y);
        if x + 1 < Ax(g) { MixedBound(x + 1, y, Ax(g), Ay(g)); }
        if x >= 1 { MixedBound(x - 1, y, Ax(g), Ay(g)); }
      }
    } else {
      forall r, c | 0 <= r < |m| && c in m[r] ensures 0 <= c < Plane(g) {
        XPatternRowThreeNodes(g, r);
      }
    }
  }

  /** The 2-D y operator keeps all its columns inside the z-plane exactly when the
      y axis has at least 4 nodes; with 3 nodes row 0 stores column nx - 2, one
      past the last unknown of the plane. */
  lemma YColumnsInRange(g: Grid)
    requires Valid(g)
    ensures ColumnsIn(D2dy2In2d(g), Plane(g)) <==> g.ny >= 4
  {
    UnknownsPositive(g);
    var m := D2dy2In2d(g);
    if g.ny >= 4 {
      forall r, c | 0 <= r < |m| && c in m[r] ensures 0 <= c < Plane(g) {
        PlanePosition(g, r);
        var x, y := r % Ax(g), (r / Ax(g)) % Ay(g);
        YPatternRowByPosition(g, x, y);
        assert (y + 1) * Ax(g) == y * Ax(g) + Ax(g) && (y - 1) * Ax(g) == y * Ax(g) - Ax(g);
        if y + 1 < Ay(g) { MixedBound(x, y + 1, Ax(g), Ay(g)); }
        if y >= 1 { MixedBound(x, y - 1, Ax(g), Ay(g)); }
      }
    } else {
      assert Plane(g) == Ax(g);
      assert Ax(g) in m[0];
    }
  }

  /** A row of the z operator stores nothing at a column closer to it than one
      z-plane, other than its own. */
  lemma ZPatternRowNear(g: Grid, r: int, c: int)
    requires Valid(g) && c != r && r - Plane(g) < c < r + Plane(g)
    ensures Get(ZPatternRow(g, r), c) == 0.0
  {
  }

  /** The 3-D z operator keeps all its columns inside the unknowns exactly when
      the z axis has at least 4 nodes; with 3 nodes row 0 stores column
      (nx - 2)(ny - 2), one past the last unknown. */
  lemma ZColumnsInRange(g: Grid)
    requires Valid(g)
    ensures ColumnsIn(D2dz2In3d(g), Unknowns(g)) <==> g.nz >= 4
  {
    UnknownsPositive(g);
    var m := D2dz2In3d(g);
    var pl, h := Plane(g), g.nz - 2;
    if g.nz >= 4 {
      forall r, c | 0 <= r < |m| && c in m[r] ensures 0 <= c < Unknowns(g) {
        VolumePosition(g, r);
        var s, z := r % pl, (r / pl) % h;
        ZPatternRowByPosition(g, s, z);
        assert (z + 1) * pl == z * pl + pl && (z - 1) * pl == z * pl - pl;
        if z + 1 < h { MixedBound(s, z + 1, pl, h); }
        if z >= 1 { MixedBound(s, z - 1, pl, h); }
      }
    } else {
      assert Unknowns(g) == pl;
      assert pl in m[0];
    }
  }

  /** When every pattern column lies inside the pattern, the replicated operator
      writes nothing outside its diagonal blocks: row i only uses the columns of
      block i / pt. */
  lemma BlockDiagonalInBlocks(pattern: Matrix, pt: int, n: int, i: int, c: int)
    requires pt >= 1 && |pattern| == pt && n >= 0 && ColumnsIn(pattern, pt)
    requires 0 <= i < |BlockDiagonal(pattern, pt, n)| && c in BlockDiagonal(pattern, pt, n)[i]
    ensures (i / pt) * pt <= c < (i / pt) * pt + pt
  {
    ShiftSpec(pattern[i % pt], (i / pt) * pt);
  }
}

/** Matrices and vectors of the linear-algebra backend, as values, and the
    backend operations the solver uses (MatSetValues, MatScale, MatAXPY,
    MatZeroRows, VecSetValues with INSERT_VALUES or ADD_VALUES).
    A matrix is a sequence of rows; a row maps each stored column to its value.
    A negative column is dropped, as the library does; any other column is
    recorded as the solver emits it, even at or past the matrix size. */
module LinearAlgebra {

  type Row = map<int, real>
  type Matrix = seq<Row>

  /** The value at column c of a row; columns that were never set read as zero. */
  function Get(row: Row, c: int): real
  {
    if c in row then row[c] else 0.0
  }

  function Entry(m: Matrix, r: int, c: int): real
    requires 0 <= r < |m|
  {
    Get(m[r], c)
  }

  /** A freshly allocated matrix with n rows and nothing stored. */
  function Zeros(n: nat): (m: Matrix)
    ensures |m| == n && forall r :: 0 <= r < n ==> m[r] == map[]
  {
    seq(n, r => map[])
  }

  /** MatSetValues with INSERT_VALUES on one row: each listed column takes its
      value; when a column is listed twice the later value stays. A negative
      column is ignored, as the library documents. */
  function Insert(row: Row, cols: seq<int>, vals: seq<real>): (res: Row)
    requires |cols| == |vals|
    decreases |cols|
  {
    if cols == [] then row
    else if cols[0] < 0 then Insert(row, cols[1..], vals[1..])
    else Insert(row[cols[0] := vals[0]], cols[1..], vals[1..])
  }

  /** After MatSetValues the stored columns are the old ones and the listed ones
      that are not negative. */
  lemma {:induction false} InsertKeys(row: Row, cols: seq<int>, vals: seq<real>)
    requires |cols| == |vals|
    ensures Insert(row, cols, vals).Keys == row.Keys + set t | 0 <= t < |cols| && cols[t] >= 0 :: cols[t]
    decreases |cols|
  {
    if cols != [] {
      var rest := set t | 0 <= t < |cols[1..]| && cols[1..][t] >= 0 :: cols[1..][t];
      assert (set t | 0 <= t < |cols| && cols[t] >= 0 :: cols[t]) == (if cols[0] >= 0 then {cols[0]} else {}) + rest;
      if cols[0] < 0 {
        InsertKeys(row, cols[1..], vals[1..]);
      } else {
        InsertKeys(row[cols[0] := vals[0]], cols[1..], vals[1..]);
      }
    }
  }

  /** A column MatSetValues does not list keeps its value. */
  lemma {:induction false} InsertKeeps(row: Row, cols: seq<int>, vals: seq<real>, c: int)
    requires |cols| == |vals| && c in row && c !in cols
    ensures c in Insert(row, cols, vals) && Insert(row, cols, vals)[c] == row[c]
    decreases |cols|
  {
    if cols != [] {
      assert c !in cols[1..];
      if cols[0] < 0 {
        InsertKeeps(row, cols[1..], vals[1..], c);
      } else {
        InsertKeeps(row[cols[0] := vals[0]], cols[1..], vals[1..], c);
      }
    }
  }

  /** A listed column that is not negative takes the value of its last
      occurrence in the list. */
  lemma {:induction false} InsertSets(row: Row, cols: seq<int>, vals: seq<real>, t: int)
    requires |cols| == |vals| && 0 <= t < |cols| && cols[t] >= 0 && cols[t] !in cols[t + 1..]
    ensures cols[t] in Insert(row, cols, vals) && Insert(row, cols, vals)[cols[t]] == vals[t]
    decreases |cols|
  {
    if t == 0 {
      InsertKeeps(row[cols[0] := vals[0]], cols[1..], vals[1..], cols[0]);
    } else {
      assert cols[t] == cols[1..][t - 1] && cols[t + 1..] == cols[1..][t..];
      if cols[0] < 0 {
        InsertSets(row, cols[1..], vals[1..], t - 1);
      } else {
        InsertSets(row[cols[0] := vals[0]], cols[1..], vals[1..], t - 1);
      }
    }
  }

  /** Inserting two or three distinct columns into an empty row gives exactly
      those entries; a negative first column of two is dropped. */
  lemma InsertTwo(a: int, b: int, va: real, vb: real)
    requires a != b && b >= 0
    ensures Insert(map[], [a, b], [va, vb]) == if a < 0 then map[b := vb] else map[a := va, b := vb]
  {
    assert [a, b][1..] == [b] && [va, vb][1..] == [vb];
    assert [b][1..] == [] && [vb][1..] == [];
    if a < 0 {
      assert Insert(map[b := vb], [], []) == map[b := vb];
      assert Insert(map[], [b], [vb]) == map[b := vb];
    } else {
      assert Insert(map[a := va][b := vb], [], []) == map[a := va, b := vb];
      assert Insert(map[a := va], [b], [vb]) == map[a := va, b := vb];
    }
  }

  lemma InsertThree(a: int, b: int, c: int, va: real, vb: real, vc: real)
    requires a != b && b != c && a != c && a >= 0 && b >= 0 && c >= 0
    ensures Insert(map[], [a, b, c], [va, vb, vc]) == map[a := va, b := vb, c := vc]
  {
    assert [a, b, c][1..] == [b, c] && [va, vb, vc][1..] == [vb, vc];
    assert [b, c][1..] == [c] && [vb, vc][1..] == [vc];
    assert [c][1..] == [] && [vc][1..] == [];
    assert Insert(map[a := va, b := vb][c := vc], [], []) == map[a := va, b := vb, c := vc];
    assert Insert(map[a := va, b := vb], [c], [vc]) == map[a := va, b := vb, c := vc];
    assert Insert(map[a := va], [b, c], [vb, vc]) == map[a := va, b := vb, c := vc];
  }

  /** MatSetValues on row r of a matrix. */
  function SetValues(m: Matrix, r: int, cols: seq<int>, vals: seq<real>): (res: Matrix)
    requires 0 <= r < |m| && |cols| == |vals|
    ensures |res| == |m| && res[r] == Insert(m[r], cols, vals)
    ensures forall s :: 0 <= s < |m| && s != r ==> res[s] == m[s]
  {
    m[r := Insert(m[r], cols, vals)]
  }

  /** MatSetValues of zeros at the listed columns of one row. */
  function ZeroEntries(row: Row, cols: seq<int>): (res: Row)
    ensures forall c :: c in res <==> c in row || c in cols
    ensures forall c :: Get(res, c) == if c in cols then 0.0 else Get(row, c)
    decreases |cols|
  {
    if cols == [] then row
    else
      var res := ZeroEntries(row[cols[0] := 0.0], cols[1..]);
      assert forall c :: c in cols <==> c == cols[0] || c in cols[1..];
      res
  }

  /** MatScale: every stored value times s. */
  function Scale(m: Matrix, s: real): (res: Matrix)
    ensures |res| == |m|
  {
    seq(|m|, r requires 0 <= r < |m| => map c | c in m[r] :: s * m[r][c])
  }

  /** A scaled row stores the same columns, each value times s. */
  lemma ScaleRow(m: Matrix, s: real, r: int)
    requires 0 <= r < |m|
    ensures Scale(m, s)[r].Keys == m[r].Keys
    ensures forall c :: Get(Scale(m, s)[r], c) == s * Get(m[r], c)
  {
  }

  /** MatAXPY(Y, a, X): Y + a X, the stored columns being those of either. */
  function Axpy(y: Matrix, a: real, x: Matrix): (res: Matrix)
    requires |y| == |x|
    ensures |res| == |y|
  {
    seq(|y|, r requires 0 <= r < |y| =>
      map c | c in y[r].Keys + x[r].Keys :: Get(y[r], c) + a * Get(x[r], c))
  }

  /** Row r of Y + a X stores the columns of either row, with the summed values. */
  lemma AxpyRow(y: Matrix, a: real, x: Matrix, r: int)
    requires |y| == |x| && 0 <= r < |y|
    ensures Axpy(y, a, x)[r].Keys == y[r].Keys + x[r].Keys
    ensures forall c :: Get(Axpy(y, a, x)[r], c) == Get(y[r], c) + a * Get(x[r], c)
  {
  }

  /** The identity row of row r with diagonal value diag. */
  function IdentityRow(r: int, diag: real): Row
  {
    map[r := diag]
  }

  /** MatZeroRows: each listed row keeps only its diagonal, set to diag. */
  function ZeroRows(m: Matrix, rows: seq<int>, diag: real): (res: Matrix)
    ensures |res| == |m|
    ensures forall r :: 0 <= r < |m| ==> res[r] == if r in rows then IdentityRow(r, diag) else m[r]
  {
    seq(|m|, r requires 0 <= r < |m| => if r in rows then IdentityRow(r, diag) else m[r])
  }

  // ---- vectors --------------------------------------------------------------

  /** VecSetValues with INSERT_VALUES: the later value stays on a repeated index. */
  function VecInsert(v: seq<real>, idx: seq<int>, vals: seq<real>): (res: seq<real>)
    requires |idx| == |vals| && forall t :: 0 <= t < |idx| ==> 0 <= idx[t] < |v|
    ensures |res| == |v|
    ensures forall r :: 0 <= r < |v| && r !in idx ==> res[r] == v[r]
    ensures forall t :: 0 <= t < |idx| && idx[t] !in idx[t + 1..] ==> res[idx[t]] == vals[t]
    decreases |idx|
  {
    if idx == [] then v
    else
      var res := VecInsert(v[idx[0] := vals[0]], idx[1..], vals[1..]);
      assert forall t :: 1 <= t < |idx| ==> idx[t] == idx[1..][t - 1] && idx[t + 1..] == idx[1..][t..];
      res
  }

  /** The total of the values listed for index r. */
  function SumAt(idx: seq<int>, vals: seq<real>, r: int): real
    requires |idx| == |vals|
    decreases |idx|
  {
    if idx == [] then 0.0
    else (if idx[0] == r then vals[0] else 0.0) + SumAt(idx[1..], vals[1..], r)
  }

  /** VecSetValues with ADD_VALUES: every listed value is added at its index. */
  function VecAdd(v: seq<real>, idx: seq<int>, vals: seq<real>): (res: seq<real>)
    requires |idx| == |vals| && forall t :: 0 <= t < |idx| ==> 0 <= idx[t] < |v|
    ensures |res| == |v|
    ensures forall r :: 0 <= r < |v| ==> res[r] == v[r] + SumAt(idx, vals, r)
    decreases |idx|
  {
    if idx == [] then v
    else VecAdd(v[idx[0] := v[idx[0]] + vals[0]], idx[1..], vals[1..])
  }

  /** Nothing is added at an index that is not listed. */
  lemma {:induction false} SumAtUnlisted(idx: seq<int>, vals: seq<real>, r: int)
    requires |idx| == |vals| && r !in idx
    ensures SumAt(idx, vals, r) == 0.0
    decreases |idx|
  {
    if idx != [] {
      assert r !in idx[1..];
      SumAtUnlisted(idx[1..], vals[1..], r);
    }
  }

  /** An index that is listed has a last listing. */
  lemma {:induction false} LastOccurrence(idx: seq<int>, r: int)
    requires r in idx
    ensures exists t :: 0 <= t < |idx| && idx[t] == r && r !in idx[t + 1..]
    decreases |idx|
  {
    if r in idx[1..] {
      LastOccurrence(idx[1..], r);
      var t :| 0 <= t < |idx[1..]| && idx[1..][t] == r && r !in idx[1..][t + 1..];
      assert idx[t + 2..] == idx[1..][t + 1..];
    }
  }

  /** VecSetValues of one value at every listed index: the listed entries take
      it, the others keep theirs. */
  lemma VecInsertUniform(v: seq<real>, idx: seq<int>, x: real, r: int)
    requires forall t :: 0 <= t < |idx| ==> 0 <= idx[t] < |v|
    requires 0 <= r < |v|
    ensures VecInsert(v, idx, seq(|idx|, _ => x))[r] == if r in idx then x else v[r]
  {
    if r in idx {
      LastOccurrence(idx, r);
    }
  }
}

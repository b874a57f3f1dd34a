/** The values held by a matrix, as a sequence of rows, and every operation of
    the matrix library as a function on such values. The class in module
    Matrices is proved against these functions; the lemmas here state what
    the library promises about them.

    Indices in this module are 0-based: the library's cell (i, j), with
    1 <= i <= m and 1 <= j <= n, is g[i - 1][j - 1]. */
module Grids {

  type Grid = seq<seq<int>>

  /** g has m rows of n cells each. */
  predicate IsShape(g: Grid, m: nat, n: nat) {
    |g| == m && forall i :: 0 <= i < m ==> |g[i]| == n
  }

  /** Two grids of one shape that agree on every cell are equal. */
  lemma Ext(a: Grid, b: Grid, m: nat, n: nat)
    requires IsShape(a, m, n) && IsShape(b, m, n)
    requires forall i, j :: 0 <= i < m && 0 <= j < n ==> a[i][j] == b[i][j]
    ensures a == b
  {
    forall i | 0 <= i < m
      ensures a[i] == b[i]
    {
      assert forall j :: 0 <= j < n ==> a[i][j] == b[i][j];
    }
  }

  /** An m x n grid with every cell v. */
  function Filled(m: nat, n: nat, v: int): (g: Grid)
    ensures IsShape(g, m, n)
    ensures forall i, j :: 0 <= i < m && 0 <= j < n ==> g[i][j] == v
  {
    seq(m, _ => seq(n, _ => v))
  }

  // ---------------------------------------------------------------------
  // Single cells: get_val / set_val

  /** g with cell (i, j) replaced by v. */
  function Set(g: Grid, i: nat, j: nat, v: int): Grid
    requires i < |g| && j < |g[i]|
  {
    g[i := g[i][j := v]]
  }

  /** Writing a cell changes that cell and nothing else: reading it back gives
      the value written, every other cell and the shape stay as they were,
      and a second write to the same cell overrides the first. */
  lemma SetAt(g: Grid, m: nat, n: nat, i: nat, j: nat, v: int)
    requires IsShape(g, m, n) && i < m && j < n
    ensures IsShape(Set(g, i, j, v), m, n)
    ensures Set(g, i, j, v)[i][j] == v
    ensures forall a, b :: 0 <= a < m && 0 <= b < n && (a != i || b != j) ==>
      Set(g, i, j, v)[a][b] == g[a][b]
  {
  }

  /** A second write to a cell overrides the first. */
  lemma {:induction false} SetOverwrite(g: Grid, i: nat, j: nat, v: int, w: int)
    requires i < |g| && j < |g[i]|
    ensures Set(Set(g, i, j, v), i, j, w) == Set(g, i, j, w)
  {
    assert g[i][j := v][j := w] == g[i][j := w];
  }

  // ---------------------------------------------------------------------
  // Rows and columns: get_row / set_row / get_col / set_col

  /** Row i of g. */
  function Row(g: Grid, i: nat): seq<int>
    requires i < |g|
  {
    g[i]
  }

  /** Column j of an n-column grid, top to bottom. */
  function Col(g: Grid, n: nat, j: nat): (c: seq<int>)
    requires IsShape(g, |g|, n) && j < n
    ensures |c| == |g|
  {
    seq(|g|, a requires 0 <= a < |g| => g[a][j])
  }

  /** g with row i replaced by r. */
  function WithRow(g: Grid, i: nat, r: seq<int>): Grid
    requires i < |g|
  {
    g[i := r]
  }

  /** An n-column g with column j replaced by c, one cell per row. */
  function WithCol(g: Grid, n: nat, j: nat, c: seq<int>): (r: Grid)
    requires IsShape(g, |g|, n) && j < n && |c| == |g|
    ensures IsShape(r, |g|, n)
  {
    seq(|g|, a requires 0 <= a < |g| => g[a][j := c[a]])
  }

  /** Writing row i from row k of the same grid makes row i a copy of row k
      and leaves every other row as it was; writing a row back where it was
      read from changes nothing; a row that was written reads back as written. */
  lemma {:induction false} CopyRowInto(g: Grid, m: nat, n: nat, i: nat, k: nat, r: seq<int>)
    requires IsShape(g, m, n) && i < m && k < m && |r| == n
    ensures IsShape(WithRow(g, i, Row(g, k)), m, n)
    ensures forall a :: 0 <= a < m ==> WithRow(g, i, Row(g, k))[a] == if a == i then g[k] else g[a]
    ensures WithRow(g, i, Row(g, i)) == g
    ensures Row(WithRow(g, i, r), i) == r
  {
  }

  /** The same three facts for columns. */
  lemma {:induction false} CopyColInto(g: Grid, m: nat, n: nat, j: nat, k: nat, c: seq<int>)
    requires IsShape(g, m, n) && j < n && k < n && |c| == m
    ensures forall a, b :: 0 <= a < m && 0 <= b < n ==>
      WithCol(g, n, j, Col(g, n, k))[a][b] == if b == j then g[a][k] else g[a][b]
    ensures WithCol(g, n, j, Col(g, n, j)) == g
    ensures Col(WithCol(g, n, j, c), n, j) == c
  {
    Ext(WithCol(g, n, j, Col(g, n, j)), g, m, n);
  }

  // ---------------------------------------------------------------------
  // swap_rows / swap_cols: save row i, write row j into i, write the saved
  // row into j

  function SwapRows(g: Grid, i: nat, j: nat): Grid
    requires i < |g| && j < |g|
  {
    WithRow(WithRow(g, i, Row(g, j)), j, Row(g, i))
  }

  /** Swapping exchanges rows i and j and leaves every other row as it was. */
  lemma SwapRowsAt(g: Grid, i: nat, j: nat)
    requires i < |g| && j < |g|
    ensures |SwapRows(g, i, j)| == |g|
    ensures forall a :: 0 <= a < |g| ==>
      SwapRows(g, i, j)[a] == if a == i then g[j] else if a == j then g[i] else g[a]
  {
  }

  /** Swapping a row with itself changes nothing, and swapping the same two
      rows twice restores the grid. */
  lemma {:induction false} SwapRowsInvolutive(g: Grid, i: nat, j: nat)
    requires i < |g| && j < |g|
    ensures SwapRows(g, i, i) == g
    ensures SwapRows(SwapRows(g, i, j), i, j) == g
  {
    SwapRowsAt(g, i, j);
    SwapRowsAt(SwapRows(g, i, j), i, j);
  }

  function SwapCols(g: Grid, n: nat, i: nat, j: nat): (r: Grid)
    requires IsShape(g, |g|, n) && i < n && j < n
    ensures IsShape(r, |g|, n)
  {
    WithCol(WithCol(g, n, i, Col(g, n, j)), n, j, Col(g, n, i))
  }

  /** Swapping exchanges columns i and j and leaves every other column as it was. */
  lemma SwapColsAt(g: Grid, n: nat, i: nat, j: nat)
    requires IsShape(g, |g|, n) && i < n && j < n
    ensures forall a, b :: 0 <= a < |g| && 0 <= b < n ==>
      SwapCols(g, n, i, j)[a][b] == if b == i then g[a][j] else if b == j then g[a][i] else g[a][b]
  {
  }

  /** Swapping a column with itself changes nothing, and swapping the same two
      columns twice restores the grid. */
  lemma {:induction false} SwapColsInvolutive(g: Grid, n: nat, i: nat, j: nat)
    requires IsShape(g, |g|, n) && i < n && j < n
    ensures SwapCols(g, n, i, i) == g
    ensures SwapCols(SwapCols(g, n, i, j), n, i, j) == g
  {
    SwapColsAt(g, n, i, i);
    Ext(SwapCols(g, n, i, i), g, |g|, n);
    var once := SwapCols(g, n, i, j);
    SwapColsAt(g, n, i, j);
    SwapColsAt(once, n, i, j);
    Ext(SwapCols(once, n, i, j), g, |g|, n);
  }

  // ---------------------------------------------------------------------
  // add_scalar / subtract_scalar / multiply_scalar

  /** f applied to every cell; the shape is kept. */
  function MapCells(g: Grid, f: int -> int): (r: Grid)
    ensures |r| == |g| && forall i :: 0 <= i < |g| ==> |r[i]| == |g[i]|
  {
    seq(|g|, i requires 0 <= i < |g| => seq(|g[i]|, j requires 0 <= j < |g[i]| => f(g[i][j])))
  }

  function AddScalar(g: Grid, v: int): Grid {
    MapCells(g, x => x + v)
  }

  function SubtractScalar(g: Grid, v: int): Grid {
    MapCells(g, x => x - v)
  }

  function MultiplyScalar(g: Grid, v: int): Grid {
    MapCells(g, x => x * v)
  }

  /** Adding a scalar and then subtracting it restores the grid. */
  lemma {:induction false} AddThenSubtractScalar(g: Grid, m: nat, n: nat, v: int)
    requires IsShape(g, m, n)
    ensures SubtractScalar(AddScalar(g, v), v) == g
  {
    var back := SubtractScalar(AddScalar(g, v), v);
    forall a, b | 0 <= a < m && 0 <= b < n
      ensures back[a][b] == g[a][b]
    {
      assert AddScalar(g, v)[a][b] == g[a][b] + v;
    }
    Ext(back, g, m, n);
  }

  // ---------------------------------------------------------------------
  // add_matrix and the multiply_matrix loop: cell by cell over the cells of
  // a; b may be larger, and its extra rows and columns are never read

  /** b has a cell wherever a does; a row of a with no cells needs no row in b. */
  predicate Covers(b: Grid, a: Grid) {
    forall i :: 0 <= i < |a| && |a[i]| > 0 ==> i < |b| && |a[i]| <= |b[i]|
  }

  function Combine(a: Grid, b: Grid, f: (int, int) -> int): (r: Grid)
    requires Covers(b, a)
    ensures |r| == |a| && forall i :: 0 <= i < |a| ==> |r[i]| == |a[i]|
  {
    seq(|a|, i requires 0 <= i < |a| => seq(|a[i]|, j requires 0 <= j < |a[i]| => f(a[i][j], b[i][j])))
  }

  function AddCells(a: Grid, b: Grid): Grid
    requires Covers(b, a)
  {
    Combine(a, b, (x, y) => x + y)
  }

  function MultiplyCells(a: Grid, b: Grid): Grid
    requires Covers(b, a)
  {
    Combine(a, b, (x, y) => x * y)
  }

  /** Adding a matrix of one shape is commutative, and adding the matrix whose
      every cell is v is the same as adding the scalar v. */
  lemma {:induction false} AddCellsLaws(a: Grid, b: Grid, m: nat, n: nat, v: int)
    requires IsShape(a, m, n) && IsShape(b, m, n)
    ensures AddCells(a, b) == AddCells(b, a)
    ensures AddCells(a, Filled(m, n, v)) == AddScalar(a, v)
  {
    forall i, j | 0 <= i < m && 0 <= j < n
      ensures AddCells(a, b)[i][j] == AddCells(b, a)[i][j]
      ensures AddCells(a, Filled(m, n, v))[i][j] == AddScalar(a, v)[i][j]
    {
    }
    Ext(AddCells(a, b), AddCells(b, a), m, n);
    Ext(AddCells(a, Filled(m, n, v)), AddScalar(a, v), m, n);
  }

  // ---------------------------------------------------------------------
  // The matrix product that multiply_matrix's documentation promises

  /** The sum of x[t] * y[t] over all t. */
  function Dot(x: seq<int>, y: seq<int>): int
    requires |x| == |y|
    decreases |x|
  {
    if |x| == 0 then 0 else Dot(x[..|x| - 1], y[..|y| - 1]) + x[|x| - 1] * y[|y| - 1]
  }

  /** One more term of a dot product taken over prefixes. */
  lemma DotStep(x: seq<int>, y: seq<int>, t: nat)
    requires |x| == |y| && t < |x|
    ensures Dot(x[..t + 1], y[..t + 1]) == Dot(x[..t], y[..t]) + x[t] * y[t]
  {
    assert x[..t + 1][..t] == x[..t] && y[..t + 1][..t] == y[..t];
  }

  /** The m x p product of an m x k grid a and a k x p grid b. */
  function Product(a: Grid, b: Grid, k: nat, p: nat): (r: Grid)
    requires IsShape(a, |a|, k) && IsShape(b, k, p)
    ensures IsShape(r, |a|, p)
  {
    seq(|a|, i requires 0 <= i < |a| => seq(p, j requires 0 <= j < p => Dot(a[i], Col(b, p, j))))
  }

  /** The n x n identity: ones on the diagonal, zeros elsewhere. */
  function IdentityGrid(n: nat): (g: Grid)
    ensures IsShape(g, n, n)
  {
    seq(n, a => seq(n, b => if a == b then 1 else 0))
  }

  /** The dot product with the j-th unit vector picks out item j. */
  lemma {:induction false} DotUnit(x: seq<int>, e: seq<int>, j: nat)
    requires |x| == |e| && j < |x|
    requires forall t :: 0 <= t < |e| ==> e[t] == if t == j then 1 else 0
    ensures Dot(x, e) == x[j]
  {
    var k := |x|;
    if j == k - 1 {
      DotZero(x[..k - 1], e[..k - 1]);
    } else {
      DotUnit(x[..k - 1], e[..k - 1], j);
    }
  }

  /** The dot product with the zero vector is 0. */
  lemma {:induction false} DotZero(x: seq<int>, e: seq<int>)
    requires |x| == |e|
    requires forall t :: 0 <= t < |e| ==> e[t] == 0
    ensures Dot(x, e) == 0
  {
    if |x| > 0 {
      DotZero(x[..|x| - 1], e[..|e| - 1]);
    }
  }

  /** The identity is a right unit of the product. */
  lemma {:induction false} ProductWithIdentity(a: Grid, m: nat, n: nat)
    requires IsShape(a, m, n)
    ensures Product(a, IdentityGrid(n), n, n) == a
  {
    var r := Product(a, IdentityGrid(n), n, n);
    forall i, j | 0 <= i < m && 0 <= j < n
      ensures r[i][j] == a[i][j]
    {
      DotUnit(a[i], Col(IdentityGrid(n), n, j), j);
    }
    Ext(r, a, m, n);
  }

  /** multiply_matrix as written multiplies cell by cell; its documentation
      promises the matrix product. On [[1,2],[3,4]] and [[5,6],[7,8]] the
      loop yields [[5,12],[21,32]] where the product is [[19,22],[43,50]]. */
  lemma ElementwiseIsNotProduct()
    ensures MultiplyCells([[1, 2], [3, 4]], [[5, 6], [7, 8]]) == [[5, 12], [21, 32]]
    ensures Product([[1, 2], [3, 4]], [[5, 6], [7, 8]], 2, 2) == [[19, 22], [43, 50]]
  {
    Ext(MultiplyCells([[1, 2], [3, 4]], [[5, 6], [7, 8]]), [[5, 12], [21, 32]], 2, 2);
    ProductOfExample();
  }

  lemma ProductOfExample()
    ensures Product([[1, 2], [3, 4]], [[5, 6], [7, 8]], 2, 2) == [[19, 22], [43, 50]]
  {
    var a: Grid := [[1, 2], [3, 4]];
    var b: Grid := [[5, 6], [7, 8]];
    assert Col(b, 2, 0) == [5, 7];
    assert Col(b, 2, 1) == [6, 8];
    DotOfTwo(1, 2, 5, 7);
    DotOfTwo(1, 2, 6, 8);
    DotOfTwo(3, 4, 5, 7);
    DotOfTwo(3, 4, 6, 8);
    Ext(Product(a, b, 2, 2), [[19, 22], [43, 50]], 2, 2);
  }

  lemma DotOfTwo(x0: int, x1: int, y0: int, y1: int)
    ensures Dot([x0, x1], [y0, y1]) == x0 * y0 + x1 * y1
  {
    assert [x0, x1][..1] == [x0] && [y0, y1][..1] == [y0];
    assert [x0][..0] == [] && [y0][..0] == [];
    assert Dot([x0], [y0]) == Dot([], []) + x0 * y0;
    assert Dot([x0, x1], [y0, y1]) == Dot([x0], [y0]) + x1 * y1;
  }

  // ---------------------------------------------------------------------
  // transpose, built the way SquareMatrix.transpose builds it: copy rows of
  // g into a fresh zero grid, then write row c of the copy into column c

  /** dst with rows 0 .. k-1 replaced by those of src, one at a time. */
  function CopyRows(dst: Grid, src: Grid, k: nat): (r: Grid)
    requires k <= |dst| && k <= |src|
    ensures |r| == |dst|
    decreases k
  {
    if k == 0 then dst else WithRow(CopyRows(dst, src, k - 1), k - 1, Row(src, k - 1))
  }

  lemma {:induction false} CopyRowsAt(dst: Grid, src: Grid, k: nat)
    requires k <= |dst| && k <= |src|
    ensures forall a :: 0 <= a < |dst| ==> CopyRows(dst, src, k)[a] == if a < k then src[a] else dst[a]
  {
    if k > 0 {
      CopyRowsAt(dst, src, k - 1);
    }
  }

  /** An n-column dst with column c replaced by row c of src for c < k, one
      column at a time. */
  function RowsToCols(dst: Grid, n: nat, src: Grid, k: nat): (r: Grid)
    requires IsShape(dst, |dst|, n) && k <= n && k <= |src|
    requires forall c :: 0 <= c < k ==> |src[c]| == |dst|
    ensures IsShape(r, |dst|, n)
    decreases k
  {
    if k == 0 then dst else WithCol(RowsToCols(dst, n, src, k - 1), n, k - 1, Row(src, k - 1))
  }

  lemma {:induction false} RowsToColsAt(dst: Grid, n: nat, src: Grid, k: nat)
    requires IsShape(dst, |dst|, n) && k <= n && k <= |src|
    requires forall c :: 0 <= c < k ==> |src[c]| == |dst|
    ensures forall a, b {:trigger RowsToCols(dst, n, src, k)[a][b]} :: 0 <= a < |dst| && 0 <= b < n ==>
      RowsToCols(dst, n, src, k)[a][b] == if b < k then src[b][a] else dst[a][b]
  {
    if k > 0 {
      RowsToColsAt(dst, n, src, k - 1);
      var prev := RowsToCols(dst, n, src, k - 1);
      forall a, b | 0 <= a < |dst| && 0 <= b < n
        ensures RowsToCols(dst, n, src, k)[a][b] == if b < k then src[b][a] else dst[a][b]
      {
        assert RowsToCols(dst, n, src, k)[a] == prev[a][k - 1 := Row(src, k - 1)[a]];
      }
    } else {
      assert RowsToCols(dst, n, src, 0) == dst;
    }
  }

  /** The transpose of an n-column grid: its row j is column j of g. */
  function Transpose(g: Grid, n: nat): (r: Grid)
    requires IsShape(g, |g|, n)
    ensures IsShape(r, n, |g|)
  {
    seq(n, j requires 0 <= j < n => Col(g, n, j))
  }

  /** Copying all s rows and then writing them into the columns yields the
      transpose. */
  lemma {:induction false} TransposeByRows(g: Grid, s: nat)
    requires IsShape(g, s, s)
    ensures CopyRows(Filled(s, s, 0), g, s) == g
    ensures RowsToCols(g, s, g, s) == Transpose(g, s)
  {
    CopyRowsAt(Filled(s, s, 0), g, s);
    RowsToColsAt(g, s, g, s);
    Ext(RowsToCols(g, s, g, s), Transpose(g, s), s, s);
  }

  /** Transposing twice restores the grid. */
  lemma {:induction false} TransposeInvolutive(g: Grid, m: nat, n: nat)
    requires IsShape(g, m, n)
    ensures Transpose(Transpose(g, n), m) == g
  {
    Ext(Transpose(Transpose(g, n), m), g, m, n);
  }

  /** SquareMatrix.transpose as written: its first loop runs over rows 0 .. s-1,
      and row 0 is the header row (copying it into the fresh matrix copies
      the column markers onto themselves), so only rows 1 .. s-1 are copied
      and row s of the copy stays 0. Its second loop, over 0 .. s, writes the
      header column and then columns 1 .. s. */
  function TransposeAsWritten(g: Grid, s: nat): (r: Grid)
    requires IsShape(g, s, s)
    ensures IsShape(r, s, s)
    ensures forall a, b :: 0 <= a < s && 0 <= b < s ==> r[a][b] == if b < s - 1 then g[b][a] else 0
  {
    var copied := if s == 0 then 0 else s - 1;
    CopyRowsAt(Filled(s, s, 0), g, copied);
    RowsToColsAt(g, s, CopyRows(Filled(s, s, 0), g, copied), s);
    RowsToCols(g, s, CopyRows(Filled(s, s, 0), g, copied), s)
  }

  /** The as-written transpose puts 0 in the whole last column, so it agrees
      with the transpose exactly when the last row of g is all zeros: on
      [[1,2],[3,4]] it yields [[1,0],[2,0]] instead of [[1,3],[2,4]]. */
  lemma {:induction false} TransposeAsWrittenLosesLastRow(g: Grid, s: nat)
    requires IsShape(g, s, s) && s > 0
    ensures forall a :: 0 <= a < s ==> TransposeAsWritten(g, s)[a][s - 1] == 0
    ensures TransposeAsWritten(g, s) == Transpose(g, s) <==> g[s - 1] == seq(s, _ => 0)
  {
    var copy := CopyRows(Filled(s, s, 0), g, s - 1);
    CopyRowsAt(Filled(s, s, 0), g, s - 1);
    RowsToColsAt(g, s, copy, s);
    var r := TransposeAsWritten(g, s);
    assert forall a, b :: 0 <= a < s && 0 <= b < s ==> r[a][b] == if b < s - 1 then g[b][a] else 0;
    var last := g[s - 1];
    if last == seq(s, _ => 0) {
      assert forall b :: 0 <= b < s ==> last[b] == 0;
      Ext(r, Transpose(g, s), s, s);
    }
    if r == Transpose(g, s) {
      forall b | 0 <= b < s
        ensures last[b] == 0
      {
        assert r[b][s - 1] == Transpose(g, s)[b][s - 1];
      }
      assert last == seq(s, _ => 0);
    }
  }

  // ---------------------------------------------------------------------
  // get_diagonal / set_diagonal

  /** Cell (k, k) for every k. */
  function Diagonal(g: Grid): (d: seq<int>)
    requires IsShape(g, |g|, |g|)
    ensures |d| == |g|
  {
    seq(|g|, k requires 0 <= k < |g| => g[k][k])
  }

  /** g with cell (k, k) replaced by d[k] for every k. */
  function WithDiagonal(g: Grid, d: seq<int>): (r: Grid)
    requires IsShape(g, |g|, |g|) && |d| == |g|
    ensures IsShape(r, |g|, |g|)
  {
    seq(|g|, a requires 0 <= a < |g| => seq(|g|, b requires 0 <= b < |g| => if a == b then d[a] else g[a][b]))
  }

  /** Setting the diagonal and reading it back gives what was set, every cell
      off the diagonal keeps its value, and writing back the diagonal just
      read changes nothing. */
  lemma {:induction false} DiagonalRoundTrip(g: Grid, d: seq<int>)
    requires IsShape(g, |g|, |g|) && |d| == |g|
    ensures Diagonal(WithDiagonal(g, d)) == d
    ensures forall a, b :: 0 <= a < |g| && 0 <= b < |g| && a != b ==> WithDiagonal(g, d)[a][b] == g[a][b]
    ensures WithDiagonal(g, Diagonal(g)) == g
  {
    Ext(WithDiagonal(g, Diagonal(g)), g, |g|, |g|);
  }

  // ---------------------------------------------------------------------
  // The variants' set_val: how a write is stored

  /** Plain stores the value at (i, j). Mirror (SymmetricMatrix) stores it at
      (i, j) and at (j, i). ZeroOffDiagonal (DiagonalMatrix, and
      IdentityMatrix, which inherits its set_val) stores it on the diagonal
      and 0 anywhere else. */
  datatype WritePolicy = Plain | Mirror | ZeroOffDiagonal

  function Write(p: WritePolicy, g: Grid, n: nat, i: nat, j: nat, v: int): (r: Grid)
    requires IsShape(g, |g|, n) && i < |g| && j < n
    requires p != Plain ==> |g| == n
    ensures IsShape(r, |g|, n)
    ensures r[i][j] == if p == ZeroOffDiagonal && i != j then 0 else v
    ensures p == Mirror ==> r[j][i] == v
  {
    match p
    case Plain => Set(g, i, j, v)
    case Mirror => Set(Set(g, i, j, v), j, i, v)
    case ZeroOffDiagonal => Set(g, i, j, if i == j then v else 0)
  }

  /** Cells (a, b) and (b, a) agree. */
  predicate IsSymmetric(g: Grid) {
    IsShape(g, |g|, |g|) && forall a, b :: 0 <= a < |g| && 0 <= b < |g| ==> g[a][b] == g[b][a]
  }

  /** Every cell off the diagonal is 0. */
  predicate IsDiagonal(g: Grid) {
    IsShape(g, |g|, |g|) && forall a, b :: 0 <= a < |g| && 0 <= b < |g| && a != b ==> g[a][b] == 0
  }

  /** Ones on the diagonal and zeros elsewhere. */
  predicate IsIdentity(g: Grid) {
    IsShape(g, |g|, |g|) && forall a, b :: 0 <= a < |g| && 0 <= b < |g| ==> g[a][b] == if a == b then 1 else 0
  }

  /** A mirrored write stores v at (i, j) and (j, i), changes no other cell,
      and keeps a symmetric grid symmetric. */
  lemma {:induction false} MirrorKeepsSymmetric(g: Grid, i: nat, j: nat, v: int)
    requires IsShape(g, |g|, |g|) && i < |g| && j < |g|
    ensures var r := Write(Mirror, g, |g|, i, j, v);
      IsShape(r, |g|, |g|) && r[i][j] == v && r[j][i] == v
      && (forall a, b :: 0 <= a < |g| && 0 <= b < |g| && (a, b) != (i, j) && (a, b) != (j, i) ==> r[a][b] == g[a][b])
      && (IsSymmetric(g) ==> IsSymmetric(r))
  {
    var once := Set(g, i, j, v);
    SetAt(g, |g|, |g|, i, j, v);
    SetAt(once, |g|, |g|, j, i, v);
  }

  /** A write to a diagonal-only grid stores v on the diagonal and 0 off it,
      changes no other cell, and keeps every off-diagonal cell 0. */
  lemma {:induction false} ZeroOffDiagonalKeepsDiagonal(g: Grid, i: nat, j: nat, v: int)
    requires IsShape(g, |g|, |g|) && i < |g| && j < |g|
    ensures var r := Write(ZeroOffDiagonal, g, |g|, i, j, v);
      IsShape(r, |g|, |g|) && r[i][j] == (if i == j then v else 0)
      && (forall a, b :: 0 <= a < |g| && 0 <= b < |g| && (a, b) != (i, j) ==> r[a][b] == g[a][b])
      && (IsDiagonal(g) ==> IsDiagonal(r))
  {
    SetAt(g, |g|, |g|, i, j, if i == j then v else 0);
  }

  /** On the diagonal every policy stores the value as given, so
      set_diagonal behaves alike on all variants. */
  lemma {:induction false} WriteOnDiagonal(p: WritePolicy, g: Grid, k: nat, v: int)
    requires IsShape(g, |g|, |g|) && k < |g|
    ensures Write(p, g, |g|, k, k, v) == Set(g, k, k, v)
  {
    SetOverwrite(g, k, k, v, v);
  }

  /** The identity is symmetric and diagonal; a write through the diagonal
      policy keeps it the identity unless it puts a value other than 1 on the
      diagonal. */
  lemma {:induction false} IdentityKept(n: nat, i: nat, j: nat, v: int)
    requires i < n && j < n && (i == j ==> v == 1)
    ensures IsIdentity(IdentityGrid(n)) && IsSymmetric(IdentityGrid(n)) && IsDiagonal(IdentityGrid(n))
    ensures Write(ZeroOffDiagonal, IdentityGrid(n), n, i, j, v) == IdentityGrid(n)
  {
    var g := IdentityGrid(n);
    SetAt(g, n, n, i, j, if i == j then v else 0);
    Ext(Write(ZeroOffDiagonal, g, n, i, j, v), g, n, n);
  }

  // ---------------------------------------------------------------------
  // IdentityMatrix as written

  /** The vector IdentityMatrix's constructor fills: set_item(k, 1) for
      k = 0 .. d-1 on a fresh vector of d zeros. The call with k = 0 writes
      the vector's row marker, not an item, so v here is that vector with
      items 1 .. k-1 (indices 0 .. k-2) set to 1. */
  function SetItemsToOne(v: seq<int>, k: nat): (r: seq<int>)
    requires k <= |v|
    ensures |r| == |v|
    decreases k
  {
    if k <= 1 then v else SetItemsToOne(v, k - 1)[k - 2 := 1]
  }

  lemma {:induction false} SetItemsToOneAt(v: seq<int>, k: nat)
    requires k <= |v|
    ensures forall t :: 0 <= t < |v| ==> SetItemsToOne(v, k)[t] == if t < k - 1 then 1 else v[t]
  {
    if k > 1 {
      SetItemsToOneAt(v, k - 1);
    }
  }

  /** IdentityMatrix.set_diagonal as written: for every item of the new
      diagonal, in order, it writes that item to the one cell (c, c), where c
      is the last row. (Its first write, of the vector's row marker, is
      overwritten by the next one.) */
  function WriteEach(g: Grid, c: nat, items: seq<int>): (r: Grid)
    requires c < |g| && c < |g[c]|
    ensures |r| == |g| && forall a :: 0 <= a < |g| ==> |r[a]| == |g[a]|
    decreases |items|
  {
    if items == [] then g else WriteEach(Set(g, c, c, items[0]), c, items[1..])
  }

  /** Writing a list of values to one cell leaves only the last. */
  lemma {:induction false} WriteEachKeepsLast(g: Grid, c: nat, items: seq<int>)
    requires c < |g| && c < |g[c]| && items != []
    ensures WriteEach(g, c, items) == Set(g, c, c, items[|items| - 1])
    decreases |items|
  {
    if |items| > 1 {
      WriteEachKeepsLast(Set(g, c, c, items[0]), c, items[1..]);
      SetOverwrite(g, c, c, items[0], items[|items| - 1]);
    }
  }

  /** What the two loops of the IdentityMatrix constructor would leave in an
      s x s matrix if it had a lattice and its set_val took `self` (as
      written, the constructor raises TypeError at its first set_val): the
      as-written diagonal loop run with the as-written vector. */
  function IdentityAsWritten(s: nat): (r: Grid)
    ensures IsShape(r, s, s)
  {
    var ones := SetItemsToOne(seq(s, _ => 0), s);
    if s == 0 then [] else WriteEach(Filled(s, s, 0), s - 1, ones)
  }

  /** The as-written loops leave every cell 0: the vector they build has
      0 as its last item, and the last write to cell (s, s) is that item.
      For s >= 1 this is not the identity. */
  lemma {:induction false} IdentityAsWrittenIsZero(s: nat)
    ensures IdentityAsWritten(s) == Filled(s, s, 0)
    ensures s > 0 ==> !IsIdentity(IdentityAsWritten(s))
  {
    if s > 0 {
      var ones := SetItemsToOne(seq(s, _ => 0), s);
      SetItemsToOneAt(seq(s, _ => 0), s);
      WriteEachKeepsLast(Filled(s, s, 0), s - 1, ones);
      Ext(Set(Filled(s, s, 0), s - 1, s - 1, 0), Filled(s, s, 0), s, s);
      assert IdentityAsWritten(s)[0][0] == 0;
    }
  }
}

/** The Matrix class of the matrix library and its subclasses, as one class
    over a two-dimensional array of cells.

    The library's API counts rows and columns from 1; cell (i, j) of the
    library is cells[i - 1, j - 1] here and Values()[i - 1][j - 1] in the
    grid view. The subclasses OneDimensionalMatrix, SquareMatrix,
    SymmetricMatrix, DiagonalMatrix and IdentityMatrix are named
    constructors; the three whose set_val differs carry that difference as
    the write policy of the matrix. */
module Matrices {
  import opened Errors
  import Grids

  /** The items 1 .. n of a vector: the first n cells of its first row. */
  function Leading(g: Grids.Grid, n: nat): (r: seq<int>)
    requires n == 0 || (|g| >= 1 && |g[0]| >= n)
    ensures |r| == n
    ensures forall k :: 0 <= k < n ==> r[k] == g[0][k]
  {
    if n == 0 then [] else g[0][..n]
  }

  /** get_item(1) .. get_item(n) all succeed on v: v has a first row with at
      least n cells. With n = 0 nothing is read. */
  predicate Supplies(v: Matrix, n: nat) {
    n == 0 || (v.rows >= 1 && v.cols >= n)
  }

  class Matrix {
    const rows: nat
    const cols: nat
    const policy: Grids.WritePolicy
    const cells: array2<int>

    /** The array has the matrix's shape, and a matrix whose writes are
        mirrored or kept to the diagonal is square. */
    ghost predicate Valid() {
      cells.Length0 == rows && cells.Length1 == cols && (policy != Grids.Plain ==> rows == cols)
    }

    /** The values held, row by row. */
    ghost function Values(): (g: Grids.Grid)
      reads cells
      requires Valid()
      ensures Grids.IsShape(g, rows, cols)
      ensures forall a, b :: 0 <= a < rows && 0 <= b < cols ==> g[a][b] == cells[a, b]
    {
      seq(rows, a requires 0 <= a < rows reads cells =>
        seq(cols, b requires 0 <= b < cols reads cells => cells[a, b]))
    }

    lemma ValuesAre(g: Grids.Grid)
      requires Valid() && Grids.IsShape(g, rows, cols)
      requires forall a, b :: 0 <= a < rows && 0 <= b < cols ==> cells[a, b] == g[a][b]
      ensures Values() == g
    {
      Grids.Ext(Values(), g, rows, cols);
    }

    // -------------------------------------------------------------------
    // Construction

    /** Matrix(m, n, default): an m x n matrix with every cell default. */
    constructor (m: nat, n: nat, default: int)
      ensures Valid() && rows == m && cols == n && policy == Grids.Plain
      ensures fresh(cells) && Values() == Grids.Filled(m, n, default)
    {
      rows, cols, policy := m, n, Grids.Plain;
      cells := new int[m, n]((_, _) => default);
      new;
      ValuesAre(Grids.Filled(m, n, default));
    }

    /** OneDimensionalMatrix(n): a 1 x n vector of zeros. */
    constructor OneDimensional(n: nat)
      ensures Valid() && rows == 1 && cols == n && policy == Grids.Plain
      ensures fresh(cells) && Values() == Grids.Filled(1, n, 0)
    {
      rows, cols, policy := 1, n, Grids.Plain;
      cells := new int[1, n]((_, _) => 0);
      new;
      ValuesAre(Grids.Filled(1, n, 0));
    }

    /** SquareMatrix(d): a d x d matrix of zeros. */
    constructor Square(d: nat)
      ensures Valid() && rows == d && cols == d && policy == Grids.Plain
      ensures fresh(cells) && Values() == Grids.Filled(d, d, 0)
    {
      rows, cols, policy := d, d, Grids.Plain;
      cells := new int[d, d]((_, _) => 0);
      new;
      ValuesAre(Grids.Filled(d, d, 0));
    }

    /** SymmetricMatrix(d): a d x d matrix of zeros whose writes are mirrored. */
    constructor Symmetric(d: nat)
      ensures Valid() && rows == d && cols == d && policy == Grids.Mirror
      ensures fresh(cells) && Values() == Grids.Filled(d, d, 0) && Grids.IsSymmetric(Values())
    {
      rows, cols, policy := d, d, Grids.Mirror;
      cells := new int[d, d]((_, _) => 0);
      new;
      ValuesAre(Grids.Filled(d, d, 0));
    }

    /** DiagonalMatrix(d): a d x d matrix of zeros whose writes off the
        diagonal store 0. */
    constructor Diagonal(d: nat)
      ensures Valid() && rows == d && cols == d && policy == Grids.ZeroOffDiagonal
      ensures fresh(cells) && Values() == Grids.Filled(d, d, 0) && Grids.IsDiagonal(Values())
    {
      rows, cols, policy := d, d, Grids.ZeroOffDiagonal;
      cells := new int[d, d]((_, _) => 0);
      new;
      ValuesAre(Grids.Filled(d, d, 0));
    }

    /** IdentityMatrix(d): ones on the diagonal, zeros elsewhere, and the
        write policy of DiagonalMatrix, which it inherits. */
    constructor Identity(d: nat)
      ensures Valid() && rows == d && cols == d && policy == Grids.ZeroOffDiagonal
      ensures fresh(cells) && Values() == Grids.IdentityGrid(d) && Grids.IsIdentity(Values())
    {
      rows, cols, policy := d, d, Grids.ZeroOffDiagonal;
      cells := new int[d, d]((a, b) => if a == b then 1 else 0);
      new;
      ValuesAre(Grids.IdentityGrid(d));
    }

    // -------------------------------------------------------------------
    // Single cells

    /** Matrix.get_val: cell (i, j), or DimensionError when (i, j) is not a
        cell. */
    method GetVal(i: int, j: int) returns (r: Result<int>)
      requires Valid()
      ensures r.Ok? <==> 1 <= i <= rows && 1 <= j <= cols
      ensures r.Err? ==> r.error == DimensionError
      ensures r.Ok? ==> r.value == Values()[i - 1][j - 1]
    {
      if i < 1 || i > rows || j < 1 || j > cols {
        return Err(DimensionError);
      }
      return Ok(cells[i - 1, j - 1]);
    }

    /** set_val: store v at (i, j) as the matrix's policy says; DimensionError
        and no change when (i, j) is not a cell. A mirrored write keeps a
        symmetric matrix symmetric, and a diagonal write keeps every cell
        off the diagonal 0. */
    method SetVal(i: int, j: int, v: int) returns (s: Status)
      requires Valid()
      modifies cells
      ensures s.Done? <==> 1 <= i <= rows && 1 <= j <= cols
      ensures s.Failed? ==> s.error == DimensionError && Values() == old(Values())
      ensures s.Done? ==> Values() == Grids.Write(policy, old(Values()), cols, i - 1, j - 1, v)
      ensures policy == Grids.Mirror && Grids.IsSymmetric(old(Values())) ==> Grids.IsSymmetric(Values())
      ensures policy == Grids.ZeroOffDiagonal && Grids.IsDiagonal(old(Values())) ==> Grids.IsDiagonal(Values())
    {
      if i < 1 || i > rows || j < 1 || j > cols {
        return Failed(DimensionError);
      }
      ghost var before := Values();
      match policy {
        case Plain => StorePlain(i - 1, j - 1, v);
        case Mirror =>
          StoreMirror(i - 1, j - 1, v);
          Grids.MirrorKeepsSymmetric(before, i - 1, j - 1, v);
        case ZeroOffDiagonal =>
          StoreDiagonal(i - 1, j - 1, v);
          Grids.ZeroOffDiagonalKeepsDiagonal(before, i - 1, j - 1, v);
      }
      return Done;
    }

    /** Matrix.set_val on a cell in range: v stored at (a, b). */
    method StorePlain(a: nat, b: nat, v: int)
      requires Valid() && a < rows && b < cols
      modifies cells
      ensures Values() == Grids.Set(old(Values()), a, b, v)
    {
      cells[a, b] := v;
      Grids.SetAt(old(Values()), rows, cols, a, b, v);
      ValuesAre(Grids.Set(old(Values()), a, b, v));
    }

    /** SymmetricMatrix.set_val on a cell in range: v stored at (a, b) and
        at (b, a). */
    method StoreMirror(a: nat, b: nat, v: int)
      requires Valid() && rows == cols && a < rows && b < cols
      modifies cells
      ensures Values() == Grids.Write(Grids.Mirror, old(Values()), cols, a, b, v)
    {
      cells[a, b] := v;
      cells[b, a] := v;
      Grids.MirrorKeepsSymmetric(old(Values()), a, b, v);
      ValuesAre(Grids.Write(Grids.Mirror, old(Values()), cols, a, b, v));
    }

    /** DiagonalMatrix.set_val on a cell in range: v stored on the diagonal,
        0 off it. */
    method StoreDiagonal(a: nat, b: nat, v: int)
      requires Valid() && rows == cols && a < rows && b < cols
      modifies cells
      ensures Values() == Grids.Write(Grids.ZeroOffDiagonal, old(Values()), cols, a, b, v)
    {
      cells[a, b] := if a == b then v else 0;
      Grids.ZeroOffDiagonalKeepsDiagonal(old(Values()), a, b, v);
      ValuesAre(Grids.Write(Grids.ZeroOffDiagonal, old(Values()), cols, a, b, v));
    }

    /** OneDimensionalMatrix.get_item: get_val(1, i). */
    method GetItem(i: int) returns (r: Result<int>)
      requires Valid()
      ensures r.Ok? <==> 1 <= rows && 1 <= i <= cols
      ensures r.Err? ==> r.error == DimensionError
      ensures r.Ok? ==> r.value == Values()[0][i - 1]
    {
      r := GetVal(1, i);
    }

    /** OneDimensionalMatrix.set_item: set_val(1, i, v). */
    method SetItem(i: int, v: int) returns (s: Status)
      requires Valid()
      modifies cells
      ensures s.Done? <==> 1 <= rows && 1 <= i <= cols
      ensures s.Failed? ==> s.error == DimensionError && Values() == old(Values())
      ensures s.Done? ==> Values() == Grids.Write(policy, old(Values()), cols, 0, i - 1, v)
    {
      s := SetVal(1, i, v);
    }

    // -------------------------------------------------------------------
    // Rows and columns

    /** get_row: a fresh 1 x cols vector holding row i. */
    method GetRow(i: int) returns (r: Result<Matrix>)
      requires Valid()
      ensures r.Ok? <==> 1 <= i <= rows
      ensures r.Err? ==> r.error == DimensionError
      ensures r.Ok? ==> fresh(r.value) && fresh(r.value.cells) && r.value.Valid()
      ensures r.Ok? ==> r.value.rows == 1 && r.value.cols == cols && r.value.policy == Grids.Plain
      ensures r.Ok? ==> r.value.Values() == [Grids.Row(Values(), i - 1)]
    {
      if i < 1 || i > rows {
        return Err(DimensionError);
      }
      var row := new Matrix.OneDimensional(cols);
      for b := 0 to cols
        invariant forall c :: 0 <= c < b ==> row.cells[0, c] == cells[i - 1, c]
      {
        row.cells[0, b] := cells[i - 1, b];
      }
      row.ValuesAre([Grids.Row(Values(), i - 1)]);
      return Ok(row);
    }

    /** set_row: cell (i, k) gets item k of v for every column k. It fails,
        changing nothing, when i is not a row or v has too few items. */
    method SetRow(i: int, v: Matrix) returns (s: Status)
      requires Valid() && v.Valid()
      modifies cells
      ensures s.Done? <==> 1 <= i <= rows && Supplies(v, cols)
      ensures s.Failed? ==> s.error == DimensionError && Values() == old(Values())
      ensures s.Done? ==> Values() == Grids.WithRow(old(Values()), i - 1, Leading(old(v.Values()), cols))
    {
      if i < 1 || i > rows || !Supplies(v, cols) {
        return Failed(DimensionError);
      }
      ghost var items := Leading(v.Values(), cols);
      for b := 0 to cols
        invariant forall x, y :: 0 <= x < rows && 0 <= y < cols ==>
          cells[x, y] == if x == i - 1 && y < b then items[y] else old(cells[x, y])
        invariant forall y :: b <= y < cols ==> v.cells[0, y] == items[y]
      {
        cells[i - 1, b] := v.cells[0, b];
      }
      ValuesAre(Grids.WithRow(old(Values()), i - 1, items));
      return Done;
    }

    /** get_col: a fresh 1 x rows vector holding column j. */
    method GetCol(j: int) returns (r: Result<Matrix>)
      requires Valid()
      ensures r.Ok? <==> 1 <= j <= cols
      ensures r.Err? ==> r.error == DimensionError
      ensures r.Ok? ==> fresh(r.value) && fresh(r.value.cells) && r.value.Valid()
      ensures r.Ok? ==> r.value.rows == 1 && r.value.cols == rows && r.value.policy == Grids.Plain
      ensures r.Ok? ==> r.value.Values() == [Grids.Col(Values(), cols, j - 1)]
    {
      if j < 1 || j > cols {
        return Err(DimensionError);
      }
      var col := new Matrix.OneDimensional(rows);
      for a := 0 to rows
        invariant forall c :: 0 <= c < a ==> col.cells[0, c] == cells[c, j - 1]
      {
        col.cells[0, a] := cells[a, j - 1];
      }
      col.ValuesAre([Grids.Col(Values(), cols, j - 1)]);
      return Ok(col);
    }

    /** set_col: cell (k, j) gets item k of v for every row k. It fails,
        changing nothing, when j is not a column or v has too few items. */
    method SetCol(j: int, v: Matrix) returns (s: Status)
      requires Valid() && v.Valid() && v.cells != cells
      modifies cells
      ensures s.Done? <==> 1 <= j <= cols && Supplies(v, rows)
      ensures s.Failed? ==> s.error == DimensionError && Values() == old(Values())
      ensures s.Done? ==> Values() == Grids.WithCol(old(Values()), cols, j - 1, Leading(old(v.Values()), rows))
    {
      if j < 1 || j > cols || !Supplies(v, rows) {
        return Failed(DimensionError);
      }
      ghost var items := Leading(v.Values(), rows);
      for a := 0 to rows
        invariant forall x, y :: 0 <= x < rows && 0 <= y < cols ==>
          cells[x, y] == if y == j - 1 && x < a then items[x] else old(cells[x, y])
        invariant forall x :: a <= x < rows ==> v.cells[0, x] == items[x]
      {
        cells[a, j - 1] := v.cells[0, a];
      }
      ValuesAre(Grids.WithCol(old(Values()), cols, j - 1, items));
      return Done;
    }

    /** swap_rows: save row i, write row j into row i, then the saved row
        into row j. */
    method SwapRows(i: int, j: int) returns (s: Status)
      requires Valid()
      modifies cells
      ensures s.Done? <==> 1 <= i <= rows && 1 <= j <= rows
      ensures s.Failed? ==> s.error == DimensionError && Values() == old(Values())
      ensures s.Done? ==> Values() == Grids.SwapRows(old(Values()), i - 1, j - 1)
    {
      var saved := GetRow(i);
      if saved.Err? {
        return Failed(saved.error);
      }
      var other := GetRow(j);
      if other.Err? {
        return Failed(other.error);
      }
      ghost var g := Values();
      assert Leading(other.value.Values(), cols) == g[j - 1];
      s := SetRow(i, other.value);
      assert Leading(saved.value.Values(), cols) == g[i - 1];
      s := SetRow(j, saved.value);
    }

    /** swap_cols: save column i, write column j into column i, then the
        saved column into column j. */
    method SwapCols(i: int, j: int) returns (s: Status)
      requires Valid()
      modifies cells
      ensures s.Done? <==> 1 <= i <= cols && 1 <= j <= cols
      ensures s.Failed? ==> s.error == DimensionError && Values() == old(Values())
      ensures s.Done? ==> Values() == Grids.SwapCols(old(Values()), cols, i - 1, j - 1)
    {
      var saved := GetCol(i);
      if saved.Err? {
        return Failed(saved.error);
      }
      var other := GetCol(j);
      if other.Err? {
        return Failed(other.error);
      }
      ghost var g := Values();
      assert Leading(other.value.Values(), rows) == Grids.Col(g, cols, j - 1);
      s := SetCol(i, other.value);
      assert Leading(saved.value.Values(), rows) == Grids.Col(g, cols, i - 1);
      s := SetCol(j, saved.value);
    }

    // -------------------------------------------------------------------
    // Every cell at once

    /** The loop the three scalar operations share: every cell, row by row,
        replaced by f of its value. */
    method UpdateEach(f: int -> int)
      requires Valid()
      modifies cells
      ensures forall x, y :: 0 <= x < rows && 0 <= y < cols ==> cells[x, y] == f(old(cells[x, y]))
    {
      for a := 0 to rows
        invariant forall x, y :: 0 <= x < rows && 0 <= y < cols ==>
          cells[x, y] == if x < a then f(old(cells[x, y])) else old(cells[x, y])
      {
        for b := 0 to cols
          invariant forall x, y :: 0 <= x < rows && 0 <= y < cols ==>
            cells[x, y] == if x < a || (x == a && y < b) then f(old(cells[x, y])) else old(cells[x, y])
        {
          cells[a, b] := f(cells[a, b]);
        }
      }
    }

    /** add_scalar: every cell increased by v. */
    method AddScalar(v: int)
      requires Valid()
      modifies cells
      ensures Values() == Grids.AddScalar(old(Values()), v)
    {
      UpdateEach(x => x + v);
      ValuesAre(Grids.AddScalar(old(Values()), v));
    }

    /** subtract_scalar: every cell decreased by v. */
    method SubtractScalar(v: int)
      requires Valid()
      modifies cells
      ensures Values() == Grids.SubtractScalar(old(Values()), v)
    {
      UpdateEach(x => x - v);
      ValuesAre(Grids.SubtractScalar(old(Values()), v));
    }

    /** multiply_scalar: every cell multiplied by v. */
    method MultiplyScalar(v: int)
      requires Valid()
      modifies cells
      ensures Values() == Grids.MultiplyScalar(old(Values()), v)
    {
      UpdateEach(x => x * v);
      ValuesAre(Grids.MultiplyScalar(old(Values()), v));
    }

    /** The walk over other in add_matrix and multiply_matrix stays on other's
        lattice: it steps down once per row of this matrix, and right once
        per column in each row. With no columns, only the step below the
        last row of other is harmless. */
    predicate Reaches(other: Matrix) {
      rows == 0 || (if cols == 0 then rows <= other.rows + 1 else rows <= other.rows && cols <= other.cols)
    }

    /** The loop add_matrix and multiply_matrix share: each cell of this
        matrix replaced by f of its value and the value in the same place
        in other, which may be this matrix. */
    method CombineEach(other: Matrix, f: (int, int) -> int)
      requires Valid() && other.Valid() && Reaches(other)
      modifies cells
      ensures Grids.Covers(old(other.Values()), old(Values()))
      ensures Values() == Grids.Combine(old(Values()), old(other.Values()), f)
    {
      ghost var g := Values();
      ghost var h := other.Values();
      for a := 0 to rows
        invariant forall x, y :: 0 <= x < rows && 0 <= y < cols ==>
          cells[x, y] == if x < a then f(g[x][y], h[x][y]) else g[x][y]
        invariant forall x, y :: a <= x < rows && 0 <= y < cols ==> other.cells[x, y] == h[x][y]
      {
        for b := 0 to cols
          invariant forall x, y :: 0 <= x < rows && 0 <= y < cols ==>
            cells[x, y] == if x < a || (x == a && y < b) then f(g[x][y], h[x][y]) else g[x][y]
          invariant forall x, y :: 0 <= x < rows && 0 <= y < cols && (x > a || (x == a && y >= b)) ==>
            other.cells[x, y] == h[x][y]
        {
          cells[a, b] := f(cells[a, b], other.cells[a, b]);
        }
      }
      ValuesAre(Grids.Combine(g, h, f));
    }

    /** add_matrix: every cell increased, in place, by the cell in the same
        place in other. Walking off other's lattice raises before the
        first write in this model, part way through the loop in the code. */
    method AddMatrix(other: Matrix) returns (s: Status)
      requires Valid() && other.Valid()
      modifies cells
      ensures s.Done? <==> Reaches(other)
      ensures s.Failed? ==> s.error == FellOffLattice && Values() == old(Values())
      ensures s.Done? ==> Grids.Covers(old(other.Values()), old(Values()))
      ensures s.Done? ==> Values() == Grids.AddCells(old(Values()), old(other.Values()))
    {
      if !Reaches(other) {
        return Failed(FellOffLattice);
      }
      CombineEach(other, (x, y) => x + y);
      ValuesAre(Grids.AddCells(old(Values()), old(other.Values())));
      return Done;
    }

    /** multiply_matrix as written: every cell multiplied, in place, by the
        cell in the same place in other. */
    method MultiplyMatrixAsWritten(other: Matrix) returns (s: Status)
      requires Valid() && other.Valid()
      modifies cells
      ensures s.Done? <==> Reaches(other)
      ensures s.Failed? ==> s.error == FellOffLattice && Values() == old(Values())
      ensures s.Done? ==> Grids.Covers(old(other.Values()), old(Values()))
      ensures s.Done? ==> Values() == Grids.MultiplyCells(old(Values()), old(other.Values()))
    {
      if !Reaches(other) {
        return Failed(FellOffLattice);
      }
      CombineEach(other, (x, y) => x * y);
      ValuesAre(Grids.MultiplyCells(old(Values()), old(other.Values())));
      return Done;
    }

    /** multiply_matrix as documented: a fresh matrix holding the product of
        this matrix and other, or DimensionError when the number of columns
        of this matrix is not the number of rows of other. */
    method MultiplyMatrix(other: Matrix) returns (r: Result<Matrix>)
      requires Valid() && other.Valid()
      ensures r.Ok? <==> cols == other.rows
      ensures r.Err? ==> r.error == DimensionError
      ensures r.Ok? ==> fresh(r.value) && fresh(r.value.cells) && r.value.Valid()
      ensures r.Ok? ==> r.value.rows == rows && r.value.cols == other.cols && r.value.policy == Grids.Plain
      ensures r.Ok? ==> r.value.Values() == Grids.Product(Values(), other.Values(), cols, other.cols)
    {
      if cols != other.rows {
        return Err(DimensionError);
      }
      ghost var g := Values();
      ghost var h := other.Values();
      var product := new Matrix(rows, other.cols, 0);
      for a := 0 to rows
        invariant forall x, y :: 0 <= x < a && 0 <= y < other.cols ==>
          product.cells[x, y] == Grids.Dot(g[x], Grids.Col(h, other.cols, y))
      {
        ProductRow(other, product, a);
      }
      product.ValuesAre(Grids.Product(g, h, cols, other.cols));
      return Ok(product);
    }

    /** Row a of the product: cell (a, b) of product gets row a of this matrix
        times column b of other. */
    method ProductRow(other: Matrix, product: Matrix, a: nat)
      requires Valid() && other.Valid() && product.Valid()
      requires cols == other.rows && a < rows && product.rows == rows && product.cols == other.cols
      requires product.cells != cells && product.cells != other.cells
      modifies product.cells
      ensures forall x, y :: 0 <= x < rows && 0 <= y < other.cols ==>
        product.cells[x, y] == if x == a then Grids.Dot(Values()[x], Grids.Col(other.Values(), other.cols, y))
                               else old(product.cells[x, y])
    {
      for b := 0 to other.cols
        invariant forall x, y :: 0 <= x < rows && 0 <= y < other.cols ==>
          product.cells[x, y] == if x == a && y < b then Grids.Dot(Values()[x], Grids.Col(other.Values(), other.cols, y))
                                 else old(product.cells[x, y])
      {
        product.cells[a, b] := DotAt(other, a, b);
      }
    }

    /** Row a of this matrix times column b of other, summed term by term. */
    method DotAt(other: Matrix, a: nat, b: nat) returns (sum: int)
      requires Valid() && other.Valid() && cols == other.rows && a < rows && b < other.cols
      ensures sum == Grids.Dot(Values()[a], Grids.Col(other.Values(), other.cols, b))
    {
      ghost var row := Values()[a];
      ghost var column := Grids.Col(other.Values(), other.cols, b);
      sum := 0;
      for t := 0 to cols
        invariant sum == Grids.Dot(row[..t], column[..t])
      {
        Grids.DotStep(row, column, t);
        sum := sum + cells[a, t] * other.cells[t, b];
      }
      assert row[..cols] == row && column[..cols] == column;
    }

    // -------------------------------------------------------------------
    // SquareMatrix

    /** SquareMatrix.transpose: copy every row into a fresh square matrix,
        then write row k of the copy into column k. */
    method Transpose()
      requires Valid() && rows == cols
      modifies cells
      ensures Values() == Grids.Transpose(old(Values()), cols)
    {
      ghost var g := Values();
      var temp := new Matrix.Square(rows);
      temp.CopyRowsOf(this);
      Grids.TransposeByRows(g, rows);
      RowsIntoCols(temp);
    }

    /** The first loop of transpose: row k of src written into row k of this
        matrix, for every k. */
    method CopyRowsOf(src: Matrix)
      requires Valid() && src.Valid() && src.cells != cells
      requires src.rows == rows && src.cols == cols
      modifies cells
      ensures Values() == Grids.CopyRows(old(Values()), src.Values(), rows)
    {
      ghost var g := src.Values();
      for k := 0 to rows
        invariant src.Values() == g
        invariant Values() == Grids.CopyRows(old(Values()), g, k)
      {
        CopyRowOf(src, k);
      }
    }

    /** One turn of the first loop of transpose: set_row(k, get_row(k)). */
    method CopyRowOf(src: Matrix, k: nat)
      requires Valid() && src.Valid() && src.cells != cells
      requires src.rows == rows && src.cols == cols && k < rows
      modifies cells
      ensures Values() == Grids.WithRow(old(Values()), k, Grids.Row(src.Values(), k))
    {
      var row := src.GetRow(k + 1);
      assert Leading(row.value.Values(), cols) == Grids.Row(src.Values(), k);
      var done := SetRow(k + 1, row.value);
    }

    /** The second loop of transpose: row k of src written into column k of
        this matrix, for every k. */
    method RowsIntoCols(src: Matrix)
      requires Valid() && src.Valid() && src.cells != cells
      requires rows == cols && src.rows == rows && src.cols == cols
      modifies cells
      ensures Values() == Grids.RowsToCols(old(Values()), cols, src.Values(), cols)
    {
      ghost var g := src.Values();
      for k := 0 to cols
        invariant src.Values() == g
        invariant Values() == Grids.RowsToCols(old(Values()), cols, g, k)
      {
        RowIntoCol(src, k);
      }
    }

    /** One turn of the second loop of transpose: set_col(k, get_row(k)). */
    method RowIntoCol(src: Matrix, k: nat)
      requires Valid() && src.Valid() && src.cells != cells
      requires rows == cols && src.rows == rows && src.cols == cols && k < cols
      modifies cells
      ensures Values() == Grids.WithCol(old(Values()), cols, k, Grids.Row(src.Values(), k))
    {
      var row := src.GetRow(k + 1);
      assert Leading(row.value.Values(), rows) == Grids.Row(src.Values(), k);
      var done := SetCol(k + 1, row.value);
    }

    /** SquareMatrix.get_diagonal: a fresh vector holding cell (k, k) as
        item k. */
    method GetDiagonal() returns (d: Matrix)
      requires Valid() && rows == cols
      ensures fresh(d) && fresh(d.cells) && d.Valid() && d.rows == 1 && d.cols == rows && d.policy == Grids.Plain
      ensures d.Values() == [Grids.Diagonal(Values())]
    {
      d := new Matrix.OneDimensional(rows);
      for k := 0 to rows
        invariant forall c :: 0 <= c < k ==> d.cells[0, c] == cells[c, c]
      {
        d.cells[0, k] := cells[k, k];
      }
      d.ValuesAre([Grids.Diagonal(Values())]);
    }

    /** SquareMatrix.set_diagonal: set_val(k, k, item k of d) for every k. On
        the diagonal every write policy stores the item as given. Fails,
        changing nothing, when d has too few items or no row at all (the
        loop's first turn reads item 0, in row 1 of d, even when there is
        no diagonal). */
    method SetDiagonal(d: Matrix) returns (s: Status)
      requires Valid() && rows == cols && d.Valid()
      modifies cells
      ensures s.Done? <==> 1 <= d.rows && rows <= d.cols
      ensures s.Failed? ==> s.error == DimensionError && Values() == old(Values())
      ensures s.Done? ==> Values() == Grids.WithDiagonal(old(Values()), Leading(old(d.Values()), rows))
    {
      if d.rows < 1 || d.cols < rows {
        return Failed(DimensionError);
      }
      ghost var items := Leading(d.Values(), rows);
      for k := 0 to rows
        invariant forall x, y :: 0 <= x < rows && 0 <= y < rows ==>
          cells[x, y] == if x == y && x < k then items[x] else old(cells[x, y])
        invariant forall y :: k <= y < rows ==> d.cells[0, y] == items[y]
      {
        ghost var before := Values();
        Grids.WriteOnDiagonal(policy, before, k, d.cells[0, k]);
        s := SetVal(k + 1, k + 1, d.cells[0, k]);
        Grids.SetAt(before, rows, rows, k, k, items[k]);
      }
      ValuesAre(Grids.WithDiagonal(old(Values()), items));
      return Done;
    }
  }
}

# Matrix library on a linked lattice

The library keeps an m x n matrix as an (m + 1) x (n + 1) lattice of
`MatrixNode`s: a head node, a marker node for every row (chained down from the
head) and for every column (chained right from the head), and one node per
cell, each linked to its right and lower neighbour. Every accessor starts at
the head, walks down i times and right j times, and reads or writes the node
it lands on, so rows and columns are counted from 1. `OneDimensionalMatrix`
is a 1 x n matrix read through `get_item`/`set_item`; `SquareMatrix` adds
`transpose`, `get_diagonal` and `set_diagonal`; `SymmetricMatrix`,
`DiagonalMatrix` and `IdentityMatrix` change how `set_val` stores a value.

The model has four modules.

- `Errors` (errors.dfy): the two ways an operation fails, `DimensionError`
  (the library's `MatrixDimensionError`) and `FellOffLattice` (the
  `AttributeError` Python raises when a walk leaves the lattice and a method
  is called on `None`), and the `Result`/`Status`/`Option` wrappers.
- `Grids` (grids.dfy): a matrix as a sequence of rows, 0-based, with one
  function per operation and the lemmas that relate them (round trips,
  involutions, laws of the scalar and cell-by-cell operations, the product
  with the identity). The as-written variants of `transpose`, the
  `IdentityMatrix` constructor and `multiply_matrix` live here too.
- `Lattice` (lattice.dfy): the node lattice itself. Nodes are numbers and the
  `right`, `down` and `contents` fields of all nodes are three maps.
  `Build` runs the constructor's three loops and is proved to produce a
  lattice in which walking down-then-right and right-then-down meet on one
  node per position, distinct positions have distinct nodes, and every node
  holds its initial contents. `get_val`, `set_val` and `get_col` are modelled
  here exactly as written, with their guards, to state what they do on the
  positions the guards let through.
- `Matrices` (matrix.dfy): class `Matrix`, with its cells in an `array2<int>`
  and one method per method of the library. The subclasses are named
  constructors; the variant's `set_val` is the `policy` field: `Plain`,
  `Mirror` (SymmetricMatrix) or `ZeroOffDiagonal` (DiagonalMatrix and
  IdentityMatrix). Every method is proved against the `Grids` function it
  names in its `ensures`: that clause gives the new cells, or the fresh
  matrix it returns, as the function of the old cells, and says when the
  method fails (see Left out for the failures of a method the library's
  class lacks).
  Where the library is wrong (see Findings), the class models the evidently
  intended behaviour and the as-written behaviour is modelled beside it.

## Model

| member | source | states |
|---|---|---|
| Grids.Filled | a1/student1/a1p2/a1.py:76-79 | an m x n grid with every cell equal to the given value |
| Grids.SetAt | a1/student1/a1p2/a1.py:144-162 | a write to (i, j) makes (i, j) read back the value and leaves every other cell and the shape unchanged |
| Grids.SetOverwrite | a1/student1/a1p2/a1.py:144-162 | writing the same cell twice leaves only the second value |
| Grids.CopyRowInto | a1/student1/a1p2/a1.py:165-211 | writing row k into row i makes row i equal row k and changes no other row; writing a row back into itself changes nothing |
| Grids.CopyColInto | a1/student1/a1p2/a1.py:213-260 | writing column k into column j changes exactly column j to column k; writing a column back into itself changes nothing |
| Grids.SwapRowsAt | a1/student1/a1p2/a1.py:262-268 | after swap_rows(i, j) row i holds old row j, row j holds old row i, other rows are unchanged |
| Grids.SwapRowsInvolutive | a1/student1/a1p2/a1.py:262-268 | swapping a row with itself changes nothing, and swapping twice restores the matrix |
| Grids.SwapColsAt | a1/student1/a1p2/a1.py:270-276 | after swap_cols(i, j) column i holds old column j, column j holds old column i, other columns are unchanged |
| Grids.SwapColsInvolutive | a1/student1/a1p2/a1.py:270-276 | swapping a column with itself changes nothing, and swapping twice restores the matrix |
| Grids.AddThenSubtractScalar | a1/student1/a1p2/a1.py:278-316 | subtract_scalar(v) after add_scalar(v) restores every cell |
| Grids.AddCellsLaws | a1/student1/a1p2/a1.py:338-363 | adding matrices cell by cell is commutative, and adding a matrix filled with v is add_scalar(v) |
| Grids.ProductWithIdentity | a1/student1/a1p2/a1.py:365-368 | the matrix product with the identity of matching size is the matrix itself |
| Grids.ElementwiseIsNotProduct | a1/student1/a1p2/a1.py:365-389 | on [[1,2],[3,4]] and [[5,6],[7,8]] the cell-by-cell loop gives [[5,12],[21,32]] while the product is [[19,22],[43,50]] |
| Grids.CopyRowsAt | a1/student1/a1p2/a1.py:426-429 | after copying the first k rows of one grid into another, rows below k are from the source and the rest are unchanged |
| Grids.RowsToColsAt | a1/student1/a1p2/a1.py:431-434 | after writing rows 0 .. k-1 of a grid into the matching columns, cell (a, b) is source (b, a) for b < k and unchanged otherwise |
| Grids.TransposeByRows | a1/student1/a1p2/a1.py:422-434 | copying all rows into a fresh square grid and then every row of the copy into the matching column yields the transpose |
| Grids.TransposeInvolutive | a1/student1/a1p2/a1.py:422-425 | transposing twice restores the matrix |
| Grids.TransposeAsWritten | a1/student1/a1p2/a1.py:422-434 | the as-written transpose of an s x s grid holds g[b][a] at (a, b) for every column b but the last, and 0 in the whole last column |
| Grids.TransposeAsWrittenLosesLastRow | a1/student1/a1p2/a1.py:426-434 | the as-written transpose puts 0 in the whole last column, and agrees with the transpose exactly when the last row is all zeros |
| Grids.DiagonalRoundTrip | a1/student1/a1p2/a1.py:436-458 | get_diagonal after set_diagonal(d) gives d, set_diagonal changes no cell off the diagonal, and setting the diagonal one already has changes nothing |
| Grids.Write | a1/student1/a1p2/a1.py:144-162 | a write through set_val keeps the shape and stores v at (i, j), or 0 there off the diagonal for DiagonalMatrix, and for SymmetricMatrix v at (j, i) as well |
| Grids.MirrorKeepsSymmetric | a1/student1/a1p2/a1.py:461-469 | a SymmetricMatrix write stores v at (i, j) and (j, i), changes nothing else, and keeps a symmetric matrix symmetric |
| Grids.ZeroOffDiagonalKeepsDiagonal | a1/student1/a1p2/a1.py:472-485 | a DiagonalMatrix write stores v on the diagonal and 0 off it, changes nothing else, and keeps a diagonal matrix diagonal |
| Grids.WriteOnDiagonal | a1/student1/a1p2/a1.py:450-458 | on a diagonal cell every variant's set_val stores the value as given, so set_diagonal means the same on all of them |
| Grids.IdentityKept | a1/student1/a1p2/a1.py:488-509 | the identity is symmetric and diagonal, and a DiagonalMatrix write that keeps 1 on the diagonal leaves it the identity |
| Grids.SetItemsToOneAt | a1/student1/a1p2/a1.py:494-496 | the constructor's loop sets items 1 .. d-1 of the vector to 1 and leaves item d at 0 (its first call writes the row marker) |
| Grids.WriteEachKeepsLast | a1/student1/a1p2/a1.py:500-509 | writing a list of values to the one cell (d, d) leaves only the last value |
| Grids.IdentityAsWritten | a1/student1/a1p2/a1.py:488-509 | the cells the two loops of the IdentityMatrix constructor would leave on a d x d lattice with a working set_val: a d x d grid |
| Grids.IdentityAsWrittenIsZero | a1/student1/a1p2/a1.py:488-509 | the two loops of the IdentityMatrix constructor, run on a d x d lattice with a working set_val, leave every cell 0, which for d >= 1 is not the identity |
| Lattice.Build | a1/student1/a1p2/a1.py:76-120 | the constructor yields a lattice whose two walks meet on one distinct node per position, with row and column markers numbered from 0, the head empty, and every cell 0 whatever the default |
| Lattice.ChainRowMarkers | a1/student1/a1p2/a1.py:89-94 | the first loop makes the head and m row markers, each below the one before |
| Lattice.ChainColumnMarkers | a1/student1/a1p2/a1.py:96-101 | the second loop makes n column markers, each right of the one before |
| Lattice.FillCells | a1/student1/a1p2/a1.py:103-120 | the third loop makes every cell and links it right of its left neighbour and below its upper neighbour |
| Lattice.FillRow | a1/student1/a1p2/a1.py:106-119 | one turn of the outer third loop makes the cells of one row with dlinker on the row and ulinker on the row above |
| Lattice.StepCell | a1/student1/a1p2/a1.py:111-119 | a turn of the inner loop adds one node linked to exactly its left and upper neighbours |
| Lattice.WalksReach | a1/student1/a1p2/a1.py:76-120 | the finished lattice is linked and holds its initial contents |
| Lattice.Read | a1/student1/a1p2/a1.py:139-141 | reading succeeds exactly when the walk ended on a node |
| Lattice.GetValAsWritten | a1/student1/a1p2/a1.py:122-141 | get_val as written raises the dimension error exactly when i > rows or j > cols, with no lower bound, and otherwise reads the node the down-then-right walk ends on |
| Lattice.SetValAsWritten | a1/student1/a1p2/a1.py:144-162 | set_val as written raises the dimension error exactly when i > rows or j > cols, changes no link, and makes get_val(i, j) read the new value |
| Lattice.ReadDown | a1/student1/a1p2/a1.py:232-234 | the column loop of get_col yields one value per step, and fails only by walking off the lattice |
| Lattice.GetColAsWritten | a1/student1/a1p2/a1.py:213-239 | get_col as written raises the dimension error exactly when j exceeds the number of rows, and otherwise yields one value per row or walks off the lattice |
| Lattice.GetAfterSetAsWritten | a1/student1/a1p2/a1.py:122-162 | on a built lattice, set_val(i, j, v) succeeds, get_val(i, j) then gives v, and every other position reads as before |
| Lattice.RowZeroReachesMarker | a1/student1/a1p2/a1.py:122-162 | with row 0 or less the guard passes, get_val reads the marker of column j, and set_val reports success while no cell changes |
| Lattice.ReadDownColumn | a1/student1/a1p2/a1.py:232-234 | reading down count times from a node of column j yields the next count nodes of column j |
| Lattice.GetColWalksColumn | a1/student1/a1p2/a1.py:213-239 | get_col(j) for a column that is also a valid row number yields the m cells of column j |
| Lattice.ColGuardRejectsLastColumn | a1/student1/a1p2/a1.py:219-220 | in a matrix with more columns than rows, get_col raises the dimension error on existing columns past the row count |
| Lattice.ColGuardWalksOffLattice | a1/student1/a1p2/a1.py:219-234 | in a matrix with more rows than columns, get_col of a missing column passes the guard and walks off the lattice |
| Matrices.Matrix.constructor | a1/student1/a1p2/a1.py:76-79 | a fresh m x n matrix with every cell equal to default |
| Matrices.Matrix.OneDimensional | a1/student1/a1p2/a1.py:392-396 | a fresh 1 x n vector of zeros |
| Matrices.Matrix.Square | a1/student1/a1p2/a1.py:414-420 | a fresh d x d matrix of zeros |
| Matrices.Matrix.Symmetric | a1/student1/a1p2/a1.py:461-469 | a fresh d x d matrix of zeros that is symmetric and mirrors its writes |
| Matrices.Matrix.Diagonal | a1/student1/a1p2/a1.py:472-485 | a fresh d x d matrix of zeros that is diagonal and stores 0 off the diagonal |
| Matrices.Matrix.Identity | a1/student1/a1p2/a1.py:488-498 | a fresh d x d identity matrix with the DiagonalMatrix write policy |
| Matrices.Matrix.GetVal | a1/student1/a1p2/a1.py:122-141 | get_val(i, j) returns cell (i, j) exactly when 1 <= i <= rows and 1 <= j <= cols, and the dimension error otherwise |
| Matrices.Matrix.SetVal | a1/student1/a1p2/a1.py:144-162 | set_val stores v as the variant's write says exactly when (i, j) is a cell, keeps a symmetric matrix symmetric and a diagonal one diagonal, and fails with no change otherwise |
| Matrices.Matrix.StorePlain | a1/student1/a1p2/a1.py:153-161 | the write of Matrix.set_val changes exactly cell (i, j) |
| Matrices.Matrix.StoreMirror | a1/student1/a1p2/a1.py:464-469 | the write of SymmetricMatrix.set_val changes cells (i, j) and (j, i) |
| Matrices.Matrix.StoreDiagonal | a1/student1/a1p2/a1.py:478-485 | the write of DiagonalMatrix.set_val stores v on the diagonal and 0 off it |
| Matrices.Matrix.GetItem | a1/student1/a1p2/a1.py:398-404 | get_item(i) is item i of the first row, or the dimension error when there is none |
| Matrices.Matrix.SetItem | a1/student1/a1p2/a1.py:406-411 | set_item(i, v) is set_val(1, i, v) |
| Matrices.Matrix.GetRow | a1/student1/a1p2/a1.py:165-191 | get_row(i) returns a fresh 1 x cols vector equal to row i, or the dimension error when there is no row i |
| Matrices.Matrix.SetRow | a1/student1/a1p2/a1.py:193-211 | set_row(i, v) replaces row i by the first cols items of v, and fails with no change when there is no row i or v is short |
| Matrices.Matrix.GetCol | a1/student1/a1p2/a1.py:213-239 | get_col(j) returns a fresh vector equal to column j, or the dimension error when there is no column j |
| Matrices.Matrix.SetCol | a1/student1/a1p2/a1.py:241-260 | set_col(j, v) replaces column j by the first rows items of v, and fails with no change when there is no column j or v is short |
| Matrices.Matrix.SwapRows | a1/student1/a1p2/a1.py:262-268 | swap_rows(i, j) exchanges rows i and j when both exist, and fails with no change otherwise |
| Matrices.Matrix.SwapCols | a1/student1/a1p2/a1.py:270-276 | swap_cols(i, j) exchanges columns i and j when both exist, and fails with no change otherwise |
| Matrices.Matrix.UpdateEach | a1/student1/a1p2/a1.py:286-295 | the row-by-row walk of the scalar operations replaces every cell by f of its old value |
| Matrices.Matrix.AddScalar | a1/student1/a1p2/a1.py:278-295 | every cell increases by v |
| Matrices.Matrix.SubtractScalar | a1/student1/a1p2/a1.py:298-316 | every cell decreases by v |
| Matrices.Matrix.MultiplyScalar | a1/student1/a1p2/a1.py:318-336 | every cell is multiplied by v |
| Matrices.Matrix.CombineEach | a1/student1/a1p2/a1.py:350-363 | the paired walk replaces every cell by f of it and the cell in the same place of the other matrix, also when the other matrix is this one |
| Matrices.Matrix.AddMatrix | a1/student1/a1p2/a1.py:338-363 | add_matrix adds the other matrix cell by cell in place when its walk stays on the other lattice, and fails otherwise |
| Matrices.Matrix.MultiplyMatrixAsWritten | a1/student1/a1p2/a1.py:365-389 | multiply_matrix as written multiplies cell by cell in place when its walk stays on the other lattice, and fails otherwise |
| Matrices.Matrix.MultiplyMatrix | a1/student1/a1p2/a1.py:365-368 | the product of the two matrices as a fresh matrix exactly when the columns of this match the rows of the other, and the dimension error otherwise |
| Matrices.Matrix.ProductRow | a1/student1/a1p2/a1.py:365-368 | fills row a of the product and changes no other row |
| Matrices.Matrix.DotAt | a1/student1/a1p2/a1.py:365-368 | the sum of products of row a and column b |
| Matrices.Matrix.Transpose | a1/student1/a1p2/a1.py:422-434 | transpose replaces the matrix by its transpose |
| Matrices.Matrix.CopyRowsOf | a1/student1/a1p2/a1.py:426-429 | the first loop of transpose copies every row into the fresh matrix |
| Matrices.Matrix.CopyRowOf | a1/student1/a1p2/a1.py:429 | set_row(k, get_row(k)) between two matrices of one shape replaces row k of the target by row k of the source |
| Matrices.Matrix.RowIntoCol | a1/student1/a1p2/a1.py:433-434 | set_col(k, get_row(k)) replaces column k of the target by row k of the source |
| Matrices.Matrix.RowsIntoCols | a1/student1/a1p2/a1.py:431-434 | the second loop of transpose writes row k of the copy into column k for every k |
| Matrices.Matrix.GetDiagonal | a1/student1/a1p2/a1.py:436-448 | get_diagonal returns a fresh vector whose item k is cell (k, k) |
| Matrices.Matrix.SetDiagonal | a1/student1/a1p2/a1.py:450-458 | set_diagonal(d) puts item k of d at (k, k) for every k and changes nothing else, and fails with no change when d has no row or too few items |

## Left out

- Partial writes: `set_row`, `set_col`, `set_diagonal`, `add_matrix` and
  `multiply_matrix` raise part way through their loop, after some cells have
  been written, when the vector is short or the other matrix small. The
  model checks the same condition first and then changes nothing.
- Matrices.Matrix.SetCol: requires the vector not to share its cells with the
  matrix; `set_col(j, m)` with `m` itself reads items the loop has already
  overwritten, and that interleaving is not modelled.
- Matrices.Matrix.GetVal, Matrices.Matrix.SetVal, Matrices.Matrix.GetItem,
  Matrices.Matrix.SetItem, Matrices.Matrix.GetRow, Matrices.Matrix.SetRow,
  Matrices.Matrix.GetCol, Matrices.Matrix.SetCol, Matrices.Matrix.SwapRows,
  Matrices.Matrix.SwapCols: reject indices below 1; the library lets them
  through (see Findings), and what it then does is modelled only for
  `get_val`/`set_val` (`Lattice.RowZeroReachesMarker`) and for the
  `set_item(0, 1)` call of the IdentityMatrix constructor, which writes the
  vector's row marker (`Grids.SetItemsToOne`).
- Matrices.Matrix.GetItem, Matrices.Matrix.SetItem, Matrices.Matrix.SetRow,
  Matrices.Matrix.SetCol, Matrices.Matrix.SetDiagonal,
  Matrices.Matrix.Transpose, Matrices.Matrix.GetDiagonal: one class carries
  every method, while the library's classes differ. `get_item` and
  `set_item` exist only on OneDimensionalMatrix and its subclasses, so on a
  plain Matrix, SquareMatrix or SymmetricMatrix they raise `AttributeError`,
  and so do `set_row`, `set_col` and `set_diagonal` (lines 209, 257 and
  458) when their argument is such a matrix; the model reads the
  argument's first row instead. `transpose`, `get_diagonal` and
  `set_diagonal` exist only on SquareMatrix and its subclasses; the model
  offers them on every square matrix, a plain `Matrix(d, d)` included.
- The class keeps its cells in an array, not in the node lattice; the
  lattice and its walks are modelled in `Lattice`, separately, for the
  constructor, `get_val`, `set_val` and `get_col`. The remaining methods are
  modelled on the array only.
- The cursor fields (`_curr`, `_ulinker`, `_dlinker`, `_rowhead`,
  `_adderhead`, `_multihead`, `_oneD`, `tempRow`, `tempCol`) and the node
  fields `row` and `column`: they hold walk positions between calls and
  never change a result.
- `__str__` of `MatrixNode`: printing is outside the model.
- Values are integers; the library accepts any Python number (floats
  included), and rounding is not modelled.
- `MatrixIndexError` and `MatrixInvalidOperationError` are declared but
  never raised, so they have no counterpart.
- `add_matrix` and `multiply_matrix` promise a new matrix but change `self`
  in place and return `None`; `AddMatrix` and `MultiplyMatrixAsWritten`
  change the matrix in place as the code does.
- `SymmetricMatrix.set_val` and `DiagonalMatrix.set_val` are declared
  without `self`, so a call with three arguments raises `TypeError`, and the
  body of the latter compares with an undefined name `column`; calling
  `self.set_val` from inside would recurse forever. The model gives these
  variants the write their docstrings describe (store at both (i, j) and
  (j, i); store on the diagonal and 0 elsewhere) on top of `Matrix.set_val`.
- `DiagonalMatrix.__init__` and `IdentityMatrix.__init__` never call the
  base constructor, so such an object has no lattice: every walk over a
  DiagonalMatrix raises `AttributeError`, and its `set_val` raises
  `TypeError` first. `IdentityMatrix(d)` itself raises `TypeError` at line
  508, where `set_diagonal` calls the `self`-less `DiagonalMatrix.set_val`.
  The model builds the d x d matrix.
- Grids.IdentityAsWrittenIsZero: states what the two loops of the
  IdentityMatrix constructor (lines 494-498 and 507-509) would leave on a
  d x d lattice with a working `set_val`; the constructor as written raises
  `TypeError` at line 508 before its first write, which the lemma does not
  capture.
- The write policies apply to `set_val`/`set_item` and `set_diagonal` only,
  as in the library: `set_row`, `set_col`, the scalar operations,
  `add_matrix` and `transpose` write cells directly and can break symmetry
  or diagonality.
- `get_diagonal` and `set_diagonal` also visit index 0, reading and writing
  the head or a marker node; no cell is affected, and the model covers only
  the cells. The as-written `IdentityMatrix` loop is the exception: there the
  row-marker write matters, and `Grids.SetItemsToOne` models it.
- `OneDimensionalMatrix` is 1 x n only, as its docstring assumes; an n x 1
  reading is not modelled.
- Multiple inheritance (`DiagonalMatrix(SquareMatrix, OneDimensionalMatrix)`)
  is not modelled beyond the write policy IdentityMatrix shares with
  DiagonalMatrix.

## Findings

| source | as written | input that shows it | evidently intended | confidence | as-written member | corrected member |
|---|---|---|---|---|---|---|
| a1/student1/a1p2/a1.py:130-151 | only the upper bounds of i and j are checked | get_val(0, 1) on a 1 x 1 matrix returns 0, the marker of column 1, and set_val(0, 1, 5) reports success | indices below 1 raise the dimension error | not executed | Lattice.RowZeroReachesMarker | Matrices.Matrix.GetVal |
| a1/student1/a1p2/a1.py:219-247 | the column number is compared with the number of rows | get_col(2) on a 1 x 2 matrix raises the dimension error; get_col(2) on a 2 x 1 matrix walks off the lattice | compare with the number of columns | not executed | Lattice.ColGuardRejectsLastColumn | Matrices.Matrix.GetCol |
| a1/student1/a1p2/a1.py:76-112 | every cell is created as 0 and `default` is unused | Matrix(1, 1, 5) holds 0 at (1, 1) | every cell holds default | not executed | Lattice.Build | Matrices.Matrix.constructor |
| a1/student1/a1p2/a1.py:428-434 | rows 0 .. s-1 are copied, so row s of the copy stays 0 and becomes column s | transposing [[1,2],[3,4]] gives [[1,0],[2,0]] | the transpose [[1,3],[2,4]] | not executed | Grids.TransposeAsWrittenLosesLastRow | Matrices.Matrix.Transpose |
| a1/student1/a1p2/a1.py:494-509 | the vector of ones leaves its last item 0, and set_diagonal writes every item to cell (d, d) | IdentityMatrix(1) raises TypeError at line 508; with a lattice and a working set_val, cell (1, 1) would end as 0 | ones on the diagonal | not executed | Grids.IdentityAsWrittenIsZero | Matrices.Matrix.Identity |
| a1/student1/a1p2/a1.py:365-389 | cells are multiplied pairwise in place | [[1,2],[3,4]] times [[5,6],[7,8]] gives [[5,12],[21,32]] | the matrix product [[19,22],[43,50]] as a new matrix | not executed | Matrices.Matrix.MultiplyMatrixAsWritten | Matrices.Matrix.MultiplyMatrix |

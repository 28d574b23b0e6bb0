# Sudoku grid plumbing, modelled in Dafny

The Sudoku example of the Choco solver samples reads a 9x9 puzzle. In it,
0 means "unknown". The program turns the puzzle into a grid of solver
variables. It posts an all-different constraint on every row, column and 3x3
square, asks the solver for a solution and prints the grid. This project
models the part of `Sudoku.java` that does not belong to the solver:

- building the grid (`buildGrid`). An entry below 1 becomes a variable named
  `[row.col]` that ranges over 1..9. Any other entry becomes a constant.
- picking out the cells of row i, column i and square i (`getCellsInRow`,
  `getCellsInColumn`, `getCellsInSquare`).
- the 27 groups that `applyConnectionConstraints` posts, in posting order.
- the label `printGrid` prints for each cell: blank, the value, or the value
  between stars.

Files:

- `decimal.dfy` (module `Decimal`) gives decimal numerals of integers, as
  `String.valueOf` and `%s` write them. It also gives the reading that undoes
  them.
- `sudoku.dfy` (module `Sudoku`) holds the constants `SIZE = 9`,
  `SQUARE_SIZE = 3`, `MIN_VALUE = 1` and `MAX_VALUE = SIZE`, the `Cell`
  datatype and the operations.
- `sudoku_properties.dfy` (module `SudokuProperties`) holds the lemmas that
  relate several operations.

The puzzle and the built grid are rectangular two-dimensional arrays
(`array2`). The source's `int[][]` and `IntVar[][]` are arrays of row arrays;
only their first nine rows and first nine columns are ever read, and that
9x9 part is what the model's arrays hold. `BuildGrid` fills a fresh array with nested loops. It has no `modifies`
clause, so Dafny checks that it leaves the puzzle unchanged.
`GetCellsInSquare`, `ApplyConnectionConstraints` and `PrintGrid` read the
grid array. Their loops build sequences, where the source appends to lists.
Row and column extraction are pure functions over the grid's rows.

A posted constraint is modelled as the group of cells it is posted on. The
group functions are generic in the cell type. Applied to `Positions()`, the
grid whose cell at (r, c) is the pair (r, c), they give groups of
coordinates. The properties about distinct cells and coverage are stated on
those coordinates.

Squares are numbered 0..8 row by row, because that is what the code computes
and what its caller passes. The doc comment of `getCellsInSquare` says
"numbered 1->9". The model follows the code. Java's truncating `/` and `%`
agree with Dafny's on the non-negative square numbers that the model admits.

## Model

| member | source | states |
|---|---|---|
| `Sudoku.NewCell` | src/main/java/com/sonalake/choco/Sudoku.java:81-88 | an entry below 1 gives an unknown named `[row.col]` with range 1..9; any other entry v, even one above 9, gives a constant holding exactly v |
| `Sudoku.CellName` | src/main/java/com/sonalake/choco/Sudoku.java:84 | the name of an unknown is bracketed: it starts with `[` and ends with `]` |
| `Sudoku.BuildGrid` | src/main/java/com/sonalake/choco/Sudoku.java:72-93 | the result is a fresh 9x9 grid; the cell at (row, col) depends only on the puzzle entry at (row, col); the puzzle is not modified |
| `Sudoku.GetCellsInRow` | src/main/java/com/sonalake/choco/Sudoku.java:119-121 | nine cells, namely row `row` itself in column order |
| `Sudoku.GetCellsInColumn` | src/main/java/com/sonalake/choco/Sudoku.java:130-132 | nine cells, `grid[0][column]` to `grid[8][column]` in row order |
| `Sudoku.SquareStartRow` | src/main/java/com/sonalake/choco/Sudoku.java:144 | for squares 0..8 the first row is 0, 3 or 6, and it lies in the same band of rows as square / 3 |
| `Sudoku.SquareStartColumn` | src/main/java/com/sonalake/choco/Sudoku.java:145 | for squares 0..8 the first column is 0, 3 or 6, and it lies in band square % 3 |
| `Sudoku.GetCellsInSquare` | src/main/java/com/sonalake/choco/Sudoku.java:141-155 | exactly nine cells: `grid[start row + k/3][start column + k%3]` for k = 0..8, in row-major order, where the start row is 3*(s/3) and the start column 3*(s%3); all indices stay in 0..8; the list equals `SquareCells` of the grid's rows |
| `Sudoku.SquareCells` | src/main/java/com/sonalake/choco/Sudoku.java:144-152 | the value `getCellsInSquare` returns, on a grid given by its rows: nine cells; which positions they are is proved by `SudokuProperties.SquarePartition` and `SudokuProperties.GroupElement`, and `GetCellsInSquare` is proved to return it |
| `Sudoku.ConnectionGroups` | src/main/java/com/sonalake/choco/Sudoku.java:102-109 | 27 groups of nine cells each |
| `Sudoku.ApplyConnectionConstraints` | src/main/java/com/sonalake/choco/Sudoku.java:102-109 | posts row i, column i and square i for i = 0..8, in that order, as `ConnectionGroups` lists them |
| `Sudoku.ValueOf` | src/main/java/com/sonalake/choco/Sudoku.java:188 | stands for `variable.getValue()`: the constant of a given, and otherwise the solver's value, which is a parameter; no contract of its own, `SudokuProperties.LabelRoundTrip` shows it is the value a label prints |
| `Sudoku.CellLabel` | src/main/java/com/sonalake/choco/Sudoku.java:178-192 | the per-cell label decision; its contract is carried by `Sudoku.CellLabelRules`, `SudokuProperties.LabelRoundTrip` and `SudokuProperties.BuiltCellLabel` |
| `Sudoku.CellLabelRules` | src/main/java/com/sonalake/choco/Sudoku.java:178-192 | the label is blank exactly when the solution is not shown and the cell is not a given; it is starred exactly when the solution is shown and the cell is a given, so givens are never starred without the solution |
| `Sudoku.PrintGrid` | src/main/java/com/sonalake/choco/Sudoku.java:166-200 | nine rows of nine labels; the label at (row, column) is the label `CellLabel` chooses for that cell |
| `SudokuProperties.SquarePartition` | src/main/java/com/sonalake/choco/Sudoku.java:141-152 | for squares 0..8, position (r, c) lies in square s exactly when s = 3*(r/3) + c/3, so the nine squares partition the grid |
| `SudokuProperties.SquareOfBands` | src/main/java/com/sonalake/choco/Sudoku.java:144-145 | the square holding (r, c) has band of rows r/3 and band of columns c/3, matching how the square's start row and start column are computed |
| `SudokuProperties.GroupElement` | src/main/java/com/sonalake/choco/Sudoku.java:104-108 | cell j of group 3i is the grid cell (i, j), of group 3i+1 the cell (j, i), and of group 3i+2 the cell at row offset j/3 and column offset j%3 from the start of square i |
| `SudokuProperties.GroupPositions` | src/main/java/com/sonalake/choco/Sudoku.java:102-109 | every posted group lists nine pairwise distinct positions, all inside the grid |
| `SudokuProperties.GroupMembership` | src/main/java/com/sonalake/choco/Sudoku.java:104-108 | group 3i holds exactly row i, group 3i+1 exactly column i and group 3i+2 exactly square i |
| `SudokuProperties.GroupsOfCell` | src/main/java/com/sonalake/choco/Sudoku.java:102-109 | every cell lies in exactly three groups: its row, its column and its square |
| `SudokuProperties.GroupsAtPositions` | src/main/java/com/sonalake/choco/Sudoku.java:102-109 | the groups of any grid are that grid's cells at the positions that the coordinate groups list |
| `SudokuProperties.AllDifferentIffSudokuRule` | src/main/java/com/sonalake/choco/Sudoku.java:96-109 | a filled grid satisfies all 27 all-different groups exactly when no two cells sharing a row, a column or a square hold equal values |
| `SudokuProperties.CellNamesUnique` | src/main/java/com/sonalake/choco/Sudoku.java:84 | different positions give their unknowns different names |
| `SudokuProperties.LabelRoundTrip` | src/main/java/com/sonalake/choco/Sudoku.java:178-192 | reading a label back gives blank for a hidden cell; otherwise it gives the value `getValue` reports, and whether the label is starred |
| `SudokuProperties.BuiltCellLabel` | src/main/java/com/sonalake/choco/Sudoku.java:81-88 | for a freshly built cell, printing without the solution shows a given as entered and an unknown blank; printing with it stars the given and shows the solver's value for an unknown |
| `Decimal.NatToString` | src/main/java/com/sonalake/choco/Sudoku.java:84 | the numeral of a row or column number is digits only with no leading zero, and it is one digit exactly for 0..9 |
| `Decimal.IntToString` | src/main/java/com/sonalake/choco/Sudoku.java:188 | the printed value is a numeral that starts with a minus sign exactly for negative values, and a negative value has no leading zero after the sign |
| `Decimal.NatRoundTrip` | src/main/java/com/sonalake/choco/Sudoku.java:84 | reading the digits of a number's numeral gives the number back |
| `Decimal.IntRoundTrip` | src/main/java/com/sonalake/choco/Sudoku.java:188 | parsing the numeral of an integer gives the integer back |
| `Decimal.IntToStringInjective` | src/main/java/com/sonalake/choco/Sudoku.java:188 | different values print differently |

## Left out

- The solver itself is left out: the `Model` and `Solver` classes, propagation of `allDifferent`, `solve()` and `showShortStatistics()`. They belong to the Choco library. Only the grouping of cells handed to it is modelled, not whether the puzzle gets solved.
- The value the solver assigns to an unknown is a parameter (`solved`). `Sudoku.PrintGrid` does not model what `getValue()` does on a variable the solver has not fixed.
- Table rendering with `AsciiTable` and printing to standard output are left out. `Sudoku.PrintGrid` returns the rows of labels it would hand to the table.
- The hard-coded puzzle in `main` is fixture data and is left out.
- `GraphColouring.java` and `LogicalSatisfiability.java` are left out. They only post library constraints and print results.
- Sudoku.BuildGrid: the puzzle is a rectangular `array2` with at least 9 rows and 9 columns. The source reads only `predefinedRows[0..8][0..8]`: it throws `ArrayIndexOutOfBoundsException` when there are fewer than nine rows or one of the first nine rows is shorter than nine, and `NullPointerException` on a `null` row. Those throwing inputs are not modelled. A ragged array whose first nine rows hold at least nine entries each behaves like its top-left 9x9 part, which the model covers.
- Sudoku.GetCellsInSquare: square numbers outside 0..8 make the source throw `ArrayIndexOutOfBoundsException`. The precondition excludes them.
- Sudoku.GetCellsInRow: the source returns the grid's own row array, shared with the grid. The model returns its value, so the aliasing is not captured. Nothing in the core writes to a group.
- Object identity of solver variables is not modelled. The library may hand out one shared constant object for equal givens. Distinctness of cells in a group is stated on positions instead.
- Values are unbounded integers. The source's 32-bit `int` matters only for entries outside that range, and the core does no arithmetic on entries.

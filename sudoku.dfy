/** The grid plumbing of the Sudoku example: building the grid of solver
    variables from the puzzle, picking out the cells of a row, a column or a
    3x3 square, enumerating the groups that each receive an all-different
    constraint, and choosing what every printed cell shows.

    Grids are indexed [row][column]. Squares are numbered 0..8 row by row,
    starting at the top left. */
module Sudoku {
  import opened Decimal

  const SIZE := 9
  const SQUARE_SIZE := 3
  const MIN_VALUE := 1
  const MAX_VALUE := SIZE

  /** A solver variable as the grid holds it: a constant for a given of the
      puzzle, or a named variable ranging over lo..hi for an unknown. */
  datatype Cell = Fixed(value: int) | Bounded(name: string, lo: int, hi: int)

  /** A SIZE x SIZE grid given as its rows. */
  predicate IsGrid<T>(grid: seq<seq<T>>) {
    |grid| == SIZE && forall row :: 0 <= row < SIZE ==> |grid[row]| == SIZE
  }

  /** The contents of a two-dimensional array, row by row. */
  function Rows<T>(grid: array2<T>): (rows: seq<seq<T>>)
    reads grid
    ensures |rows| == grid.Length0
    ensures forall row :: 0 <= row < grid.Length0 ==> |rows[row]| == grid.Length1
    ensures forall row, column :: 0 <= row < grid.Length0 && 0 <= column < grid.Length1 ==>
      rows[row][column] == grid[row, column]
  {
    seq(grid.Length0, row requires 0 <= row < grid.Length0 reads grid =>
      seq(grid.Length1, column requires 0 <= column < grid.Length1 reads grid => grid[row, column]))
  }

  // ---------------------------------------------------------------------
  // Building the grid

  /** The name given to the unknown at (row, col): "[row.col]". */
  function CellName(row: nat, col: nat): (name: string)
    ensures |name| >= 5 && name[0] == '[' && name[|name| - 1] == ']'
  {
    "[" + NatToString(row) + "." + NatToString(col) + "]"
  }

  /** The variable created for the puzzle entry `value` at (row, col): a
      value below MIN_VALUE marks an unknown, which ranges over
      MIN_VALUE..MAX_VALUE; any other value, however large, is a given. */
  function NewCell(value: int, row: nat, col: nat): (cell: Cell)
    ensures cell.Fixed? <==> MIN_VALUE <= value
    ensures cell.Fixed? ==> cell.value == value
    ensures cell.Bounded? ==> cell.name == CellName(row, col) && cell.lo == 1 && cell.hi == 9
  {
    if value < MIN_VALUE then Bounded(CellName(row, col), MIN_VALUE, MAX_VALUE) else Fixed(value)
  }

  /** Fills a fresh SIZE x SIZE grid, each cell from the puzzle entry at the
      same position. The puzzle is only read. */
  method BuildGrid(predefinedRows: array2<int>) returns (grid: array2<Cell>)
    requires predefinedRows.Length0 >= SIZE && predefinedRows.Length1 >= SIZE
    ensures fresh(grid)
    ensures grid.Length0 == SIZE && grid.Length1 == SIZE
    ensures forall row, col :: 0 <= row < SIZE && 0 <= col < SIZE ==>
      grid[row, col] == NewCell(predefinedRows[row, col], row, col)
  {
    grid := new Cell[SIZE, SIZE];
    for row := 0 to SIZE
      invariant forall r, c :: 0 <= r < row && 0 <= c < SIZE ==>
        grid[r, c] == NewCell(predefinedRows[r, c], r, c)
    {
      for col := 0 to SIZE
        invariant forall r, c :: 0 <= r < row && 0 <= c < SIZE ==>
          grid[r, c] == NewCell(predefinedRows[r, c], r, c)
        invariant forall c :: 0 <= c < col ==>
          grid[row, c] == NewCell(predefinedRows[row, c], row, c)
      {
        var value := predefinedRows[row, col];
        if value < MIN_VALUE {
          grid[row, col] := Bounded(CellName(row, col), MIN_VALUE, MAX_VALUE);
        } else {
          grid[row, col] := Fixed(value);
        }
      }
    }
  }

  // ---------------------------------------------------------------------
  // Rows, columns and squares

  function GetCellsInRow<T>(grid: seq<seq<T>>, row: int): (cells: seq<T>)
    requires IsGrid(grid) && 0 <= row < SIZE
    ensures |cells| == SIZE
    ensures forall column :: 0 <= column < SIZE ==> cells[column] == grid[row][column]
  {
    grid[row]
  }

  function GetCellsInColumn<T>(grid: seq<seq<T>>, column: int): (cells: seq<T>)
    requires IsGrid(grid) && 0 <= column < SIZE
    ensures |cells| == SIZE
    ensures forall row :: 0 <= row < SIZE ==> cells[row] == grid[row][column]
  {
    seq(|grid|, row requires 0 <= row < |grid| => grid[row][column])
  }

  /** The first row of square `square`; every square lies inside the grid. */
  function SquareStartRow(square: int): (row: int)
    requires 0 <= square < SIZE
    ensures 0 <= row <= SIZE - SQUARE_SIZE && row % SQUARE_SIZE == 0
    ensures row / SQUARE_SIZE == square / SQUARE_SIZE
  {
    SQUARE_SIZE * (square / (SIZE / SQUARE_SIZE))
  }

  /** The first column of square `square`; every square lies inside the grid. */
  function SquareStartColumn(square: int): (column: int)
    requires 0 <= square < SIZE
    ensures 0 <= column <= SIZE - SQUARE_SIZE && column % SQUARE_SIZE == 0
    ensures column / SQUARE_SIZE == square % SQUARE_SIZE
  {
    SQUARE_SIZE * (square % (SIZE / SQUARE_SIZE))
  }

  /** The cells of square `square`, in row-major order. */
  function SquareCells<T>(grid: seq<seq<T>>, square: int): (cells: seq<T>)
    requires IsGrid(grid) && 0 <= square < SIZE
    ensures |cells| == SIZE
  {
    seq(SIZE, k requires 0 <= k < SIZE =>
      grid[SquareStartRow(square) + k / SQUARE_SIZE][SquareStartColumn(square) + k % SQUARE_SIZE])
  }

  /** Entry n of a square's cell list, with n = 3*i + j, is at row offset i
      and column offset j. */
  lemma SquareIndex(n: int, i: int, j: int)
    requires n == SQUARE_SIZE * i + j && 0 <= j < SQUARE_SIZE
    ensures n / SQUARE_SIZE == i && n % SQUARE_SIZE == j
  {
  }

  /** Collects the cells of square `square` row by row, left to right. */
  method GetCellsInSquare<T>(grid: array2<T>, square: int) returns (cells: seq<T>)
    requires grid.Length0 == SIZE && grid.Length1 == SIZE
    requires 0 <= square < SIZE
    ensures |cells| == SIZE
    ensures forall k :: 0 <= k < SIZE ==>
      cells[k] == grid[SquareStartRow(square) + k / SQUARE_SIZE, SquareStartColumn(square) + k % SQUARE_SIZE]
    ensures cells == SquareCells(Rows(grid), square)
  {
    var startRow := SQUARE_SIZE * (square / (SIZE / SQUARE_SIZE));
    var startColumn := SQUARE_SIZE * (square % (SIZE / SQUARE_SIZE));
    cells := [];
    for row := startRow to startRow + SQUARE_SIZE
      invariant |cells| == SQUARE_SIZE * (row - startRow)
      invariant forall k :: 0 <= k < |cells| ==>
        cells[k] == grid[startRow + k / SQUARE_SIZE, startColumn + k % SQUARE_SIZE]
    {
      for column := startColumn to startColumn + SQUARE_SIZE
        invariant |cells| == SQUARE_SIZE * (row - startRow) + (column - startColumn)
        invariant forall k :: 0 <= k < |cells| ==>
          cells[k] == grid[startRow + k / SQUARE_SIZE, startColumn + k % SQUARE_SIZE]
      {
        SquareIndex(|cells|, row - startRow, column - startColumn);
        cells := cells + [grid[row, column]];
      }
    }
    SquareCellsOfArray(grid, square, cells);
  }

  /** A list holding a square's cells in row-major order is SquareCells of
      the grid's rows. */
  lemma SquareCellsOfArray<T>(grid: array2<T>, square: int, cells: seq<T>)
    requires grid.Length0 == SIZE && grid.Length1 == SIZE && 0 <= square < SIZE
    requires |cells| == SIZE
    requires forall k :: 0 <= k < SIZE ==>
      cells[k] == grid[SquareStartRow(square) + k / SQUARE_SIZE, SquareStartColumn(square) + k % SQUARE_SIZE]
    ensures cells == SquareCells(Rows(grid), square)
  {
    var rows := Rows(grid);
    forall k | 0 <= k < SIZE
      ensures cells[k] == SquareCells(rows, square)[k]
    {
      assert cells[k] == rows[SquareStartRow(square) + k / SQUARE_SIZE][SquareStartColumn(square) + k % SQUARE_SIZE];
    }
  }

  // ---------------------------------------------------------------------
  // The groups that receive an all-different constraint

  /** Group 3*i is row i, group 3*i+1 column i and group 3*i+2 square i. */
  function ConnectionGroups<T>(grid: seq<seq<T>>): (groups: seq<seq<T>>)
    requires IsGrid(grid)
    ensures |groups| == 3 * SIZE
    ensures forall k :: 0 <= k < |groups| ==> |groups[k]| == SIZE
  {
    seq(3 * SIZE, k requires 0 <= k < 3 * SIZE =>
      if k % 3 == 0 then GetCellsInRow(grid, k / 3)
      else if k % 3 == 1 then GetCellsInColumn(grid, k / 3)
      else SquareCells(grid, k / 3))
  }

  /** Posts, for each i in turn, row i, column i and square i. */
  method ApplyConnectionConstraints<T>(grid: array2<T>) returns (posted: seq<seq<T>>)
    requires grid.Length0 == SIZE && grid.Length1 == SIZE
    ensures posted == ConnectionGroups(Rows(grid))
  {
    var rows := Rows(grid);
    posted := [];
    var i := 0;
    while i != SIZE
      invariant 0 <= i <= SIZE
      invariant posted == ConnectionGroups(rows)[..3 * i]
    {
      var square := GetCellsInSquare(grid, i);
      posted := posted + [GetCellsInRow(rows, i), GetCellsInColumn(rows, i), square];
      i := i + 1;
    }
  }

  // ---------------------------------------------------------------------
  // Printing

  /** What `getValue()` reports for a cell: the constant of a given, and
      otherwise `solved`, the value the solver has given the variable. */
  function ValueOf(cell: Cell, solved: int): int {
    match cell
    case Fixed(v) => v
    case Bounded(_, _, _) => solved
  }

  /** The label printed for a cell. Without the solution only the givens are
      shown; with it every value is shown and the givens are starred. */
  function CellLabel(cell: Cell, solved: int, showSolution: bool): string {
    var isOriginalNumber := cell.Fixed?;
    var shouldShow := showSolution || isOriginalNumber;
    if !shouldShow then ""
    else
      var value := IntToString(ValueOf(cell, solved));
      if showSolution && isOriginalNumber then "*" + value + "*" else value
  }

  /** A label is blank exactly when the solution is hidden and the cell is
      not a given; it is starred exactly when the solution is shown and the
      cell is a given. In particular, givens are never starred while the
      solution is hidden. */
  lemma CellLabelRules(cell: Cell, solved: int, showSolution: bool)
    ensures CellLabel(cell, solved, showSolution) == "" <==> !showSolution && !cell.Fixed?
    ensures var text := CellLabel(cell, solved, showSolution);
      text != "" && text[0] == '*' <==> showSolution && cell.Fixed?
  {
  }

  /** The rows of labels handed to the table: SIZE rows of SIZE labels.
      `solved[row][column]` is the solver's value for that cell. */
  method PrintGrid(grid: array2<Cell>, solved: seq<seq<int>>, showSolution: bool)
    returns (table: seq<seq<string>>)
    requires grid.Length0 == SIZE && grid.Length1 == SIZE && IsGrid(solved)
    ensures |table| == SIZE
    ensures forall row :: 0 <= row < SIZE ==> |table[row]| == SIZE
    ensures forall row, column :: 0 <= row < SIZE && 0 <= column < SIZE ==>
      table[row][column] == CellLabel(grid[row, column], solved[row][column], showSolution)
  {
    table := [];
    for row := 0 to SIZE
      invariant |table| == row
      invariant forall r :: 0 <= r < row ==>
        |table[r]| == SIZE &&
        forall c :: 0 <= c < SIZE ==> table[r][c] == CellLabel(grid[r, c], solved[r][c], showSolution)
    {
      var labels: seq<string> := [];
      for column := 0 to SIZE
        invariant |labels| == column
        invariant forall c :: 0 <= c < column ==>
          labels[c] == CellLabel(grid[row, c], solved[row][c], showSolution)
      {
        var variable := grid[row, column];
        labels := labels + [CellLabel(variable, solved[row][column], showSolution)];
      }
      table := table + [labels];
    }
  }
}

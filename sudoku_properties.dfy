/** What the Sudoku grid plumbing guarantees: the squares partition the grid,
    every group names nine distinct cells, every cell lies in exactly three
    groups, the all-different groups say exactly the Sudoku rule, unknowns get
    distinct names, and a printed label can be read back. */
module SudokuProperties {
  import opened Decimal
  import opened Sudoku

  /** A position in the grid: a row and a column. */
  datatype Pos = Pos(row: int, col: int)

  predicate InGrid(p: Pos) {
    0 <= p.row < SIZE && 0 <= p.col < SIZE
  }

  /** The grid whose cell at every position is that position: the groups
      taken from it are groups of coordinates. */
  function Positions(): (grid: seq<seq<Pos>>)
    ensures IsGrid(grid)
    ensures forall row, col :: 0 <= row < SIZE && 0 <= col < SIZE ==> grid[row][col] == Pos(row, col)
  {
    seq(SIZE, row => seq(SIZE, col => Pos(row, col)))
  }

  function At<T>(grid: seq<seq<T>>, p: Pos): T
    requires IsGrid(grid) && InGrid(p)
  {
    grid[p.row][p.col]
  }

  /** The number of the square that holds p. */
  function SquareOf(p: Pos): (square: int)
    requires InGrid(p)
    ensures 0 <= square < SIZE
  {
    SQUARE_SIZE * (p.row / SQUARE_SIZE) + p.col / SQUARE_SIZE
  }

  ghost predicate Distinct<T>(s: seq<T>) {
    forall i, j :: 0 <= i < j < |s| ==> s[i] != s[j]
  }

  /** Whether group k (as ConnectionGroups numbers them) should hold p:
      row k/3, column k/3 or square k/3, as k % 3 is 0, 1 or 2. */
  predicate InGroup(k: int, p: Pos)
    requires InGrid(p)
  {
    (k % 3 == 0 && p.row == k / 3) ||
    (k % 3 == 1 && p.col == k / 3) ||
    (k % 3 == 2 && SquareOf(p) == k / 3)
  }

  // ---------------------------------------------------------------------
  // Squares

  /** The square a position lies in, seen through its row and column
      bands: the band of rows is square / 3 and the band of columns
      square % 3. */
  lemma SquareOfBands(p: Pos)
    requires InGrid(p)
    ensures SquareOf(p) / SQUARE_SIZE == p.row / SQUARE_SIZE
    ensures SquareOf(p) % SQUARE_SIZE == p.col / SQUARE_SIZE
  {
    var band, stack := p.row / 3, p.col / 3;
    assert 0 <= stack < 3;
    assert SquareOf(p) == 3 * band + stack;
  }

  /** The k-th cell that square `square` lists, as a position. */
  lemma SquareCellAt(square: int, k: int)
    requires 0 <= square < SIZE && 0 <= k < SIZE
    ensures SquareCells(Positions(), square)[k]
         == Pos(SquareStartRow(square) + k / SQUARE_SIZE, SquareStartColumn(square) + k % SQUARE_SIZE)
  {
  }

  /** Every position lies in exactly one square, the one SquareOf names. */
  lemma SquarePartition(square: int, p: Pos)
    requires 0 <= square < SIZE && InGrid(p)
    ensures p in SquareCells(Positions(), square) <==> square == SquareOf(p)
  {
    var cells := SquareCells(Positions(), square);
    var startRow, startColumn := SquareStartRow(square), SquareStartColumn(square);
    SquareOfBands(p);
    if square == SquareOf(p) {
      var k := 3 * (p.row % 3) + p.col % 3;
      assert k / 3 == p.row % 3 && k % 3 == p.col % 3;
      SquareCellAt(square, k);
      assert cells[k] == p;
    }
    if p in cells {
      var k :| 0 <= k < SIZE && cells[k] == p;
      SquareCellAt(square, k);
      assert p.row / 3 == square / 3;
      assert p.col / 3 == square % 3;
    }
  }

  // ---------------------------------------------------------------------
  // The 27 groups

  /** The position of the j-th cell of group k. */
  function MemberPos(k: int, j: int): Pos
    requires 0 <= k < 3 * SIZE && 0 <= j < SIZE
  {
    var i := k / 3;
    if k % 3 == 0 then Pos(i, j)
    else if k % 3 == 1 then Pos(j, i)
    else Pos(SquareStartRow(i) + j / SQUARE_SIZE, SquareStartColumn(i) + j % SQUARE_SIZE)
  }

  /** Where p stands in a group that holds it. */
  function IndexInGroup(k: int, p: Pos): (j: int)
    requires 0 <= k < 3 * SIZE && InGrid(p) && InGroup(k, p)
    ensures 0 <= j < SIZE && MemberPos(k, j) == p
  {
    if k % 3 == 0 then p.col
    else if k % 3 == 1 then p.row
    else
      SquareOfBands(p);
      SQUARE_SIZE * (p.row % SQUARE_SIZE) + p.col % SQUARE_SIZE
  }

  /** The j-th cell of group k lies in the grid and belongs there. */
  lemma MemberInGroup(k: int, j: int)
    requires 0 <= k < 3 * SIZE && 0 <= j < SIZE
    ensures InGrid(MemberPos(k, j)) && InGroup(k, MemberPos(k, j))
  {
    if k % 3 == 2 {
      var p := MemberPos(k, j);
      SquareOfBands(p);
      assert p.row / 3 == (k / 3) / 3;
      assert p.col / 3 == (k / 3) % 3;
    }
  }

  /** A group never lists the same position twice. */
  lemma MemberPosInjective(k: int, i: int, j: int)
    requires 0 <= k < 3 * SIZE && 0 <= i < SIZE && 0 <= j < SIZE
    requires MemberPos(k, i) == MemberPos(k, j)
    ensures i == j
  {
    if k % 3 == 2 {
      assert i / 3 == j / 3 && i % 3 == j % 3;
    }
  }

  /** The j-th cell of group k of any grid is the grid's cell at MemberPos(k, j). */
  lemma GroupElement<T>(grid: seq<seq<T>>, k: int, j: int)
    requires IsGrid(grid) && 0 <= k < 3 * SIZE && 0 <= j < SIZE
    ensures InGrid(MemberPos(k, j))
    ensures ConnectionGroups(grid)[k][j] == At(grid, MemberPos(k, j))
  {
    MemberInGroup(k, j);
    var group := ConnectionGroups(grid)[k];
    var i := k / 3;
    if k % 3 == 0 {
      assert group == GetCellsInRow(grid, i);
    } else if k % 3 == 1 {
      assert group == GetCellsInColumn(grid, i);
    } else {
      assert group == SquareCells(grid, i);
    }
  }

  /** Each group lists nine distinct positions of the grid. */
  lemma GroupPositions(k: int)
    requires 0 <= k < 3 * SIZE
    ensures forall j :: 0 <= j < SIZE ==> InGrid(ConnectionGroups(Positions())[k][j])
    ensures Distinct(ConnectionGroups(Positions())[k])
  {
    var group := ConnectionGroups(Positions())[k];
    forall j | 0 <= j < SIZE
      ensures InGrid(group[j]) && group[j] == MemberPos(k, j)
    {
      GroupElement(Positions(), k, j);
    }
    forall i, j | 0 <= i < j < SIZE
      ensures group[i] != group[j]
    {
      if group[i] == group[j] {
        MemberPosInjective(k, i, j);
        assert false;
      }
    }
  }

  /** Group k holds p exactly when InGroup(k, p). */
  lemma GroupMembership(k: int, p: Pos)
    requires 0 <= k < 3 * SIZE && InGrid(p)
    ensures p in ConnectionGroups(Positions())[k] <==> InGroup(k, p)
  {
    var group := ConnectionGroups(Positions())[k];
    if InGroup(k, p) {
      var j := IndexInGroup(k, p);
      GroupElement(Positions(), k, j);
      assert group[j] == p;
    }
    if p in group {
      var j :| 0 <= j < SIZE && group[j] == p;
      GroupElement(Positions(), k, j);
      MemberInGroup(k, j);
    }
  }

  /** The numbers of the groups that hold p. */
  ghost function GroupsHolding(p: Pos): set<int> {
    set k | 0 <= k < 3 * SIZE && p in ConnectionGroups(Positions())[k]
  }

  /** Every cell lies in exactly three groups: its row, its column and its
      square. */
  lemma GroupsOfCell(p: Pos)
    requires InGrid(p)
    ensures GroupsHolding(p) == {3 * p.row, 3 * p.col + 1, 3 * SquareOf(p) + 2}
    ensures |GroupsHolding(p)| == 3
  {
    var own := {3 * p.row, 3 * p.col + 1, 3 * SquareOf(p) + 2};
    forall k
      ensures k in GroupsHolding(p) <==> k in own
    {
      if 0 <= k < 3 * SIZE {
        GroupMembership(k, p);
      }
    }
    ThreeElements(GroupsHolding(p), 3 * p.row, 3 * p.col + 1, 3 * SquareOf(p) + 2);
  }

  lemma ThreeElements(s: set<int>, a: int, b: int, c: int)
    requires s == {a, b, c} && a != b && a != c && b != c
    ensures |s| == 3
  {
    assert s == {a, b} + {c};
  }

  /** The groups of any grid are the cells at the positions that the groups
      of Positions() list. */
  lemma GroupsAtPositions<T>(grid: seq<seq<T>>, k: int, j: int)
    requires IsGrid(grid) && 0 <= k < 3 * SIZE && 0 <= j < SIZE
    ensures InGrid(ConnectionGroups(Positions())[k][j])
    ensures ConnectionGroups(grid)[k][j] == At(grid, ConnectionGroups(Positions())[k][j])
  {
    GroupElement(grid, k, j);
    GroupElement(Positions(), k, j);
  }

  // ---------------------------------------------------------------------
  // The all-different groups and the Sudoku rule

  /** Two different positions that share a row, a column or a square. */
  predicate Peers(p: Pos, q: Pos)
    requires InGrid(p) && InGrid(q)
  {
    p != q && (p.row == q.row || p.col == q.col || SquareOf(p) == SquareOf(q))
  }

  /** Peers never hold equal values. */
  ghost predicate SudokuRule<T>(grid: seq<seq<T>>)
    requires IsGrid(grid)
  {
    forall p, q :: InGrid(p) && InGrid(q) && Peers(p, q) ==> At(grid, p) != At(grid, q)
  }

  /** Every posted all-different group holds pairwise different values. */
  ghost predicate AllGroupsDistinct<T>(grid: seq<seq<T>>)
    requires IsGrid(grid)
  {
    forall k :: 0 <= k < 3 * SIZE ==> Distinct(ConnectionGroups(grid)[k])
  }

  lemma GroupsDistinctGivesRule<T>(grid: seq<seq<T>>)
    requires IsGrid(grid) && AllGroupsDistinct(grid)
    ensures SudokuRule(grid)
  {
    forall p, q | InGrid(p) && InGrid(q) && Peers(p, q)
      ensures At(grid, p) != At(grid, q)
    {
      var k := if p.row == q.row then 3 * p.row
               else if p.col == q.col then 3 * p.col + 1
               else 3 * SquareOf(p) + 2;
      var i, j := IndexInGroup(k, p), IndexInGroup(k, q);
      GroupElement(grid, k, i);
      GroupElement(grid, k, j);
      var group := ConnectionGroups(grid)[k];
      assert Distinct(group);
      if i < j {
        assert group[i] != group[j];
      } else {
        assert j < i;
        assert group[j] != group[i];
      }
    }
  }

  lemma RuleGivesGroupsDistinct<T>(grid: seq<seq<T>>)
    requires IsGrid(grid) && SudokuRule(grid)
    ensures AllGroupsDistinct(grid)
  {
    forall k | 0 <= k < 3 * SIZE
      ensures Distinct(ConnectionGroups(grid)[k])
    {
      forall i, j | 0 <= i < j < SIZE
        ensures ConnectionGroups(grid)[k][i] != ConnectionGroups(grid)[k][j]
      {
        var p, q := MemberPos(k, i), MemberPos(k, j);
        MemberInGroup(k, i);
        MemberInGroup(k, j);
        if p == q {
          MemberPosInjective(k, i, j);
          assert false;
        }
        assert Peers(p, q);
        GroupElement(grid, k, i);
        GroupElement(grid, k, j);
      }
    }
  }

  /** A filled grid satisfies all 27 all-different constraints exactly when
      it obeys the Sudoku rule. */
  lemma AllDifferentIffSudokuRule<T>(grid: seq<seq<T>>)
    requires IsGrid(grid)
    ensures AllGroupsDistinct(grid) <==> SudokuRule(grid)
  {
    if AllGroupsDistinct(grid) {
      GroupsDistinctGivesRule(grid);
    }
    if SudokuRule(grid) {
      RuleGivesGroupsDistinct(grid);
    }
  }

  // ---------------------------------------------------------------------
  // Names of the unknowns

  lemma NotADot(s: string, i: int)
    requires AllDigits(s) && 0 <= i < |s|
    ensures s[i] != '.'
  {
  }

  /** Where the row numeral and the dot stand in a name. */
  lemma NameLayout(a: string, b: string)
    ensures ("[" + a + "." + b + "]")[1 + |a|] == '.'
    ensures forall i :: 0 <= i < |a| ==> ("[" + a + "." + b + "]")[1 + i] == a[i]
  {
  }

  /** Different positions give their unknowns different names. */
  lemma CellNamesUnique(r1: nat, c1: nat, r2: nat, c2: nat)
    requires CellName(r1, c1) == CellName(r2, c2)
    ensures r1 == r2 && c1 == c2
  {
    var name := CellName(r1, c1);
    var a1, b1 := NatToString(r1), NatToString(c1);
    var a2, b2 := NatToString(r2), NatToString(c2);
    assert name == "[" + a1 + "." + b1 + "]";
    assert name == "[" + a2 + "." + b2 + "]";
    NameLayout(a1, b1);
    NameLayout(a2, b2);
    if |a1| < |a2| {
      NotADot(a2, |a1|);
      assert false;
    }
    if |a2| < |a1| {
      NotADot(a1, |a2|);
      assert false;
    }
    assert a1 == name[1..1 + |a1|] == a2;
    assert b1 == name[2 + |a1|..|name| - 1] == b2;
    NatRoundTrip(r1);
    NatRoundTrip(r2);
    NatRoundTrip(c1);
    NatRoundTrip(c2);
  }

  // ---------------------------------------------------------------------
  // Labels

  /** What a reader learns from a printed label. */
  datatype Reading = Blank | Shown(starred: bool, value: int) | Unreadable

  function ReadLabel(text: string): Reading {
    if text == [] then Blank
    else if |text| >= 3 && text[0] == '*' && text[|text| - 1] == '*' && IsNumeral(text[1..|text| - 1]) then
      Shown(true, ParseInt(text[1..|text| - 1]))
    else if IsNumeral(text) then Shown(false, ParseInt(text))
    else Unreadable
  }

  /** A label is blank exactly for a hidden cell; otherwise it shows the
      cell's value and is starred exactly for a given shown with the
      solution. */
  lemma LabelRoundTrip(cell: Cell, solved: int, showSolution: bool)
    ensures ReadLabel(CellLabel(cell, solved, showSolution)) ==
      if !showSolution && !cell.Fixed? then Blank
      else Shown(showSolution && cell.Fixed?, ValueOf(cell, solved))
  {
    var text := CellLabel(cell, solved, showSolution);
    var value := IntToString(ValueOf(cell, solved));
    IntRoundTrip(ValueOf(cell, solved));
    if showSolution && cell.Fixed? {
      assert text[1..|text| - 1] == value;
    }
  }

  /** Printing a freshly built grid: without the solution the givens appear
      as entered and the unknowns blank; with it the givens are starred and
      the unknowns show the solver's value. */
  lemma BuiltCellLabel(value: int, row: nat, col: nat, solved: int)
    ensures CellLabel(NewCell(value, row, col), solved, false) ==
      if value < MIN_VALUE then "" else IntToString(value)
    ensures CellLabel(NewCell(value, row, col), solved, true) ==
      if value < MIN_VALUE then IntToString(solved) else "*" + IntToString(value) + "*"
  {
  }
}

/**
 The peg-solitaire board: a fixed 7x7 grid of cells, of which the four 2x2
 corner blocks are unplayable. This module holds the data model shared by the
 move logic and the search: cells, directions, positions, movements, the grid
 itself, single-cell updates and cell counting, and the initial board.
 */
module Board {

  /** Side length of the square grid. */
  const Size: int := 7

  /** The three states a cell can be in (src/main.rs encodes them as 1, 2, 3). */
  datatype Cell = Impossible | Empty | Occupied

  /** The four jump directions, declared in the order of their numeric codes
      North = 1, West = 2, South = 3, East = 4. */
  datatype Direction = North | West | South | East

  /** The directions in the order the search tries them. */
  const Directions: seq<Direction> := [North, West, South, East]

  /** Numeric code of a direction, as in src/main.rs. */
  function Code(d: Direction): (k: int)
    ensures 1 <= k <= 4
    ensures Directions[k - 1] == d
  {
    match d
    case North => 1
    case West => 2
    case South => 3
    case East => 4
  }

  /** A (row, column) coordinate; it may lie off the board while a jump target is computed. */
  datatype Pos = Pos(row: int, col: int)

  predicate OnBoard(p: Pos) {
    0 <= p.row < Size && 0 <= p.col < Size
  }

  /** A candidate jump: the origin of the jumping peg and its direction. */
  datatype Movement = Movement(origin: Pos, direction: Direction)

  function RowDelta(d: Direction): int {
    match d
    case North => -1
    case South => 1
    case West => 0
    case East => 0
  }

  function ColDelta(d: Direction): int {
    match d
    case North => 0
    case South => 0
    case West => -1
    case East => 1
  }

  /** The cell k steps away from the origin in the movement's direction:
      Step(m, 1) is the jumped-over cell, Step(m, 2) the landing cell. */
  function Step(m: Movement, k: int): Pos {
    Pos(m.origin.row + k * RowDelta(m.direction), m.origin.col + k * ColDelta(m.direction))
  }

  /** The three cells a jump touches are pairwise distinct. */
  lemma StepsDistinct(m: Movement)
    ensures Step(m, 0) == m.origin
    ensures m.origin != Step(m, 1) && m.origin != Step(m, 2) && Step(m, 1) != Step(m, 2)
  {
  }

  predicate IsGrid(g: seq<seq<Cell>>) {
    |g| == Size && forall i :: 0 <= i < |g| ==> |g[i]| == Size
  }

  /** A 7x7 board, stored row by row. */
  type Grid = g: seq<seq<Cell>> | IsGrid(g)
    witness seq(7, _ => seq(7, _ => Impossible))

  function At(g: Grid, p: Pos): Cell
    requires OnBoard(p)
  {
    g[p.row][p.col]
  }

  /** The grid with one cell overwritten: `grid[row][col] = v` in the Rust program. */
  function SetCell(g: Grid, p: Pos, v: Cell): Grid
    requires OnBoard(p)
  {
    g[p.row := g[p.row][p.col := v]]
  }

  /** Two grids are equal exactly when they agree on every cell. */
  lemma GridExt(g: Grid, h: Grid)
    requires forall p :: OnBoard(p) ==> At(g, p) == At(h, p)
    ensures g == h
  {
    forall i | 0 <= i < Size
      ensures g[i] == h[i]
    {
      forall j | 0 <= j < Size
        ensures g[i][j] == h[i][j]
      {
        assert At(g, Pos(i, j)) == At(h, Pos(i, j));
      }
    }
  }

  // ---------------------------------------------------------------------------
  // Counting cells

  /** Number of cells in a row that are in state v. */
  function RowCount(row: seq<Cell>, v: Cell): nat
  {
    if row == [] then 0
    else (if row[0] == v then 1 else 0) + RowCount(row[1..], v)
  }

  /** Number of cells in a list of rows that are in state v. */
  function RowsCount(rows: seq<seq<Cell>>, v: Cell): nat
  {
    if rows == [] then 0
    else RowCount(rows[0], v) + RowsCount(rows[1..], v)
  }

  /** Number of cells of the grid in state v; Count(g, Occupied) is the peg count. */
  function Count(g: Grid, v: Cell): nat
  {
    RowsCount(g, v)
  }

  function Indicator(b: bool): int {
    if b then 1 else 0
  }

  lemma {:induction false} RowCountUpdate(row: seq<Cell>, j: int, x: Cell, v: Cell)
    requires 0 <= j < |row|
    ensures RowCount(row[j := x], v) == RowCount(row, v) - Indicator(row[j] == v) + Indicator(x == v)
  {
    if j == 0 {
      assert row[j := x][1..] == row[1..];
    } else {
      RowCountUpdate(row[1..], j - 1, x, v);
      assert row[j := x][1..] == row[1..][j - 1 := x];
    }
  }

  lemma {:induction false} RowsCountUpdate(rows: seq<seq<Cell>>, i: int, x: seq<Cell>, v: Cell)
    requires 0 <= i < |rows|
    ensures RowsCount(rows[i := x], v) == RowsCount(rows, v) - RowCount(rows[i], v) + RowCount(x, v)
  {
    if i == 0 {
      assert rows[i := x][1..] == rows[1..];
    } else {
      RowsCountUpdate(rows[1..], i - 1, x, v);
      assert rows[i := x][1..] == rows[1..][i - 1 := x];
    }
  }

  /** Overwriting one cell changes the count of state v by at most one, exactly
      as the old and new contents of that cell dictate. */
  lemma SetCellCount(g: Grid, p: Pos, x: Cell, v: Cell)
    requires OnBoard(p)
    ensures Count(SetCell(g, p, x), v) == Count(g, v) - Indicator(At(g, p) == v) + Indicator(x == v)
  {
    RowCountUpdate(g[p.row], p.col, x, v);
    RowsCountUpdate(g, p.row, g[p.row][p.col := x], v);
  }

  // ---------------------------------------------------------------------------
  // The initial board

  /** The four 2x2 corner blocks lie outside the cross. */
  predicate IsCorner(p: Pos) {
    (p.row < 2 || p.row >= 5) && (p.col < 2 || p.col >= 5)
  }

  const Center: Pos := Pos(3, 3)

  /** The cell the starting board holds at p. */
  function InitialCell(p: Pos): Cell {
    if IsCorner(p) then Impossible
    else if p == Center then Empty
    else Occupied
  }

  ghost predicate IsInitial(g: Grid) {
    forall p :: OnBoard(p) ==> At(g, p) == InitialCell(p)
  }

  /** The corner block that the loop of create_grid reaches for p: (row mod 5, col mod 5). */
  function CornerBase(p: Pos): Pos {
    Pos(if p.row >= 5 then p.row - 5 else p.row, if p.col >= 5 then p.col - 5 else p.col)
  }

  /** The base (r, c) was visited by the loop before iteration (row, column). */
  predicate Visited(b: Pos, row: int, column: int) {
    b.row < row || (b.row == row && b.col < column)
  }

  /** Builds the starting board: every cell Occupied, then the four corner
      blocks Impossible (the two-level loop over 0..2 writing four cells per
      step), then the centre Empty. */
  method CreateGrid() returns (g: Grid)
    ensures IsInitial(g)
  {
    g := seq(Size, _ => seq(Size, _ => Occupied));
    var row := 0;
    while row < 2
      invariant 0 <= row <= 2
      invariant forall p :: OnBoard(p) ==>
        At(g, p) == (if IsCorner(p) && Visited(CornerBase(p), row, 0) then Impossible else Occupied)
    {
      var column := 0;
      while column < 2
        invariant 0 <= column <= 2
        invariant forall p :: OnBoard(p) ==>
          At(g, p) == (if IsCorner(p) && Visited(CornerBase(p), row, column) then Impossible else Occupied)
      {
        g := SetCell(g, Pos(row, column), Impossible);
        g := SetCell(g, Pos(row + 5, column), Impossible);
        g := SetCell(g, Pos(row, column + 5), Impossible);
        g := SetCell(g, Pos(row + 5, column + 5), Impossible);
        column := column + 1;
      }
      row := row + 1;
    }
    g := SetCell(g, Center, Empty);
  }

  /** The starting board written out row by row. */
  const InitialRows: seq<seq<Cell>> := [
    [Impossible, Impossible, Occupied, Occupied, Occupied, Impossible, Impossible],
    [Impossible, Impossible, Occupied, Occupied, Occupied, Impossible, Impossible],
    [Occupied, Occupied, Occupied, Occupied, Occupied, Occupied, Occupied],
    [Occupied, Occupied, Occupied, Empty, Occupied, Occupied, Occupied],
    [Occupied, Occupied, Occupied, Occupied, Occupied, Occupied, Occupied],
    [Impossible, Impossible, Occupied, Occupied, Occupied, Impossible, Impossible],
    [Impossible, Impossible, Occupied, Occupied, Occupied, Impossible, Impossible]
  ]

  /** There is only one starting board. */
  lemma InitialIsUnique(g: Grid)
    requires IsInitial(g)
    ensures g == InitialRows
  {
    forall i | 0 <= i < Size
      ensures g[i] == InitialRows[i]
    {
      forall j | 0 <= j < Size
        ensures g[i][j] == InitialRows[i][j]
      {
        assert At(g, Pos(i, j)) == InitialCell(Pos(i, j));
      }
    }
  }

  /** Unfolds the count of a seven-row list into its row counts. */
  lemma SevenRows(rows: seq<seq<Cell>>, v: Cell)
    requires |rows| == 7
    ensures RowsCount(rows, v) == RowCount(rows[0], v) + RowCount(rows[1], v) + RowCount(rows[2], v)
      + RowCount(rows[3], v) + RowCount(rows[4], v) + RowCount(rows[5], v) + RowCount(rows[6], v)
  {
    forall k | 0 <= k < 7
      ensures RowsCount(rows[k..], v) == RowCount(rows[k], v) + RowsCount(rows[k + 1..], v)
    {
      assert rows[k..][1..] == rows[k + 1..];
    }
    assert rows[7..] == [];
  }

  /** The starting board holds 32 pegs, one empty cell and 16 unplayable cells. */
  lemma InitialCounts(g: Grid)
    requires IsInitial(g)
    ensures Count(g, Occupied) == 32
    ensures Count(g, Empty) == 1
    ensures Count(g, Impossible) == 16
  {
    InitialIsUnique(g);
    EdgeRowCounts();
    FullRowCounts();
    CentreRowCounts();
    SevenRows(InitialRows, Occupied);
    SevenRows(InitialRows, Empty);
    SevenRows(InitialRows, Impossible);
  }

  /** Cell counts of the rows through the corner blocks. */
  lemma EdgeRowCounts()
    ensures InitialRows[1] == InitialRows[5] == InitialRows[6] == InitialRows[0]
    ensures RowCount(InitialRows[0], Occupied) == 3 && RowCount(InitialRows[0], Empty) == 0
    ensures RowCount(InitialRows[0], Impossible) == 4
  {
  }

  /** Cell counts of the full rows next to the centre row. */
  lemma FullRowCounts()
    ensures InitialRows[4] == InitialRows[2]
    ensures RowCount(InitialRows[2], Occupied) == 7 && RowCount(InitialRows[2], Empty) == 0
    ensures RowCount(InitialRows[2], Impossible) == 0
  {
  }

  /** Cell counts of the centre row. */
  lemma CentreRowCounts()
    ensures RowCount(InitialRows[3], Occupied) == 6 && RowCount(InitialRows[3], Empty) == 1
    ensures RowCount(InitialRows[3], Impossible) == 0
  {
  }



  // ---------------------------------------------------------------------------
  // Display

  /** The two-character rendering of a cell used when the board is printed. */
  function Symbol(c: Cell): (s: string)
    ensures |s| == 2 && s[1] == ' '
  {
    match c
    case Impossible => "  "
    case Empty => "_ "
    case Occupied => "X "
  }

  /** Different cell states are printed differently. */
  lemma SymbolInjective(a: Cell, b: Cell)
    requires Symbol(a) == Symbol(b)
    ensures a == b
  {
  }
}

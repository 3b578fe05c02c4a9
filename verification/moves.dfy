/**
 A single jump: the legality test, the in-place application of a jump and its
 inverse. A jump moves the peg at the origin over an occupied neighbour into
 the empty cell two steps away, and removes the jumped-over peg.
 */
module Moves {
  import opened Board

  /** The cells a jump touches all lie on the board. */
  predicate Fits(m: Movement) {
    OnBoard(m.origin) && OnBoard(Step(m, 1)) && OnBoard(Step(m, 2))
  }

  /** The direction-specific range guard the legality test evaluates before it
      reads any neighbour: row >= 2 for North, row <= 4 for South, col <= 4 for
      East, col >= 2 for West. */
  predicate RangeGuard(m: Movement) {
    match m.direction
    case North => m.origin.row > 1
    case South => m.origin.row < 5
    case East => m.origin.col < 5
    case West => m.origin.col > 1
  }

  /** For an origin on the board, the range guard holds exactly when the whole jump fits. */
  lemma RangeGuardFits(m: Movement)
    requires OnBoard(m.origin)
    ensures RangeGuard(m) <==> Fits(m)
  {
  }

  /** The legality test. It reads the origin first, then only reads the
      neighbour cells once the range guard of the direction has held, so no
      origin on the board leads to an out-of-range read; it has no effect on
      the grid. A move is legal exactly when the origin holds a peg, the jump
      fits on the board, the jumped-over cell holds a peg and the landing cell
      is empty. */
  function IsMovable(g: Grid, m: Movement): (r: bool)
    requires OnBoard(m.origin)
    ensures r <==> && At(g, m.origin) == Occupied
                   && Fits(m)
                   && At(g, Step(m, 1)) == Occupied
                   && At(g, Step(m, 2)) == Empty
  {
    var (row, col) := (m.origin.row, m.origin.col);
    if g[row][col] != Occupied then false
    else
      match m.direction
      case North => row > 1 && g[row - 1][col] == Occupied && g[row - 2][col] == Empty
      case South => row < 5 && g[row + 1][col] == Occupied && g[row + 2][col] == Empty
      case East => col < 5 && g[row][col + 1] == Occupied && g[row][col + 2] == Empty
      case West => col > 1 && g[row][col - 1] == Occupied && g[row][col - 2] == Empty
  }

  /** A peg never jumps from an unplayable (or empty) cell. */
  lemma ImpossibleOriginIllegal(g: Grid, m: Movement)
    requires OnBoard(m.origin)
    requires At(g, m.origin) != Occupied
    ensures !IsMovable(g, m)
  {
  }

  /** The shape a grid has right after the jump m: origin and jumped cell
      empty, landing cell occupied. */
  predicate JustJumped(g: Grid, m: Movement)
    requires Fits(m)
  {
    && At(g, m.origin) == Empty
    && At(g, Step(m, 1)) == Empty
    && At(g, Step(m, 2)) == Occupied
  }

  /** Applies a jump: origin and jumped-over cell become Empty, the landing
      cell becomes Occupied, and no other cell changes. The jump is not
      checked for legality. */
  function PutPiece(g: Grid, m: Movement): Grid
    requires Fits(m)
  {
    var (row, col) := (m.origin.row, m.origin.col);
    var (over, landing) := match m.direction
      case North => (Pos(row - 1, col), Pos(row - 2, col))
      case South => (Pos(row + 1, col), Pos(row + 2, col))
      case West => (Pos(row, col - 1), Pos(row, col - 2))
      case East => (Pos(row, col + 1), Pos(row, col + 2));
    SetCell(SetCell(SetCell(g, m.origin, Empty), over, Empty), landing, Occupied)
  }

  /** Takes a jump back: origin and jumped-over cell become Occupied, the
      landing cell becomes Empty, and no other cell changes. It does not check
      that the jump was made. */
  function UndoMove(g: Grid, m: Movement): Grid
    requires Fits(m)
  {
    var (row, col) := (m.origin.row, m.origin.col);
    var (over, landing) := match m.direction
      case North => (Pos(row - 1, col), Pos(row - 2, col))
      case South => (Pos(row + 1, col), Pos(row + 2, col))
      case West => (Pos(row, col - 1), Pos(row, col - 2))
      case East => (Pos(row, col + 1), Pos(row, col + 2));
    SetCell(SetCell(SetCell(g, m.origin, Occupied), over, Occupied), landing, Empty)
  }

  /** The effect of PutPiece, cell by cell: origin and jumped-over cell
      Empty, landing cell Occupied, every other cell unchanged. */
  lemma PutPieceEffect(g: Grid, m: Movement)
    requires Fits(m)
    ensures forall p :: OnBoard(p) ==>
      At(PutPiece(g, m), p) == (if p == m.origin || p == Step(m, 1) then Empty
                                else if p == Step(m, 2) then Occupied
                                else At(g, p))
  {
  }

  /** The effect of UndoMove, cell by cell: origin and jumped-over cell
      Occupied, landing cell Empty, every other cell unchanged. */
  lemma UndoMoveEffect(g: Grid, m: Movement)
    requires Fits(m)
    ensures forall p :: OnBoard(p) ==>
      At(UndoMove(g, m), p) == (if p == m.origin || p == Step(m, 1) then Occupied
                                else if p == Step(m, 2) then Empty
                                else At(g, p))
  {
  }

  /** A legal jump moves the grid into the just-jumped shape. */
  lemma PutPieceJumps(g: Grid, m: Movement)
    requires OnBoard(m.origin) && IsMovable(g, m)
    ensures JustJumped(PutPiece(g, m), m)
  {
    StepsDistinct(m);
  }

  /** Undoing a legal jump right after making it gives back the grid. */
  lemma UndoAfterPut(g: Grid, m: Movement)
    requires OnBoard(m.origin) && IsMovable(g, m)
    ensures UndoMove(PutPiece(g, m), m) == g
  {
    StepsDistinct(m);
    GridExt(UndoMove(PutPiece(g, m), m), g);
  }

  /** Conversely, undoing a jump from the just-jumped shape yields a grid on
      which the jump is legal and whose application gives back the grid. */
  lemma PutAfterUndo(g: Grid, m: Movement)
    requires Fits(m) && JustJumped(g, m)
    ensures IsMovable(UndoMove(g, m), m)
    ensures PutPiece(UndoMove(g, m), m) == g
  {
    StepsDistinct(m);
    GridExt(PutPiece(UndoMove(g, m), m), g);
  }

  /** A legal jump never turns a cell into, or out of, Impossible. */
  lemma PutPieceKeepsShape(g: Grid, m: Movement)
    requires OnBoard(m.origin) && IsMovable(g, m)
    ensures forall p :: OnBoard(p) ==> (At(PutPiece(g, m), p) == Impossible <==> At(g, p) == Impossible)
  {
  }

  /** Writes the three cells of a jump one after another. */
  function WriteJump(g: Grid, m: Movement, a: Cell, b: Cell, c: Cell): Grid
    requires Fits(m)
  {
    SetCell(SetCell(SetCell(g, m.origin, a), Step(m, 1), b), Step(m, 2), c)
  }

  /** How the count of state v changes when the three cells of a jump are
      overwritten with a, b and c. */
  lemma WriteJumpCount(g: Grid, m: Movement, a: Cell, b: Cell, c: Cell, v: Cell)
    requires Fits(m)
    ensures Count(WriteJump(g, m, a, b, c), v) ==
      Count(g, v)
      - Indicator(At(g, m.origin) == v) - Indicator(At(g, Step(m, 1)) == v) - Indicator(At(g, Step(m, 2)) == v)
      + Indicator(a == v) + Indicator(b == v) + Indicator(c == v)
  {
    StepsDistinct(m);
    var g1 := SetCell(g, m.origin, a);
    var g2 := SetCell(g1, Step(m, 1), b);
    SetCellCount(g, m.origin, a, v);
    SetCellCount(g1, Step(m, 1), b, v);
    SetCellCount(g2, Step(m, 2), c, v);
  }

  /** A legal jump removes exactly one peg, adds exactly one empty cell and
      leaves the number of unplayable cells alone. */
  lemma PutPieceCount(g: Grid, m: Movement)
    requires OnBoard(m.origin) && IsMovable(g, m)
    ensures Count(PutPiece(g, m), Occupied) == Count(g, Occupied) - 1
    ensures Count(PutPiece(g, m), Empty) == Count(g, Empty) + 1
    ensures Count(PutPiece(g, m), Impossible) == Count(g, Impossible)
  {
    StepsDistinct(m);
    GridExt(PutPiece(g, m), WriteJump(g, m, Empty, Empty, Occupied));
    WriteJumpCount(g, m, Empty, Empty, Occupied, Occupied);
    WriteJumpCount(g, m, Empty, Empty, Occupied, Empty);
    WriteJumpCount(g, m, Empty, Empty, Occupied, Impossible);
  }

  /** Undoing a jump from the just-jumped shape puts back exactly one peg. */
  lemma UndoMoveCount(g: Grid, m: Movement)
    requires Fits(m) && JustJumped(g, m)
    ensures Count(UndoMove(g, m), Occupied) == Count(g, Occupied) + 1
    ensures Count(UndoMove(g, m), Empty) == Count(g, Empty) - 1
    ensures Count(UndoMove(g, m), Impossible) == Count(g, Impossible)
  {
    StepsDistinct(m);
    GridExt(UndoMove(g, m), WriteJump(g, m, Occupied, Occupied, Empty));
    WriteJumpCount(g, m, Occupied, Occupied, Empty, Occupied);
    WriteJumpCount(g, m, Occupied, Occupied, Empty, Empty);
    WriteJumpCount(g, m, Occupied, Occupied, Empty, Impossible);
  }
}

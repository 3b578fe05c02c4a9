/**
 The depth-first backtracking search. One grid is threaded through the whole
 recursion: each candidate jump is applied, the search recurses one level
 deeper, and the jump is taken back before the result is inspected. The
 mutable borrow in src/main.rs is modelled by passing the grid in and handing
 the (restored) grid back out.
 */
module Search {
  import opened Board
  import opened Moves

  /** Number of jumps that reduce 32 pegs to one. */
  const MaxDepth: nat := 31

  /** Result of a search (DEFEAT = 0 and VICTORY = 1 in src/main.rs). */
  datatype Outcome = Defeat | Victory

  /** The jump m is legal on g and the game can be finished after it. */
  ghost predicate Wins(g: Grid, m: Movement, depth: nat)
    decreases Count(g, Occupied), 0
  {
    && OnBoard(m.origin)
    && IsMovable(g, m)
    && (PutPieceCount(g, m); Solvable(PutPiece(g, m), depth + 1))
  }

  /** The game is won from g at the given depth: either depth has reached
      MaxDepth, or some legal jump leads to a position that is won one level
      deeper. This is what the search decides, stated without any order. */
  ghost predicate Solvable(g: Grid, depth: nat)
    decreases Count(g, Occupied), 1
  {
    depth == MaxDepth || exists m :: Wins(g, m, depth)
  }

  /** Index of a direction in the order the search tries them. */
  function DirIndex(d: Direction): (i: int)
    ensures 0 <= i < |Directions| && Directions[i] == d
  {
    Code(d) - 1
  }

  /** The candidate m comes before candidate (row, col, Directions[i]) in the
      search's order: rows top to bottom, columns left to right, directions
      North, West, South, East. */
  predicate Before(m: Movement, row: int, col: int, i: int) {
    || m.origin.row < row
    || (m.origin.row == row && m.origin.col < col)
    || (m.origin.row == row && m.origin.col == col && DirIndex(m.direction) < i)
  }

  /** The recursive driver. At MaxDepth it reports Victory at once. Otherwise
      it tries every candidate in order; for a legal one it applies the jump,
      recurses, undoes the jump whatever the result, and returns Victory as
      soon as a recursive call did. If no candidate succeeds it returns Defeat.
      On every path the grid handed back is the grid received. */
  method GameRecursion(grid: Grid, depth: nat) returns (result: Outcome, restored: Grid)
    ensures restored == grid
    ensures depth == MaxDepth ==> result == Victory
    ensures result == Victory <==> Solvable(grid, depth)
    decreases Count(grid, Occupied)
  {
    restored := grid;
    if depth == MaxDepth {
      return Victory, restored;
    }
    var row := 0;
    while row < Size
      invariant 0 <= row <= Size
      invariant restored == grid
      invariant forall m: Movement :: OnBoard(m.origin) && Before(m, row, 0, 0) ==> !Wins(grid, m, depth)
    {
      var col := 0;
      while col < Size
        invariant 0 <= col <= Size
        invariant restored == grid
        invariant forall m: Movement :: OnBoard(m.origin) && Before(m, row, col, 0) ==> !Wins(grid, m, depth)
      {
        var i := 0;
        while i < |Directions|
          invariant 0 <= i <= |Directions|
          invariant restored == grid
          invariant forall m: Movement :: OnBoard(m.origin) && Before(m, row, col, i) ==> !Wins(grid, m, depth)
        {
          var movement := Movement(Pos(row, col), Directions[i]);
          assert DirIndex(movement.direction) == i;
          if IsMovable(restored, movement) {
            restored := PutPiece(restored, movement);
            PutPieceCount(grid, movement);
            var r;
            r, restored := GameRecursion(restored, depth + 1);
            restored := UndoMove(restored, movement);
            UndoAfterPut(grid, movement);
            if r == Victory {
              assert Wins(grid, movement, depth);
              return Victory, restored;
            }
          }
          assert !Wins(grid, movement, depth);
          i := i + 1;
        }
        col := col + 1;
      }
      row := row + 1;
    }
    return Defeat, restored;
  }

  // ---------------------------------------------------------------------------
  // Sequences of jumps

  /** Every jump of ms is legal when it is made, starting from g. */
  predicate LegalPlay(g: Grid, ms: seq<Movement>)
    decreases |ms|
  {
    ms == [] || (OnBoard(ms[0].origin) && IsMovable(g, ms[0]) && LegalPlay(PutPiece(g, ms[0]), ms[1..]))
  }

  /** The grid reached by making the jumps of ms in turn. */
  function Play(g: Grid, ms: seq<Movement>): Grid
    requires LegalPlay(g, ms)
    decreases |ms|
  {
    if ms == [] then g else Play(PutPiece(g, ms[0]), ms[1..])
  }

  /** Each jump of a legal play removes one peg. */
  lemma {:induction false} PlayCount(g: Grid, ms: seq<Movement>)
    requires LegalPlay(g, ms)
    ensures Count(Play(g, ms), Occupied) == Count(g, Occupied) - |ms|
    decreases |ms|
  {
    if ms != [] {
      PutPieceCount(g, ms[0]);
      PlayCount(PutPiece(g, ms[0]), ms[1..]);
    }
  }

  /** No cell turns into, or out of, Impossible during a legal play. */
  lemma {:induction false} PlayKeepsShape(g: Grid, ms: seq<Movement>)
    requires LegalPlay(g, ms)
    ensures forall p :: OnBoard(p) ==> (At(Play(g, ms), p) == Impossible <==> At(g, p) == Impossible)
    decreases |ms|
  {
    if ms != [] {
      PutPieceKeepsShape(g, ms[0]);
      PlayKeepsShape(PutPiece(g, ms[0]), ms[1..]);
    }
  }

  /** A legal jump followed by a legal play is a legal play. */
  lemma LegalPlayCons(g: Grid, m: Movement, rest: seq<Movement>)
    requires OnBoard(m.origin) && IsMovable(g, m) && LegalPlay(PutPiece(g, m), rest)
    ensures LegalPlay(g, [m] + rest)
  {
    assert ([m] + rest)[1..] == rest;
  }

  /** A won position has a legal play of the remaining number of jumps. */
  lemma {:induction false} SolvableHasPlay(g: Grid, depth: nat)
    requires depth <= MaxDepth && Solvable(g, depth)
    ensures exists ms :: |ms| == MaxDepth - depth && LegalPlay(g, ms)
    decreases MaxDepth - depth
  {
    if depth == MaxDepth {
      assert LegalPlay(g, []);
    } else {
      var m :| Wins(g, m, depth);
      SolvableHasPlay(PutPiece(g, m), depth + 1);
      var rest :| |rest| == MaxDepth - (depth + 1) && LegalPlay(PutPiece(g, m), rest);
      LegalPlayCons(g, m, rest);
    }
  }

  /** A legal jump into a won position makes the position before it won. */
  lemma WinsIntro(g: Grid, m: Movement, depth: nat)
    requires OnBoard(m.origin) && IsMovable(g, m)
    requires Solvable(PutPiece(g, m), depth + 1)
    ensures Solvable(g, depth)
  {
    assert Wins(g, m, depth);
  }

  /** A legal play of the remaining number of jumps makes the position won. */
  lemma {:induction false} PlayMakesSolvable(g: Grid, depth: nat, ms: seq<Movement>)
    requires depth <= MaxDepth
    requires |ms| == MaxDepth - depth && LegalPlay(g, ms)
    ensures Solvable(g, depth)
    decreases |ms|
  {
    if ms == [] {
      assert depth == MaxDepth;
    } else {
      PlayMakesSolvable(PutPiece(g, ms[0]), depth + 1, ms[1..]);
      WinsIntro(g, ms[0], depth);
    }
  }

  /** The game is won from g at a depth not beyond MaxDepth exactly when some
      legal play of MaxDepth - depth jumps starts from g. */
  lemma SolvableIffPlay(g: Grid, depth: nat)
    requires depth <= MaxDepth
    ensures Solvable(g, depth) <==> exists ms :: |ms| == MaxDepth - depth && LegalPlay(g, ms)
  {
    if Solvable(g, depth) {
      SolvableHasPlay(g, depth);
    }
    if ms :| |ms| == MaxDepth - depth && LegalPlay(g, ms) {
      PlayMakesSolvable(g, depth, ms);
    }
  }

  /** Past MaxDepth the search can never succeed. */
  lemma {:induction false} BeyondMaxDepth(g: Grid, depth: nat)
    requires depth > MaxDepth
    ensures !Solvable(g, depth)
    decreases Count(g, Occupied)
  {
    forall m | Wins(g, m, depth)
      ensures false
    {
      PutPieceCount(g, m);
      BeyondMaxDepth(PutPiece(g, m), depth + 1);
    }
  }

  /** A position with no legal jump, short of MaxDepth, is lost. */
  lemma DeadEnd(g: Grid, depth: nat)
    requires depth != MaxDepth
    requires forall m: Movement :: OnBoard(m.origin) ==> !IsMovable(g, m)
    ensures !Solvable(g, depth)
  {
  }

  // ---------------------------------------------------------------------------
  // The game from the starting board

  /** Along any legal play from the starting board the peg count is 32 minus the
      number of jumps made: the board reached after d legal jumps holds 32 - d pegs. */
  lemma PegsAtDepth(g: Grid, ms: seq<Movement>)
    requires IsInitial(g) && LegalPlay(g, ms)
    ensures Count(Play(g, ms), Occupied) == 32 - |ms|
  {
    InitialCounts(g);
    PlayCount(g, ms);
  }

  /** Along any legal play from the starting board the unplayable cells are
      exactly the four corner blocks. */
  lemma CornersStayUnplayable(g: Grid, ms: seq<Movement>)
    requires IsInitial(g) && LegalPlay(g, ms)
    ensures forall p :: OnBoard(p) ==> (At(Play(g, ms), p) == Impossible <==> IsCorner(p))
  {
    PlayKeepsShape(g, ms);
  }

  /** The first legal candidate in the search's order on the starting board is
      the jump from (1, 3) South, over (2, 3) into the centre. */
  lemma FirstMoveFromStart(g: Grid)
    requires IsInitial(g)
    ensures IsMovable(g, Movement(Pos(1, 3), South))
    ensures forall m: Movement :: OnBoard(m.origin) && Before(m, 1, 3, DirIndex(South)) ==> !IsMovable(g, m)
  {
    forall m: Movement | OnBoard(m.origin) && Before(m, 1, 3, DirIndex(South))
      ensures !IsMovable(g, m)
    {
      assert At(g, m.origin) == InitialCell(m.origin);
      if Fits(m) {
        assert At(g, Step(m, 1)) == InitialCell(Step(m, 1));
        assert At(g, Step(m, 2)) == InitialCell(Step(m, 2));
      }
    }
    assert At(g, Pos(1, 3)) == InitialCell(Pos(1, 3));
    assert At(g, Pos(2, 3)) == InitialCell(Pos(2, 3));
    assert At(g, Pos(3, 3)) == InitialCell(Pos(3, 3));
  }

  /** The whole program without its printing and timing: build the starting
      board and search from depth 0. Victory means a play of 31 legal jumps
      exists, and every such play leaves exactly one peg. */
  method Solve() returns (result: Outcome, grid: Grid)
    ensures IsInitial(grid)
    ensures result == Victory <==> exists ms :: |ms| == MaxDepth && LegalPlay(grid, ms)
    ensures forall ms :: |ms| == MaxDepth && LegalPlay(grid, ms) ==> Count(Play(grid, ms), Occupied) == 1
  {
    grid := CreateGrid();
    result, grid := GameRecursion(grid, 0);
    SolvableIffPlay(grid, 0);
    forall ms | |ms| == MaxDepth && LegalPlay(grid, ms)
      ensures Count(Play(grid, ms), Occupied) == 1
    {
      PegsAtDepth(grid, ms);
    }
  }
}

# Peg solitaire solver, modelled in Dafny

The program solves English peg solitaire by exhaustive backtracking. The board is a
7x7 grid shaped like a cross. The four 2x2 corner blocks are unplayable, which leaves
33 playable cells. At the start, 32 of them hold a peg and the centre (3, 3) is empty.
A jump moves a peg over an orthogonally adjacent peg into the empty cell beyond, and
the jumped peg is removed. The game is won after 31 jumps, when one peg remains.

The model has three modules:

- `Board` (`board.dfy`): cell states, directions, positions and movements; the 7x7
  grid as an immutable value; cell counting; the starting board and its builder
  `CreateGrid`; the cell-to-symbol table used when the board is printed.
- `Moves` (`moves.dfy`): the legality test `IsMovable`, the jump `PutPiece` and its
  inverse `UndoMove`, with their effect, round-trip and peg-count lemmas.
- `Search` (`search.dfy`): the recursive driver `GameRecursion`, the order-free
  specification `Solvable` it decides, legal plays (sequences of jumps), and `Solve`,
  which is the program's entry point without printing and timing.

The Rust program passes one grid buffer to every level of the recursion by mutable
reference. The model passes the grid in as a value and hands the grid back out. So
the property "the buffer is restored before every return" is stated as
`restored == grid`.

The numeric codes of the Rust program become closed datatypes: `Cell` (1, 2, 3) and
`Direction` (North = 1, West = 2, South = 3, East = 4). The search's direction loop
`NORTH..=EAST` therefore tries North, West, South, East in that order. With closed
datatypes, the `panic!()` arm of `is_movable` and the empty `_` arms of `put_piece`
and `undo_move` cannot be reached, so the model has no counterpart for them.
The program's `VICTORY`/`DEFEAT` results become the datatype `Outcome`.

Three facts about the code shape the model:

- `undo_move` runs unconditionally before the recursive result is inspected
  (src/main.rs:47-53). `GameRecursion` therefore returns the grid exactly as it
  received it, on the Victory path as well as the Defeat path; the winning board is
  not left in place.
- The direction loop `NORTH..=EAST` iterates over the codes 1 to 4 (src/main.rs:12-15,
  44), which is North, West, South, East.
- The starting board holds 32 pegs, so the board reached after d legal jumps holds
  32 minus d pegs (`Search.PegsAtDepth`).

## Model

| member | source | states |
|---|---|---|
| Board.Code | src/main.rs:12-15 | Each direction has a code from 1 to 4, and the search's direction list holds it at position code - 1, so iterating over the codes visits North, West, South, East |
| Board.CreateGrid | src/main.rs:133-145 | The built board has Impossible on exactly the four 2x2 corner blocks, Empty at the centre (3, 3) and Occupied on every other cell |
| Board.InitialCounts | src/main.rs:133-145 | The starting board has 32 pegs, exactly one empty cell and 16 unplayable cells |
| Board.SymbolInjective | src/main.rs:150-154 | The three cell states print as three different symbols |
| Moves.IsMovable | src/main.rs:62-83 | A move is legal exactly when the origin holds a peg, the jump stays on the board, the jumped-over cell holds a peg and the landing cell is empty; for any origin on the board, no read falls outside the grid |
| Moves.RangeGuardFits | src/main.rs:67-79 | For an origin on the board, the direction's guard (row > 1 for North, row < 5 for South, col < 5 for East, col > 1 for West) holds exactly when the jumped and landing cells lie on the board |
| Moves.ImpossibleOriginIllegal | src/main.rs:64-66 | A move whose origin holds no peg, for example an unplayable corner such as (0, 0), is illegal in every direction |
| Moves.PutPieceEffect | src/main.rs:109-131 | Applying a jump empties the origin and the jumped-over cell, fills the landing cell, and changes no other cell |
| Moves.UndoMoveEffect | src/main.rs:85-107 | Undoing a jump fills the origin and the jumped-over cell, empties the landing cell, and changes no other cell |
| Moves.PutPieceJumps | src/main.rs:109-131 | After a legal jump, the origin and the jumped-over cell are Empty and the landing cell is Occupied (Occupied to Empty, Occupied to Empty, Empty to Occupied) |
| Moves.UndoAfterPut | src/main.rs:85-131 | Undoing a legal jump right after applying it gives back exactly the original grid |
| Moves.PutAfterUndo | src/main.rs:85-131 | From a grid just after a jump, undoing the jump makes it legal again, and re-applying it gives back the grid |
| Moves.PutPieceKeepsShape | src/main.rs:109-131 | A legal jump never turns a cell into or out of Impossible |
| Moves.PutPieceCount | src/main.rs:109-131 | A legal jump removes exactly one peg, adds exactly one empty cell and keeps the number of unplayable cells |
| Moves.UndoMoveCount | src/main.rs:85-107 | Undoing a jump puts back exactly one peg and removes exactly one empty cell |
| Search.GameRecursion | src/main.rs:36-60 | The grid handed back equals the grid received, on every path; at depth 31 the result is Victory; otherwise the result is Victory exactly when some legal jump leads to a position from which the search wins one level deeper. The recursion terminates because each level down holds one peg fewer |
| Search.PlayCount | src/main.rs:46-49 | After a legal play of n jumps the board holds n fewer pegs |
| Search.PlayKeepsShape | src/main.rs:46-49 | No cell turns into or out of Impossible during a legal play |
| Search.SolvableIffPlay | src/main.rs:36-59 | The search wins from a depth of at most 31 exactly when some sequence of 31 - depth jumps is legal one after another |
| Search.BeyondMaxDepth | src/main.rs:37-59 | Starting past depth 31, the search can never report Victory |
| Search.DeadEnd | src/main.rs:42-59 | A position with no legal jump, short of depth 31, yields Defeat |
| Search.PegsAtDepth | src/main.rs:27-29 | The board reached from the starting board by a legal play of d jumps holds 32 - d pegs, so a play of 31 jumps leaves one peg |
| Search.CornersStayUnplayable | src/main.rs:27-29 | Along any legal play from the starting board, the unplayable cells stay exactly the four corner blocks |
| Search.FirstMoveFromStart | src/main.rs:42-48 | On the starting board, the first legal candidate in search order is the jump from (1, 3) heading South, into the centre |
| Search.Solve | src/main.rs:26-30 | Building the starting board and searching from depth 0 gives Victory exactly when a play of 31 legal jumps exists, and every such play leaves exactly one peg |

## Left out

- Console output is not modelled: `display_grid`, the "Solution trouvée" message and
  the elapsed-time line (src/main.rs:38-39, 51, 32, 147-160). Only the cell-to-symbol
  table is kept, as `Board.Symbol`. Because the undo at src/main.rs:49 comes before the
  display at src/main.rs:51, each frame on the Victory path that made a jump prints the
  board as it was before that frame's own jump. Only the depth-31 frame prints the
  winning board (src/main.rs:38-39).
- The wall-clock timing in `main` and the `cmd.exe /c pause` subprocess
  (src/main.rs:24-25, 31-33) are OS and clock I/O.
- The model does not prove that the search actually returns Victory on the starting
  board. That needs the exponential search to be run, not a static proof. `Search.Solve`
  states only what a Victory or Defeat result means.
- The raw `u8` codes for cells and directions, and the fallback arms for values outside
  them (src/main.rs:80, 105, 129), are replaced by closed datatypes.
- Search.GameRecursion: `depth` is an unbounded natural number, so the `u32` width of
  the Rust program's depth is not modelled. From the entry point the depth never exceeds 31.
- Moves.IsMovable: origins off the board are excluded by the precondition. In the Rust program
  they would make the first grid read panic; the only caller passes origins on the board.
- Moves.PutPiece and Moves.UndoMove: a jump whose cells leave the board is excluded by
  the precondition. In the Rust program the index arithmetic would underflow or run past the
  array and panic; the search only applies jumps that passed the legality test.

# Tetris game state, modelled in Dafny

This project models the game-state machine of a browser Tetris written in
plain JavaScript (`script.js`). The model covers:

- the playfield: visible rows 0..19 plus two buffer rows -2 and -1, by 10 columns;
- the seven tetrominoes and their matrices;
- the 7-bag piece generator;
- quarter-turn rotation;
- the placement check;
- locking a piece, with top-out;
- the bottom-up clearing of full rows;
- the arrow-key actions and the gravity counter.

Rendering and frame scheduling are not modelled.

The project has five modules:

- `Shapes` (`shapes.dfy`) holds the shape identities, the constant matrix table and
  `Rotate`. It proves the rotation algebra: the cell mapping, that four turns
  are the identity, and that only O is unchanged by one turn.
- `Bag` (`bag.dfy`) states one draw from the bag as the relation `Dealt`. It
  proves the 7-bag guarantee: seven draws from an empty bag deal each identity
  exactly once and leave the bag empty again. It also proves that the bag never
  holds an identity twice.
- `Playfield` (`playfield.dfy`) holds the board as a value (`seq<seq<Cell>>`,
  array row `k` = board row `k - 2`). It defines the row shift and the clearing
  scan `ClearFrom` as functions. It proves the closed form of the clearing
  result and the termination measure.
- `Pieces` (`pieces.dfy`) holds the falling piece record, the spawn rule, the
  placement predicate `Fits`, the top-out predicate and the locked board `Lock`.
- `Tetris` (`tetris.dfy`) holds the class `Game`. Its fields mirror the script's
  globals: `playfield`, a 22x10 `array2<Cell>`, plus `tetrominoSequence`,
  `tetromino`, `gameOver` and `count`. Each of its methods is proved against the
  specification functions above. `Valid()` is the invariant every method keeps:
  - the buffer rows are empty;
  - the piece is square and in bounds, with row >= -2;
  - the bag holds no identity twice;
  - the counter is below 36.

The random index of `getRandomInt` is a nondeterministic choice of any index of
the remaining list (`:|`), so the proofs hold for every outcome of the random
source.

## Model

| member | source | states |
|---|---|---|
| Shapes.ShapeMatrix | script.js:18-54 | each shape's matrix is square: 4x4 for I, 2x2 for O, 3x3 for the others (the table itself is the literal one) |
| Shapes.AllShapesOnce | script.js:83 | the generator's starting list holds every identity exactly once |
| Shapes.Rotate | script.js:116-122 | the result is square of the same size, and cell (i, j) of the input lands at (j, N - i): a clockwise quarter turn |
| Shapes.RotateTwice | script.js:116-122 | two turns are the half turn: cell (i, j) comes from (N - i, N - j) |
| Shapes.RotateFourTimes | script.js:116-122 | four turns give back the original matrix |
| Shapes.RotateFixesOnlyO | script.js:116-122 | one turn leaves a canonical matrix unchanged exactly when the shape is O |
| Bag.EachOnceIsPermutation | script.js:83-90 | "every identity exactly once" is the same as "a permutation of the seven" |
| Bag.EachOnceLength | script.js:83-90 | an ordering of the seven identities has length 7 |
| Bag.NoneDealt | script.js:83 | before any splice, the dealt part is empty and the list left holds all seven |
| Bag.DealAt | script.js:86-89 | splicing the entry at any index out of the list and pushing it keeps dealt + left equal to one copy of each identity |
| Bag.DealtAll | script.js:85-90 | when the list is exhausted, the pushed identities are each present once: a permutation of the seven |
| Bag.DealtKeepsInBag | script.js:94-99 | a draw keeps the bag free of repeated identities; after a refill 6 are left, otherwise one fewer than before |
| Bag.InBagBounds | script.js:94-99 | a bag without repeats is a sub-multiset of the seven and holds at most 7 pieces |
| Bag.FirstDraw | script.js:95-99 | the first draw from an empty bag deals one identity and leaves the other six |
| Bag.LaterDraw | script.js:99 | a draw from a non-empty bag moves its top entry to the dealt identities |
| Bag.SevenDraws | script.js:82-99 | seven consecutive draws starting from an empty bag deal every identity exactly once and leave the bag empty |
| Playfield.Shift | script.js:159-163 | one shift at row r: visible rows 0..r take the row above them, every other row keeps its contents |
| Playfield.ShiftDropsTen | script.js:155-168 | shifting out a full row (buffer empty) lowers the count of filled visible cells by exactly 10 |
| Playfield.ClearFrom | script.js:155-168 | the scan keeps the board well formed and the buffer empty, and leaves every row below the scan start unchanged |
| Playfield.ClearFullRows | script.js:155-168 | the whole pass keeps the board well formed and the buffer rows empty |
| Playfield.KeptNotFull | script.js:157 | none of the rows kept by the scan is full |
| Playfield.ClearedAfterShift | script.js:157-163 | shifting out a full row at r leaves the closed-form result of the scan from r unchanged |
| Playfield.ClearedPastRow | script.js:165-167 | moving the scan past a row that is not full leaves the closed-form result unchanged |
| Playfield.ClearFromResult | script.js:155-168 | the scan from row r yields: buffer, as many blank rows as full rows among 0..r, the other rows of 0..r in order, then rows below r unchanged |
| Playfield.ClearFullRowsResult | script.js:155-168 | after the pass the visible rows are one blank row per cleared row followed by the non-full rows in order, and no visible row is full |
| Pieces.Spawn | script.js:100-112 | a spawned piece has the drawn identity, the canonical matrix, row -1 for I and -2 otherwise, and column 10/2 - ceil(width/2): 3 for I and the 3-wide shapes, 4 for O |
| Pieces.SpawnPlacement | script.js:100-112 | a spawned piece is square and in bounds: every filled cell is on a board column and above row 20 |
| Pieces.SpawnTopsOut | script.js:141-147 | locking a piece where it spawned ends the game for every shape but I; the I piece's filled cells are all on row 0 |
| Pieces.Lock | script.js:142-152 | the locked board has the piece's identity under its filled cells and the old contents elsewhere; a piece with no filled cell above row 0 leaves the buffer rows as they were |
| Pieces.Fits | script.js:124-138 | the placement check as a predicate; with the buffer rows empty it holds exactly when every filled cell is on a board column, above row 20, and on an empty cell if it is on row 0 or below, for every placement |
| Pieces.FitsInBounds | script.js:124-138 | an accepted placement keeps every filled cell in a column 0..9 and above row 20 |
| Pieces.FitsAboveRowZero | script.js:124-138 | with the buffer empty, a placement whose filled cells are all above row 0 is accepted exactly when its columns are on the board |
| Tetris.Game.constructor | script.js:10-16 | the initial state is valid, has an empty 22x10 playfield, no game over, count 0, and a first piece spawned from a refilled bag |
| Tetris.Game.GenerateSequence | script.js:82-91 | the bag grows by 7, keeps its old contents as a prefix, and the 7 new entries are a permutation of the seven identities |
| Tetris.Game.NextTetromino | script.js:94-113 | the returned piece is the spawn of the identity dealt from the bag (refilled first when empty), and the bag keeps no repeats |
| Tetris.Game.IsValidMove | script.js:124-138 | returns true exactly when every filled cell is in a column 0..9, above row 20 and on an empty cell, buffer rows included |
| Tetris.Game.Move | script.js:188-196 | the piece moves by the column offset exactly when the moved placement is accepted, and is unchanged otherwise; the invariant holds |
| Tetris.Game.RotatePiece | script.js:198-203 | the piece takes the turned matrix exactly when the turned placement is accepted, and is unchanged otherwise; the invariant holds |
| Tetris.Game.ClearRows | script.js:155-168 | the playfield afterwards equals the clearing pass applied to the playfield before |
| Tetris.Game.RowFull | script.js:157 | the array row is reported full exactly when the corresponding row of the board value is full |
| Tetris.Game.ShiftDown | script.js:159-163 | the playfield afterwards equals one shift at the given row |
| Tetris.Game.WritePiece | script.js:142-152 | reports top-out exactly when a filled cell is above row 0; then nothing is written, otherwise the playfield becomes the locked board |
| Tetris.Game.PlaceTetromino | script.js:141-174 | a topped-out piece sets game over and changes no cell, piece or bag; otherwise the board becomes the locked board with full rows cleared and the next piece is dealt and spawned |
| Tetris.Game.Descend | script.js:205-213 | the piece moves one row down when that placement is accepted; otherwise it is locked at its current row |
| Tetris.Game.KeyDown | script.js:186-214 | once the game is over a key changes nothing; otherwise left/right move, up rotates, down descends, each with its own outcome; the invariant holds and the counter is unchanged |
| Tetris.Game.Tick | script.js:230-239 | a frame changes nothing once the game is over; otherwise the counter advances, and on the 36th frame it resets to 0 and the piece descends |

## Left out

- Canvas rendering is not modelled: the drawing in `loop` and in `showGameOver`, the `colors` table and the `grid` cell size. It is presentation only.
- `requestAnimationFrame`/`cancelAnimationFrame` are not modelled. A frame is the method `Tick`. After game over no frame is scheduled, so `Tick` is a no-op then.
- The distribution of `Math.random` is not modelled. The chosen index is arbitrary within the remaining list, so no claim about the probability of each ordering is made.
- Key codes and the `keydown` listener wiring are replaced by the `Action` datatype.
- Tetris.Game.IsValidMove: requires row >= -2. The script throws when a filled cell on a board column and above row 20 lands on row -3 or any row above it, since `playfield[r]` is undefined for r < -2 (script.js:127-131). A matrix whose top rows are empty can sit at row -3 without error; the model does not cover such calls. `Valid()` keeps the piece's row at -2 or more at every call.
- Line 68's `getNextTetromino+()` is read as a plain call to `getNextTetromino()`. That is what the constructor does.
- The gravity step increments the row, tests it and decrements it back (script.js:232-237). The model tests the row below without moving. The state afterwards is the same.

## Notes on the code

- The placement check looks up buffer cells like any other (script.js:131).
  Those cells are never written, so they are always empty. `Pieces.Fits`
  proves that, with the buffer rows empty, the check accepts exactly the
  placements that a check skipping every cell above row 0 would accept.
- A shift copies into rows 0 and below only (script.js:159-161). Row 0 takes
  row -1, which is always empty, and row -2 is never written. `Valid()` keeps
  both buffer rows empty throughout, through `Pieces.Lock` and
  `Playfield.ClearFrom`.
- A newly spawned piece is never checked for validity (script.js:169). An I
  piece spawns with its filled row on row 0 and may overlap occupied cells.
  `Placed` reflects this: the next piece is the spawn of the dealt identity,
  whatever the board holds.

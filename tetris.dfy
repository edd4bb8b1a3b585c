/**
 The game state machine: the playfield, the bag, the falling piece, the
 game-over flag and the frame counter, and the operations the key handler
 and the frame loop apply to them.
 */
module Tetris {
  import opened Shapes
  import opened Bag
  import opened Playfield
  import opened Pieces

  /** The four keys the game reacts to: left, right, up and down arrows. */
  datatype Action = MoveLeft | MoveRight | RotateCW | SoftDrop

  /** The frame counter runs 0..35; gravity fires when it would pass 35. */
  const GravityFrames := 36

  /**
   The piece becomes the candidate placement `q` exactly when `q` fits on
   board `b`; otherwise it stays `p0`.
   */
  ghost predicate Attempted(b: Board, p0: Piece, p1: Piece, q: Piece)
    requires WellFormed(b) && q.row >= -Buffer
  {
    p1 == if Fits(b, q.matrix, q.row, q.col) then q else p0
  }

  /**
   Locking piece `p0` on board `b0` with bag `bag0` gives board `b1`, piece
   `p1`, bag `bag1` and game-over flag `over`. A piece with a filled cell
   above row 0 ends the game and writes nothing; otherwise it is written
   into the board, full rows are cleared, and the next piece is drawn from
   the bag and spawned.
   */
  ghost predicate Placed(b0: Board, p0: Piece, bag0: seq<Shape>,
                         b1: Board, p1: Piece, bag1: seq<Shape>, over: bool)
    requires WellFormed(b0) && BufferEmpty(b0)
  {
    if TopsOut(p0) then
      over && b1 == b0 && p1 == p0 && bag1 == bag0
    else
      !over && b1 == ClearFullRows(Lock(b0, p0)) && p1 == Spawn(p1.name) && Dealt(bag0, bag1, p1.name)
  }

  /**
   One step down (soft drop or gravity): the piece moves one row down if it
   fits there; otherwise it stays on its row and is locked.
   */
  ghost predicate Dropped(b0: Board, p0: Piece, bag0: seq<Shape>,
                          b1: Board, p1: Piece, bag1: seq<Shape>, over: bool)
    requires WellFormed(b0) && BufferEmpty(b0) && p0.row >= -Buffer
  {
    if Fits(b0, p0.matrix, p0.row + 1, p0.col) then
      p1 == p0.(row := p0.row + 1) && b1 == b0 && bag1 == bag0 && !over
    else
      Placed(b0, p0, bag0, b1, p1, bag1, over)
  }

  /** Board cell (r, c) lies under filled cell (i, j) of `p` with (i, j) before (i0, j0) in row-major order. */
  ghost predicate CoversBefore(p: Piece, r: int, c: int, i0: int, j0: int)
  {
    var i, j := r - p.row, c - p.col;
    FilledAt(p.matrix, i, j) && (i < i0 || (i == i0 && j < j0))
  }

  class Game {
    /** Board rows -2..19 by 10 columns; board row r is array row r + Buffer. */
    const playfield: array2<Cell>
    /** The bag, a stack: pushed at the end, popped from the end. */
    var tetrominoSequence: seq<Shape>
    var tetromino: Piece
    var gameOver: bool
    var count: nat

    predicate Dims()
    {
      playfield.Length0 == Height && playfield.Length1 == Cols
    }

    /** The playfield as a value. */
    ghost function Cells(): (b: Board)
      reads playfield
      requires Dims()
      ensures WellFormed(b)
      ensures forall k, c :: 0 <= k < Height && 0 <= c < Cols ==> b[k][c] == playfield[k, c]
    {
      seq(Height, k requires 0 <= k < Height reads playfield =>
        seq(Cols, c requires 0 <= c < Cols reads playfield => playfield[k, c]))
    }

    /**
     The state invariant: the buffer rows are empty, the piece's matrix is
     square and its filled cells are in bounds, the bag is part of one
     7-bag, and the frame counter is below the gravity threshold.
     */
    ghost predicate Valid()
      reads this, playfield
    {
      Dims() && BufferEmpty(Cells()) &&
      IsSquare(tetromino.matrix) && InBounds(tetromino) &&
      InBag(tetrominoSequence) && count < GravityFrames
    }

    /** The initial state: an empty playfield, an empty bag, and a first piece drawn from it. */
    constructor ()
      ensures Valid() && !gameOver && count == 0
      ensures forall k, c :: 0 <= k < Height && 0 <= c < Cols ==> playfield[k, c] == Empty
      ensures tetromino == Spawn(tetromino.name) && Dealt([], tetrominoSequence, tetromino.name)
    {
      playfield := new Cell[Height, Cols]((k, c) => Empty);
      tetrominoSequence := [];
      count := 0;
      gameOver := false;
      new;
      assert BufferEmpty(Cells());
      tetromino := NextTetromino();
      SpawnPlacement(tetromino.name);
    }

    /**
     Refills the bag: repeatedly takes a randomly chosen remaining identity
     out of the seven and pushes it, so exactly the seven identities are
     pushed, in some order.
     */
    method GenerateSequence()
      modifies this`tetrominoSequence
      ensures |tetrominoSequence| == |old(tetrominoSequence)| + 7
      ensures tetrominoSequence[..|old(tetrominoSequence)|] == old(tetrominoSequence)
      ensures multiset(tetrominoSequence[|old(tetrominoSequence)|..]) == multiset(AllShapes)
      ensures EachOnce(tetrominoSequence[|old(tetrominoSequence)|..])
    {
      ghost var n := |tetrominoSequence|;
      var sequence := AllShapes;
      NoneDealt();
      while |sequence| > 0
        invariant n <= |tetrominoSequence| == n + 7 - |sequence|
        invariant tetrominoSequence[..n] == old(tetrominoSequence)
        invariant Splits(tetrominoSequence[n..], sequence)
      {
        // the random index: any position of what is left
        var rand :| 0 <= rand < |sequence|;
        var name := sequence[rand];
        DealAt(tetrominoSequence[n..], sequence, rand);
        sequence := sequence[..rand] + sequence[rand + 1..];
        assert (tetrominoSequence + [name])[n..] == tetrominoSequence[n..] + [name];
        tetrominoSequence := tetrominoSequence + [name];
      }
      DealtAll(tetrominoSequence[n..]);
    }

    /**
     Draws the next piece: refills the bag if it is empty, pops its top,
     and spawns that shape.
     */
    method NextTetromino() returns (p: Piece)
      requires InBag(tetrominoSequence)
      modifies this`tetrominoSequence
      ensures InBag(tetrominoSequence)
      ensures p == Spawn(p.name) && Dealt(old(tetrominoSequence), tetrominoSequence, p.name)
    {
      if |tetrominoSequence| == 0 {
        GenerateSequence();
        assert tetrominoSequence[0..] == tetrominoSequence;
      }
      ghost var full := tetrominoSequence;
      var name := tetrominoSequence[|tetrominoSequence| - 1];
      tetrominoSequence := tetrominoSequence[..|tetrominoSequence| - 1];
      p := Spawn(name);
      assert tetrominoSequence + [name] == full;
      DealtKeepsInBag(old(tetrominoSequence), tetrominoSequence, name);
    }

    /**
     The placement check as a scan of the matrix, row by row, that stops at
     the first filled cell that is off the board's columns, below the floor,
     or on an occupied cell.
     */
    method IsValidMove(m: Matrix, r: int, c: int) returns (ok: bool)
      requires Dims() && r >= -Buffer
      ensures ok == Fits(Cells(), m, r, c)
    {
      var i := 0;
      while i < |m|
        invariant 0 <= i <= |m|
        invariant forall i', j :: FilledAt(m, i', j) && i' < i ==>
                    0 <= c + j < Cols && r + i' < Rows && playfield[r + i' + Buffer, c + j] == Empty
      {
        var j := 0;
        while j < |m[i]|
          invariant 0 <= j <= |m[i]|
          invariant forall i', j' :: FilledAt(m, i', j') && (i' < i || (i' == i && j' < j)) ==>
                      0 <= c + j' < Cols && r + i' < Rows && playfield[r + i' + Buffer, c + j'] == Empty
        {
          if m[i][j] && (c + j < 0 || c + j >= Cols || r + i >= Rows || playfield[r + i + Buffer, c + j] != Empty) {
            assert FilledAt(m, i, j);
            return false;
          }
          j := j + 1;
        }
        i := i + 1;
      }
      return true;
    }

    /**
     Moves the piece `dc` columns if the piece fits there (the left and
     right arrows move by -1 and +1).
     */
    method Move(dc: int)
      requires Valid()
      modifies this`tetromino
      ensures Valid()
      ensures Attempted(Cells(), old(tetromino), tetromino, old(tetromino).(col := old(tetromino).col + dc))
    {
      var col := tetromino.col + dc;
      var ok := IsValidMove(tetromino.matrix, tetromino.row, col);
      if ok {
        FitsInBounds(Cells(), tetromino.(col := col));
        tetromino := tetromino.(col := col);
      }
    }

    /** Turns the piece a quarter clockwise if the turned matrix fits where the piece is. */
    method RotatePiece()
      requires Valid()
      modifies this`tetromino
      ensures Valid()
      ensures Attempted(Cells(), old(tetromino), tetromino, old(tetromino).(matrix := Rotate(old(tetromino).matrix)))
    {
      var matrix := Rotate(tetromino.matrix);
      var ok := IsValidMove(matrix, tetromino.row, tetromino.col);
      if ok {
        FitsInBounds(Cells(), tetromino.(matrix := matrix));
        tetromino := tetromino.(matrix := matrix);
      }
    }

    /**
     Removes every full visible row, scanning from the bottom: a full row is
     overwritten by the rows above it and the same row is examined again.
     */
    method ClearRows()
      requires Dims() && BufferEmpty(Cells())
      modifies playfield
      ensures Cells() == ClearFullRows(old(Cells()))
    {
      var row := Rows - 1;
      while row >= 0
        invariant -1 <= row < Rows
        invariant BufferEmpty(Cells())
        invariant ClearFrom(Cells(), row) == ClearFullRows(old(Cells()))
        decreases row + 1, FilledCells(Cells()[Buffer..])
      {
        if RowFull(row + Buffer) {
          ghost var before := Cells();
          assert FullRow(before[row + Buffer]);
          ShiftDown(row);
          ShiftDropsTen(before, row);
        } else {
          assert !FullRow(Cells()[row + Buffer]);
          row := row - 1;
        }
      }
    }

    /** Whether every cell of array row `k` is occupied. */
    predicate RowFull(k: int): (full: bool)
      reads playfield
      requires Dims() && 0 <= k < Height
      ensures full == FullRow(Cells()[k])
    {
      forall c | 0 <= c < Cols :: playfield[k, c] != Empty
    }

    /** Every row from `row` up to 0 takes the contents of the row above it. */
    method ShiftDown(row: int)
      requires Dims() && 0 <= row < Rows
      modifies playfield
      ensures Cells() == Shift(old(Cells()), row)
    {
      var r := row;
      while r >= 0
        invariant -1 <= r <= row
        invariant forall k, c :: 0 <= k < Height && 0 <= c < Cols ==>
                    playfield[k, c] == if r + Buffer < k <= row + Buffer then old(playfield[k - 1, c]) else old(playfield[k, c])
      {
        var c := 0;
        while c < Cols
          invariant 0 <= c <= Cols
          invariant forall k, c' :: 0 <= k < Height && 0 <= c' < Cols ==>
                      playfield[k, c'] == if r + Buffer < k <= row + Buffer || (k == r + Buffer && c' < c)
                                          then old(playfield[k - 1, c']) else old(playfield[k, c'])
        {
          playfield[r + Buffer, c] := playfield[r + Buffer - 1, c];
          c := c + 1;
        }
        r := r - 1;
      }
      SameBoard(Cells(), Shift(old(Cells()), row));
    }

    /**
     Writes the piece into the playfield, scanning its filled cells top row
     first. The scan stops at the first filled cell above row 0, and since
     the rows are scanned from the top, nothing has been written then.
     */
    method WritePiece() returns (toppedOut: bool)
      requires Valid()
      modifies playfield
      ensures toppedOut == TopsOut(tetromino)
      ensures Cells() == if toppedOut then old(Cells()) else Lock(old(Cells()), tetromino)
    {
      var p := tetromino;
      var m := p.matrix;
      var i := 0;
      while i < |m|
        invariant 0 <= i <= |m|
        invariant forall i', j' :: FilledAt(m, i', j') && i' < i ==> p.row + i' >= 0
        invariant forall k, c :: 0 <= k < Height && 0 <= c < Cols ==>
                    playfield[k, c] == if CoversBefore(p, k - Buffer, c, i, 0) then Filled(p.name) else old(playfield[k, c])
      {
        var j := 0;
        while j < |m[i]|
          invariant 0 <= j <= |m[i]|
          invariant forall i', j' :: FilledAt(m, i', j') && (i' < i || (i' == i && j' < j)) ==> p.row + i' >= 0
          invariant forall k, c :: 0 <= k < Height && 0 <= c < Cols ==>
                      playfield[k, c] == if CoversBefore(p, k - Buffer, c, i, j) then Filled(p.name) else old(playfield[k, c])
        {
          if m[i][j] {
            assert FilledAt(m, i, j);
            if p.row + i < 0 {
              SameBoard(Cells(), old(Cells()));
              return true;
            }
            playfield[p.row + i + Buffer, p.col + j] := Filled(p.name);
          }
          j := j + 1;
        }
        i := i + 1;
      }
      SameBoard(Cells(), Lock(old(Cells()), p));
      return false;
    }

    /**
     Locks the piece: a piece with a filled cell above row 0 ends the game
     with nothing written; otherwise it is written into the playfield, full
     rows are cleared, and the next piece is drawn.
     */
    method PlaceTetromino()
      requires Valid() && !gameOver
      modifies this, playfield
      ensures Valid() && count == old(count)
      ensures Placed(old(Cells()), old(tetromino), old(tetrominoSequence),
                     Cells(), tetromino, tetrominoSequence, gameOver)
    {
      ghost var before := Cells();
      var toppedOut := WritePiece();
      if toppedOut {
        // showGameOver
        gameOver := true;
        assert Cells() == before;
        return;
      }
      ghost var locked := Cells();
      assert locked == Lock(before, tetromino);
      assert BufferEmpty(locked);
      ClearRows();
      assert Cells() == ClearFullRows(locked);
      tetromino := NextTetromino();
      SpawnPlacement(tetromino.name);
    }

    /**
     One step down, shared by the down arrow and gravity: the piece moves
     down a row if it fits there, and is otherwise locked where it is.
     */
    method Descend()
      requires Valid() && !gameOver
      modifies this, playfield
      ensures Valid() && count == old(count)
      ensures Dropped(old(Cells()), old(tetromino), old(tetrominoSequence),
                      Cells(), tetromino, tetrominoSequence, gameOver)
    {
      var row := tetromino.row + 1;
      var ok := IsValidMove(tetromino.matrix, row, tetromino.col);
      if !ok {
        PlaceTetromino();
        return;
      }
      FitsInBounds(Cells(), tetromino.(row := row));
      tetromino := tetromino.(row := row);
    }

    /** A key press; once the game is over, key presses change nothing. */
    method KeyDown(a: Action)
      requires Valid()
      modifies this, playfield
      ensures Valid() && count == old(count)
      ensures old(gameOver) ==>
                gameOver && tetromino == old(tetromino) && Cells() == old(Cells()) &&
                tetrominoSequence == old(tetrominoSequence)
      ensures !old(gameOver) && (a == MoveLeft || a == MoveRight) ==>
                !gameOver && Cells() == old(Cells()) && tetrominoSequence == old(tetrominoSequence) &&
                Attempted(Cells(), old(tetromino), tetromino,
                          old(tetromino).(col := old(tetromino).col + (if a == MoveLeft then -1 else 1)))
      ensures !old(gameOver) && a == RotateCW ==>
                !gameOver && Cells() == old(Cells()) && tetrominoSequence == old(tetrominoSequence) &&
                Attempted(Cells(), old(tetromino), tetromino, old(tetromino).(matrix := Rotate(old(tetromino).matrix)))
      ensures !old(gameOver) && a == SoftDrop ==>
                Dropped(old(Cells()), old(tetromino), old(tetrominoSequence),
                        Cells(), tetromino, tetrominoSequence, gameOver)
    {
      if gameOver {
        return;
      }
      match a
      case MoveLeft => Move(-1);
      case MoveRight => Move(1);
      case RotateCW => RotatePiece();
      case SoftDrop => Descend();
    }

    /**
     One animation frame: the counter advances, and on every 36th frame it
     is reset and the piece takes one step down. Once the game is over no
     frame is scheduled any more, so a frame changes nothing.
     */
    method Tick()
      requires Valid()
      modifies this, playfield
      ensures Valid()
      ensures old(gameOver) ==>
                gameOver && count == old(count) && tetromino == old(tetromino) &&
                Cells() == old(Cells()) && tetrominoSequence == old(tetrominoSequence)
      ensures !old(gameOver) && old(count) + 1 < GravityFrames ==>
                !gameOver && count == old(count) + 1 && tetromino == old(tetromino) &&
                Cells() == old(Cells()) && tetrominoSequence == old(tetrominoSequence)
      ensures !old(gameOver) && old(count) + 1 == GravityFrames ==>
                count == 0 &&
                Dropped(old(Cells()), old(tetromino), old(tetrominoSequence),
                        Cells(), tetromino, tetrominoSequence, gameOver)
    {
      if gameOver {
        return;
      }
      count := count + 1;
      if count > GravityFrames - 1 {
        count := 0;
        Descend();
      }
    }
  }
}

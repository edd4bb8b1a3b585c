/**
 The active piece: how it spawns, where its filled cells land on the
 board, when a placement is valid, and what locking it writes.
 */
module Pieces {
  import opened Shapes
  import opened Playfield

  /**
   The falling piece: its identity, its current matrix (the canonical one
   turned by the rotations so far), and the board row and column of the
   matrix's top-left cell.
   */
  datatype Piece = Piece(name: Shape, matrix: Matrix, row: int, col: int)

  /** Cell (i, j) of `m` exists and is filled. */
  predicate FilledAt(m: Matrix, i: int, j: int)
  {
    0 <= i < |m| && 0 <= j < |m[i]| && m[i][j]
  }

  /**
   A fresh piece of shape `name`: the canonical matrix, centred by
   `10 / 2 - ceil(width / 2)`, one row higher for I than for the others.
   */
  function Spawn(name: Shape): (p: Piece)
    ensures p.name == name && p.matrix == ShapeMatrix(name)
    ensures p.row == (if name == I then -1 else -2)
    // 10 / 2 - ceil(3 / 2) == 3, 10 / 2 - ceil(4 / 2) == 3, 10 / 2 - ceil(2 / 2) == 4
    ensures p.col == (if name == O then 4 else 3)
  {
    var m := ShapeMatrix(name);
    Piece(name, m, if name == I then -1 else -2, Cols / 2 - (|m[0]| + 1) / 2)
  }

  /**
   Every filled cell lies in a board column and above the floor, and the
   matrix's top row is no higher than the topmost buffer row.
   */
  ghost predicate InBounds(p: Piece)
  {
    p.row >= -Buffer &&
    forall i, j :: FilledAt(p.matrix, i, j) ==> 0 <= p.col + j < Cols && p.row + i < Rows
  }

  /** Some filled cell of the piece is above visible row 0. */
  ghost predicate TopsOut(p: Piece)
  {
    exists i, j :: FilledAt(p.matrix, i, j) && p.row + i < 0
  }

  /** Board cell (r, c) lies under a filled cell of the piece. */
  predicate Covers(p: Piece, r: int, c: int)
  {
    FilledAt(p.matrix, r - p.row, c - p.col)
  }

  /**
   The placement check read as "cells above row 0 are not looked up": every
   filled cell lies in a board column and above the floor, and those on a
   visible row are on an empty cell.
   */
  ghost predicate FitsVisible(b: Board, m: Matrix, r: int, c: int)
    requires WellFormed(b) && r >= -Buffer
  {
    forall i, j :: FilledAt(m, i, j) ==>
      0 <= c + j < Cols && r + i < Rows && (r + i >= 0 ==> b[r + i + Buffer][c + j] == Empty)
  }

  /**
   The placement check: every filled cell of `m`, put at row `r` and column
   `c`, lies in a board column, above the floor, and on an empty cell.
   Cells in the buffer rows are looked up like any other; with the buffer
   rows empty that is the same as not looking them up.
   */
  ghost predicate Fits(b: Board, m: Matrix, r: int, c: int): (ok: bool)
    requires WellFormed(b) && r >= -Buffer
    ensures BufferEmpty(b) ==> (ok <==> FitsVisible(b, m, r, c))
  {
    forall i, j :: FilledAt(m, i, j) ==>
      0 <= c + j < Cols && r + i < Rows && b[r + i + Buffer][c + j] == Empty
  }

  /**
   Locking: each cell under a filled cell of the piece takes the piece's
   identity, every other cell keeps its contents; a piece with no cell
   above row 0 leaves the buffer rows as they were.
   */
  function Lock(b: Board, p: Piece): (res: Board)
    requires WellFormed(b)
    ensures WellFormed(res)
    ensures forall r, c :: -Buffer <= r < Rows && 0 <= c < Cols ==>
              res[r + Buffer][c] == if Covers(p, r, c) then Filled(p.name) else b[r + Buffer][c]
    ensures !TopsOut(p) ==> forall k :: 0 <= k < Buffer ==> res[k] == b[k]
  {
    var res := seq(Height, k requires 0 <= k < Height =>
                 seq(Cols, c requires 0 <= c < Cols =>
                   if Covers(p, k - Buffer, c) then Filled(p.name) else b[k][c]));
    assert !TopsOut(p) ==> forall k :: 0 <= k < Buffer ==> res[k] == b[k] by {
      if !TopsOut(p) {
        forall k | 0 <= k < Buffer ensures res[k] == b[k] {
          forall c | 0 <= c < Cols ensures res[k][c] == b[k][c] {
          }
        }
      }
    }
    res
  }

  /**
   A spawned piece is square and in bounds: every filled cell is on the
   board's columns and above the floor.
   */
  lemma SpawnPlacement(s: Shape)
    ensures IsSquare(Spawn(s).matrix) && InBounds(Spawn(s))
  {
  }

  /**
   Locking a freshly spawned piece tops out for every shape but I: the I
   piece's filled cells all sit on visible row 0, so locking it in its
   spawn position writes row 0 instead of ending the game.
   */
  lemma SpawnTopsOut(s: Shape)
    ensures TopsOut(Spawn(s)) <==> s != I
    ensures s == I ==> forall i, j :: FilledAt(Spawn(s).matrix, i, j) ==> Spawn(s).row + i == 0
  {
    var m := ShapeMatrix(s);
    match s
    case I =>
      forall i, j | FilledAt(m, i, j) ensures i == 1 {
        assert m[0][j] == false && m[2][j] == false && m[3][j] == false;
      }
    case J => assert FilledAt(m, 0, 0);
    case L => assert FilledAt(m, 0, 2);
    case O => assert FilledAt(m, 0, 0);
    case S => assert FilledAt(m, 0, 1);
    case Z => assert FilledAt(m, 0, 0);
    case T => assert FilledAt(m, 0, 1);
  }

  /** A placement that fits keeps the piece in bounds. */
  lemma FitsInBounds(b: Board, p: Piece)
    requires WellFormed(b) && p.row >= -Buffer && Fits(b, p.matrix, p.row, p.col)
    ensures InBounds(p)
  {
  }

  /**
   With the buffer rows empty, a placement whose filled cells are all above
   row 0 fits exactly when its columns are on the board: nothing below
   matters.
   */
  lemma FitsAboveRowZero(b: Board, m: Matrix, r: int, c: int)
    requires WellFormed(b) && BufferEmpty(b) && r >= -Buffer
    requires forall i, j :: FilledAt(m, i, j) ==> r + i < 0
    ensures Fits(b, m, r, c) <==> forall i, j :: FilledAt(m, i, j) ==> 0 <= c + j < Cols
  {
    if forall i, j :: FilledAt(m, i, j) ==> 0 <= c + j < Cols {
      forall i, j | FilledAt(m, i, j)
        ensures b[r + i + Buffer][c + j] == Empty
      {
        assert r + i + Buffer < Buffer;
      }
    }
  }
}

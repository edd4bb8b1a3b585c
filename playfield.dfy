/**
 The playfield as a value: 22 rows of 10 cells. Row `k` of a `Board`
 holds board row `k - Buffer`, so rows -2 and -1 (the buffer above the
 visible area) are `b[0]` and `b[1]`, and visible rows 0..19 are
 `b[2..22]`. This module states what clearing full rows does.
 */
module Playfield {
  import opened Shapes

  /** A board cell: empty, or the identity of the piece locked there. */
  datatype Cell = Empty | Filled(shape: Shape)

  const Cols := 10
  const Rows := 20
  const Buffer := 2
  const Height := Rows + Buffer

  type Row = seq<Cell>
  type Board = seq<Row>

  predicate WellFormed(b: Board)
  {
    |b| == Height && forall k :: 0 <= k < |b| ==> |b[k]| == Cols
  }

  /** Two well-formed boards that agree on every cell are the same board. */
  lemma SameBoard(a: Board, b: Board)
    requires WellFormed(a) && WellFormed(b)
    requires forall k, c :: 0 <= k < Height && 0 <= c < Cols ==> a[k][c] == b[k][c]
    ensures a == b
  {
    forall k | 0 <= k < Height ensures a[k] == b[k] {
      assert forall c :: 0 <= c < Cols ==> a[k][c] == b[k][c];
    }
  }

  /** A row every cell of which is occupied. */
  predicate FullRow(row: Row)
  {
    forall c :: 0 <= c < |row| ==> row[c] != Empty
  }

  predicate EmptyRow(row: Row)
  {
    forall c :: 0 <= c < |row| ==> row[c] == Empty
  }

  /** Board rows -2 and -1 hold nothing. */
  predicate BufferEmpty(b: Board)
    requires |b| >= Buffer
  {
    EmptyRow(b[0]) && EmptyRow(b[1])
  }

  const BlankRow: Row := [Empty, Empty, Empty, Empty, Empty, Empty, Empty, Empty, Empty, Empty]

  /** Helper: `n` blank rows. */
  function BlankRows(n: nat): (rows: seq<Row>)
    ensures |rows| == n
  {
    if n == 0 then [] else BlankRows(n - 1) + [BlankRow]
  }

  /** The number of occupied cells of a row. */
  function CellCount(row: Row): nat
  {
    if row == [] then 0
    else CellCount(row[..|row| - 1]) + (if row[|row| - 1] != Empty then 1 else 0)
  }

  /** The number of occupied cells of a stack of rows. */
  function FilledCells(rows: seq<Row>): nat
  {
    if rows == [] then 0 else FilledCells(rows[..|rows| - 1]) + CellCount(rows[|rows| - 1])
  }

  /** The rows that are not full, in their order. */
  function Kept(rows: seq<Row>): (kept: seq<Row>)
    ensures |kept| <= |rows|
  {
    if rows == [] then []
    else Kept(rows[..|rows| - 1]) + (if FullRow(rows[|rows| - 1]) then [] else [rows[|rows| - 1]])
  }

  /** How many rows are full. */
  function FullRowCount(rows: seq<Row>): nat
  {
    if rows == [] then 0
    else FullRowCount(rows[..|rows| - 1]) + (if FullRow(rows[|rows| - 1]) then 1 else 0)
  }

  lemma {:induction false} CellCountBounds(row: Row)
    ensures CellCount(row) <= |row|
    ensures FullRow(row) ==> CellCount(row) == |row|
    ensures EmptyRow(row) ==> CellCount(row) == 0
  {
    if row != [] {
      CellCountBounds(row[..|row| - 1]);
    }
  }

  lemma {:induction false} FilledCellsAppend(a: seq<Row>, b: seq<Row>)
    ensures FilledCells(a + b) == FilledCells(a) + FilledCells(b)
  {
    if b != [] {
      assert (a + b)[..|a + b| - 1] == a + b[..|b| - 1];
      FilledCellsAppend(a, b[..|b| - 1]);
    } else {
      assert a + b == a;
    }
  }

  lemma {:induction false} KeptAppend(a: seq<Row>, b: seq<Row>)
    ensures Kept(a + b) == Kept(a) + Kept(b)
    ensures FullRowCount(a + b) == FullRowCount(a) + FullRowCount(b)
  {
    if b != [] {
      assert (a + b)[..|a + b| - 1] == a + b[..|b| - 1];
      KeptAppend(a, b[..|b| - 1]);
    } else {
      assert a + b == a;
    }
  }

  /** No kept row is full. */
  lemma {:induction false} KeptNotFull(rows: seq<Row>)
    ensures forall k :: 0 <= k < |Kept(rows)| ==> !FullRow(Kept(rows)[k])
  {
    if rows != [] {
      KeptNotFull(rows[..|rows| - 1]);
    }
  }

  /**
   One clearing step at visible row `r` (script.js:159-163): row
   `r` is overwritten, every row from `r` up to 0 takes the contents of the
   row above it, and the buffer rows keep theirs.
   */
  function Shift(b: Board, r: int): (s: Board)
    requires WellFormed(b) && 0 <= r < Rows
    ensures WellFormed(s)
    ensures forall k :: 0 <= k < Height ==> s[k] == if Buffer <= k <= r + Buffer then b[k - 1] else b[k]
  {
    b[..Buffer] + b[Buffer - 1..r + Buffer] + b[r + Buffer + 1..]
  }

  /**
   Shifting out a full row, with the buffer empty, removes exactly that
   row's ten occupied cells from the visible area: the measure that makes
   the clearing loop terminate.
   */
  lemma ShiftDropsTen(b: Board, r: int)
    requires WellFormed(b) && BufferEmpty(b) && 0 <= r < Rows && FullRow(b[r + Buffer])
    ensures FilledCells(Shift(b, r)[Buffer..]) + Cols == FilledCells(b[Buffer..])
  {
    var above, below := b[Buffer..r + Buffer], b[r + Buffer + 1..];
    assert b[Buffer..] == above + [b[r + Buffer]] + below;
    assert Shift(b, r)[Buffer..] == [b[Buffer - 1]] + above + below;
    FilledCellsAppend(above + [b[r + Buffer]], below);
    FilledCellsAppend(above, [b[r + Buffer]]);
    FilledCellsAppend([b[Buffer - 1]] + above, below);
    FilledCellsAppend([b[Buffer - 1]], above);
    CellCountBounds(b[r + Buffer]);
    CellCountBounds(b[Buffer - 1]);
    assert FilledCells([b[Buffer - 1]]) == CellCount(b[Buffer - 1]);
    assert FilledCells([b[r + Buffer]]) == CellCount(b[r + Buffer]);
  }

  /**
   The clearing loop of script.js:155-168, from visible row `r` upward: a full
   row is shifted out and the same row index is examined again; a row that
   is not full moves the scan one row up.
   */
  function ClearFrom(b: Board, r: int): (res: Board)
    requires WellFormed(b) && BufferEmpty(b) && -1 <= r < Rows
    ensures WellFormed(res) && BufferEmpty(res)
    ensures res[r + Buffer + 1..] == b[r + Buffer + 1..]
    decreases r + 1, FilledCells(b[Buffer..])
  {
    if r < 0 then b
    else if FullRow(b[r + Buffer]) then
      ShiftDropsTen(b, r);
      ClearFrom(Shift(b, r), r)
    else
      ClearFrom(b, r - 1)
  }

  /** The whole clearing pass, bottom row first. */
  function ClearFullRows(b: Board): (res: Board)
    requires WellFormed(b) && BufferEmpty(b)
    ensures WellFormed(res) && BufferEmpty(res)
  {
    ClearFrom(b, Rows - 1)
  }

  /** One row on its own is kept exactly when it is not full. */
  lemma KeptOne(x: Row)
    ensures Kept([x]) == if FullRow(x) then [] else [x]
    ensures FullRowCount([x]) == if FullRow(x) then 1 else 0
  {
    assert [x][..0] == [];
  }

  /**
   Splitting the rows scanned from `r` into the row at `r` and those above
   it: a full row at `r` counts once more and is not kept.
   */
  lemma ScannedSplit(b: Board, r: int)
    requires WellFormed(b) && 0 <= r < Rows
    ensures var scanned, upper := b[Buffer..r + Buffer + 1], b[Buffer..r + Buffer];
            && Kept(scanned) == Kept(upper) + (if FullRow(b[r + Buffer]) then [] else [b[r + Buffer]])
            && FullRowCount(scanned) == FullRowCount(upper) + (if FullRow(b[r + Buffer]) then 1 else 0)
  {
    var upper := b[Buffer..r + Buffer];
    assert b[Buffer..r + Buffer + 1] == upper + [b[r + Buffer]];
    KeptAppend(upper, [b[r + Buffer]]);
    KeptOne(b[r + Buffer]);
  }

  /**
   After shifting out row `r`, the rows scanned from `r` are the blank row
   that came down from the buffer followed by the rows that were above `r`.
   */
  lemma ScannedAfterShift(b: Board, r: int)
    requires WellFormed(b) && BufferEmpty(b) && 0 <= r < Rows
    ensures var s, upper := Shift(b, r), b[Buffer..r + Buffer];
            && s[..Buffer] == b[..Buffer]
            && s[r + Buffer + 1..] == b[r + Buffer + 1..]
            && Kept(s[Buffer..r + Buffer + 1]) == [BlankRow] + Kept(upper)
            && FullRowCount(s[Buffer..r + Buffer + 1]) == FullRowCount(upper)
  {
    var s, upper := Shift(b, r), b[Buffer..r + Buffer];
    assert s[Buffer..r + Buffer + 1] == [b[Buffer - 1]] + upper;
    assert b[Buffer - 1] == BlankRow;
    assert !FullRow(BlankRow) by { assert BlankRow[0] == Empty; }
    KeptAppend([BlankRow], upper);
    KeptOne(BlankRow);
  }

  /**
   What the scan from row `r` leaves, in closed form: rows `0..r` become as
   many blank rows as there were full rows among them, followed by the rows
   that were not full, in their order; every other row keeps its place.
   */
  function Cleared(b: Board, r: int): (res: Board)
    requires WellFormed(b) && -1 <= r < Rows
  {
    var scanned := b[Buffer..r + Buffer + 1];
    b[..Buffer] + BlankRows(FullRowCount(scanned)) + Kept(scanned) + b[r + Buffer + 1..]
  }

  /** Shifting out a full row at `r` does not change what the scan from `r` leaves. */
  lemma ClearedAfterShift(b: Board, r: int)
    requires WellFormed(b) && BufferEmpty(b) && 0 <= r < Rows && FullRow(b[r + Buffer])
    ensures Cleared(Shift(b, r), r) == Cleared(b, r)
  {
    var s := Shift(b, r);
    var upper := b[Buffer..r + Buffer];
    var n, kept := FullRowCount(upper), Kept(upper);
    ScannedSplit(b, r);
    ScannedAfterShift(b, r);
    // the blank row that came down from the buffer joins the blank rows
    Regroup(b[..Buffer], BlankRows(n), BlankRow, kept, b[r + Buffer + 1..]);
  }

  /** Concatenation regrouped: a row moved from the front of one part to the end of the one before. */
  lemma Regroup(above: Board, blanks: Board, row: Row, kept: Board, below: Board)
    ensures above + blanks + ([row] + kept) + below == above + (blanks + [row]) + kept + below
  {
  }

  /** A row at `r` that is not full stays in place when the scan moves up. */
  lemma ClearedPastRow(b: Board, r: int)
    requires WellFormed(b) && 0 <= r < Rows && !FullRow(b[r + Buffer])
    ensures Cleared(b, r - 1) == Cleared(b, r)
  {
    var upper := b[Buffer..r + Buffer];
    var n, kept := FullRowCount(upper), Kept(upper);
    ScannedSplit(b, r);
    calc {
      Cleared(b, r - 1);
      b[..Buffer] + BlankRows(n) + kept + b[r + Buffer..];
      { assert b[r + Buffer..] == [b[r + Buffer]] + b[r + Buffer + 1..]; }
      b[..Buffer] + BlankRows(n) + (kept + [b[r + Buffer]]) + b[r + Buffer + 1..];
      Cleared(b, r);
    }
  }

  /** The clearing scan from row `r` computes the closed form `Cleared`. */
  lemma {:induction false} ClearFromResult(b: Board, r: int)
    requires WellFormed(b) && BufferEmpty(b) && -1 <= r < Rows
    ensures ClearFrom(b, r) == Cleared(b, r)
    decreases r + 1, FilledCells(b[Buffer..])
  {
    if r < 0 {
      assert b[Buffer..r + Buffer + 1] == [];
      assert b == b[..Buffer] + b[Buffer..];
    } else if FullRow(b[r + Buffer]) {
      ShiftDropsTen(b, r);
      ClearFromResult(Shift(b, r), r);
      ClearedAfterShift(b, r);
    } else {
      ClearFromResult(b, r - 1);
      ClearedPastRow(b, r);
    }
  }

  /**
   After the whole pass the board holds the buffer, one blank row per full
   row that was cleared, then the rows that were not full in their order:
   the visible height is still 20 and no visible row is full.
   */
  lemma ClearFullRowsResult(b: Board)
    requires WellFormed(b) && BufferEmpty(b)
    ensures ClearFullRows(b) == b[..Buffer] + BlankRows(FullRowCount(b[Buffer..])) + Kept(b[Buffer..])
    ensures forall k :: Buffer <= k < Height ==> !FullRow(ClearFullRows(b)[k])
  {
    ClearFromResult(b, Rows - 1);
    assert b[Buffer..Rows - 1 + Buffer + 1] == b[Buffer..];
    assert b[Rows - 1 + Buffer + 1..] == [];
    var n := FullRowCount(b[Buffer..]);
    var res := ClearFullRows(b);
    KeptNotFull(b[Buffer..]);
    forall k | Buffer <= k < Height
      ensures !FullRow(res[k])
    {
      if k < Buffer + n {
        BlankRowsAreBlank(n, k - Buffer);
        assert res[k] == BlankRows(n)[k - Buffer];
        assert BlankRow[0] == Empty;
      } else {
        assert res[k] == Kept(b[Buffer..])[k - Buffer - n];
      }
    }
  }

  lemma {:induction false} BlankRowsAreBlank(n: nat, k: nat)
    requires k < n
    ensures BlankRows(n)[k] == BlankRow
  {
    if k < n - 1 {
      BlankRowsAreBlank(n - 1, k);
    }
  }
}

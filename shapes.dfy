/**
 The shape library: the seven tetromino identities, their square 0/1
 matrices (a filled cell is `true`), and the quarter-turn rotation.
 */
module Shapes {

  datatype Shape = I | J | L | O | S | T | Z

  /** A piece matrix; row `i`, column `j` is `m[i][j]`, `true` for a filled cell. */
  type Matrix = seq<seq<bool>>

  /** The identities in the order the bag generator starts from. */
  const AllShapes: seq<Shape> := [I, J, L, O, S, T, Z]

  predicate IsSquare(m: Matrix)
  {
    forall i :: 0 <= i < |m| ==> |m[i]| == |m|
  }

  /** The canonical matrix of each shape, as a constant table. */
  function ShapeMatrix(s: Shape): (m: Matrix)
    ensures IsSquare(m)
    ensures |m| == (match s case I => 4 case O => 2 case _ => 3)
  {
    match s
    case I => [[false, false, false, false],
               [true,  true,  true,  true ],
               [false, false, false, false],
               [false, false, false, false]]
    case J => [[true,  false, false],
               [true,  true,  true ],
               [false, false, false]]
    case L => [[false, false, true ],
               [true,  true,  true ],
               [false, false, false]]
    case O => [[true, true],
               [true, true]]
    case S => [[false, true,  true ],
               [true,  true,  false],
               [false, false, false]]
    case Z => [[true,  true,  false],
               [false, true,  true ],
               [false, false, false]]
    case T => [[false, true,  false],
               [true,  true,  true ],
               [false, false, false]]
  }

  /** Every identity occurs exactly once in `AllShapes`. */
  lemma AllShapesOnce(s: Shape)
    ensures s in AllShapes
    ensures multiset(AllShapes)[s] == 1
  {
  }

  /**
   The 90-degree clockwise rotation: `result[i][j] = m[N - j][i]` with
   `N = |m| - 1`, computed row by row.
   */
  function Rotate(m: Matrix): (r: Matrix)
    requires IsSquare(m)
    ensures IsSquare(r) && |r| == |m|
    // the cell at (i, j) moves to (j, N - i): a clockwise quarter turn
    ensures forall i, j :: 0 <= i < |m| && 0 <= j < |m| ==> r[j][|m| - 1 - i] == m[i][j]
  {
    var n := |m|;
    seq(n, i requires 0 <= i < n => seq(n, j requires 0 <= j < n => m[n - 1 - j][i]))
  }

  /** Two quarter turns are the half turn: cell (i, j) comes from (N - i, N - j). */
  lemma RotateTwice(m: Matrix)
    requires IsSquare(m)
    ensures IsSquare(Rotate(Rotate(m))) && |Rotate(Rotate(m))| == |m|
    ensures forall i, j :: 0 <= i < |m| && 0 <= j < |m| ==>
              Rotate(Rotate(m))[i][j] == m[|m| - 1 - i][|m| - 1 - j]
  {
    var n := |m|;
    var r1 := Rotate(m);
    forall i, j | 0 <= i < n && 0 <= j < n
      ensures Rotate(r1)[i][j] == m[n - 1 - i][n - 1 - j]
    {
      assert Rotate(r1)[i][j] == r1[n - 1 - j][i];
      assert r1[n - 1 - j][i] == m[n - 1 - i][n - 1 - j];
    }
  }

  /** Four quarter turns give back the original matrix. */
  lemma RotateFourTimes(m: Matrix)
    requires IsSquare(m)
    ensures Rotate(Rotate(Rotate(Rotate(m)))) == m
  {
    var n := |m|;
    var h := Rotate(Rotate(m));
    RotateTwice(m);
    RotateTwice(h);
    var r := Rotate(Rotate(h));
    forall i | 0 <= i < n
      ensures r[i] == m[i]
    {
      forall j | 0 <= j < n
        ensures r[i][j] == m[i][j]
      {
        assert r[i][j] == h[n - 1 - i][n - 1 - j];
      }
    }
  }

  /** The O piece is rotation-invariant; the others are not. */
  lemma RotateFixesOnlyO(s: Shape)
    ensures Rotate(ShapeMatrix(s)) == ShapeMatrix(s) <==> s == O
  {
    var m := ShapeMatrix(s);
    var r := Rotate(m);
    match s
    case O =>
      forall i | 0 <= i < 2 ensures r[i] == m[i] {
        assert r[i][0] == m[i][0] && r[i][1] == m[i][1];
      }
    case I => assert r[0][2] != m[0][2];
    case J => assert r[0][2] != m[0][2];
    case L => assert r[2][2] != m[2][2];
    case S => assert r[0][2] != m[0][2];
    case Z => assert r[0][2] != m[0][2];
    case T => assert r[1][0] != m[1][0];
  }
}

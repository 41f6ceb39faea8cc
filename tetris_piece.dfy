/**
 * Tetromino shapes and quarter-turn rotation of square piece matrices,
 * as values. The in-place algorithms that the game runs on its piece
 * array are in module TetrisGame and are proved against these functions.
 */
module TetrisPiece {

  /** A grid of cell kinds, row by row: 0 is empty, 1..7 a tetromino, 8 a power-up block. */
  type Matrix = seq<seq<int>>

  /** Cell kind written into every block of a power-up piece. */
  const PowerKind := 8

  /** Width of the largest catalogue piece (the I piece). */
  const MaxPieceSize := 4

  /** Every row is as long as the matrix is tall. */
  predicate IsSquare(m: Matrix)
  {
    forall i :: 0 <= i < |m| ==> |m[i]| == |m|
  }

  /** Cell (i, j) of a matrix; 0 outside it. */
  function At(m: Matrix, i: int, j: int): int
  {
    if 0 <= i < |m| && 0 <= j < |m[i]| then m[i][j] else 0
  }

  /** Row i of a matrix; empty outside it. */
  function RowAt(m: Matrix, i: int): seq<int>
  {
    if 0 <= i < |m| then m[i] else []
  }

  /** The seven pieces the game draws from, in the order of the string 'TJLOSZI'. */
  datatype Tetromino = T | J | L | O | S | Z | I

  /** The cell kind of a tetromino, which the renderer maps to its colour. */
  function Kind(t: Tetromino): (k: int)
    ensures 1 <= k <= 7
  {
    match t
    case T => 1
    case J => 2
    case L => 3
    case O => 4
    case S => 5
    case Z => 6
    case I => 7
  }

  /** The catalogue matrix of a tetromino: square, 2 to 4 wide, holding only 0 and its own kind. */
  function Shape(t: Tetromino): (m: Matrix)
    ensures IsSquare(m) && 2 <= |m| <= MaxPieceSize
    ensures forall i, j :: 0 <= i < |m| && 0 <= j < |m| ==> m[i][j] == 0 || m[i][j] == Kind(t)
  {
    match t
    case T => [[0, 1, 0], [1, 1, 1], [0, 0, 0]]
    case J => [[0, 2, 0], [0, 2, 0], [2, 2, 0]]
    case L => [[0, 3, 0], [0, 3, 0], [0, 3, 3]]
    case O => [[4, 4], [4, 4]]
    case S => [[0, 5, 5], [5, 5, 0], [0, 0, 0]]
    case Z => [[6, 6, 0], [0, 6, 6], [0, 0, 0]]
    case I => [[0, 7, 0, 0], [0, 7, 0, 0], [0, 7, 0, 0], [0, 7, 0, 0]]
  }

  /** Number of occupied cells among the first k of a row. */
  function RowBlocks(row: seq<int>, k: nat): nat
    requires k <= |row|
  {
    if k == 0 then 0 else RowBlocks(row, k - 1) + (if row[k - 1] != 0 then 1 else 0)
  }

  /** Number of occupied cells in the first k rows of a matrix. */
  function Blocks(m: Matrix, k: nat): nat
    requires k <= |m|
  {
    if k == 0 then 0 else Blocks(m, k - 1) + RowBlocks(m[k - 1], |m[k - 1]|)
  }

  /** Every catalogue piece is a tetromino: exactly four occupied cells. */
  lemma {:induction false} ShapeHasFourBlocks(t: Tetromino)
    ensures Blocks(Shape(t), |Shape(t)|) == 4
  {
    match t
    case T => assert Blocks(Shape(T), 3) == 4;
    case J => assert Blocks(Shape(J), 3) == 4;
    case L => assert Blocks(Shape(L), 3) == 4;
    case O => assert Blocks(Shape(O), 2) == 4;
    case S => assert Blocks(Shape(S), 3) == 4;
    case Z => assert Blocks(Shape(Z), 3) == 4;
    case I => assert Blocks(Shape(I), 4) == 4;
  }

  /** The matrix of a spawned piece: the catalogue shape, with every block turned into a power-up block when flagged. */
  function PieceGrid(t: Tetromino, power: bool): Matrix
  {
    var s := Shape(t);
    if power then seq(|s|, i => PowerRow(RowAt(s, i))) else s
  }

  /** A square matrix holding the catalogue shape, with every block a power-up block when flagged, is the piece of that draw. */
  lemma {:induction false} PieceGridFrom(t: Tetromino, power: bool, g: Matrix)
    requires |g| == |Shape(t)| && forall i :: 0 <= i < |g| ==> |g[i]| == |g|
    requires forall i, j :: 0 <= i < |g| && 0 <= j < |g| ==>
      g[i][j] == if power && Shape(t)[i][j] != 0 then PowerKind else Shape(t)[i][j]
    ensures g == PieceGrid(t, power)
  {
    var s := Shape(t);
    var p := PieceGrid(t, power);
    forall i, j | 0 <= i < |g| && 0 <= j < |g[i]|
      ensures g[i][j] == p[i][j]
    {
      if power {
        assert p[i] == PowerRow(s[i]);
      }
    }
    CellsEqual(g, p);
  }

  /** A row with every block turned into a power-up block. */
  function PowerRow(row: seq<int>): (r: seq<int>)
    ensures |r| == |row| && forall j :: 0 <= j < |row| ==> r[j] == if row[j] != 0 then PowerKind else 0
  {
    seq(|row|, j => if 0 <= j < |row| && row[j] != 0 then PowerKind else 0)
  }

  /**
   * A quarter turn of a square matrix: clockwise for a positive dir, where
   * cell (i, j) takes the value of cell (n-1-j, i), and counter-clockwise
   * for every other dir, where it takes the value of cell (j, n-1-i).
   */
  function Rotated(m: Matrix, dir: int): (r: Matrix)
    requires IsSquare(m)
    ensures IsSquare(r) && |r| == |m|
  {
    RotatedRows(m, dir, |m|)
  }

  /** The first k rows of the quarter turn of m. */
  function RotatedRows(m: Matrix, dir: int, k: nat): (rows: Matrix)
    ensures |rows| == k && forall i :: 0 <= i < k ==> |rows[i]| == |m|
  {
    if k == 0 then [] else RotatedRows(m, dir, k - 1) + [RotatedRow(m, dir, k - 1, |m|)]
  }

  /** The first k cells of row i of the quarter turn of m. */
  function RotatedRow(m: Matrix, dir: int, i: int, k: nat): (row: seq<int>)
    ensures |row| == k
  {
    if k == 0 then [] else RotatedRow(m, dir, i, k - 1) + [RotatedCell(m, dir, i, k - 1)]
  }

  /** Cell (i, j) of the quarter turn of m. */
  function RotatedCell(m: Matrix, dir: int, i: int, j: int): int
  {
    var n := |m|;
    if dir > 0 then At(m, n - 1 - j, i) else At(m, j, n - 1 - i)
  }

  lemma {:induction false} RotatedRowCells(m: Matrix, dir: int, i: int, k: nat)
    ensures forall j :: 0 <= j < k ==> RotatedRow(m, dir, i, k)[j] == RotatedCell(m, dir, i, j)
  {
    if k > 0 {
      RotatedRowCells(m, dir, i, k - 1);
    }
  }

  lemma {:induction false} RotatedRowsCells(m: Matrix, dir: int, k: nat)
    ensures forall i, j :: 0 <= i < k && 0 <= j < |m| ==> RotatedRows(m, dir, k)[i][j] == RotatedCell(m, dir, i, j)
  {
    if k > 0 {
      RotatedRowsCells(m, dir, k - 1);
      RotatedRowCells(m, dir, k - 1, |m|);
    }
  }

  /** Where each cell of a rotated matrix comes from: a clockwise turn moves cell (n-1-j, i) to (i, j), a counter-clockwise one moves (j, n-1-i). */
  lemma {:induction false} RotatedCells(m: Matrix, dir: int)
    requires IsSquare(m)
    ensures dir > 0 ==> forall i, j :: 0 <= i < |m| && 0 <= j < |m| ==> Rotated(m, dir)[i][j] == m[|m| - 1 - j][i]
    ensures dir <= 0 ==> forall i, j :: 0 <= i < |m| && 0 <= j < |m| ==> Rotated(m, dir)[i][j] == m[j][|m| - 1 - i]
  {
    var n := |m|;
    var r := Rotated(m, dir);
    RotatedRowsCells(m, dir, n);
    if dir > 0 {
      forall i, j | 0 <= i < n && 0 <= j < n
        ensures r[i][j] == m[n - 1 - j][i]
      {
        assert |m[n - 1 - j]| == n;
        assert r[i][j] == RotatedCell(m, dir, i, j);
      }
    } else {
      forall i, j | 0 <= i < n && 0 <= j < n
        ensures r[i][j] == m[j][n - 1 - i]
      {
        assert |m[j]| == n;
        assert r[i][j] == RotatedCell(m, dir, i, j);
      }
    }
  }

  /** Two matrices of one shape that agree cell by cell are equal. */
  lemma {:induction false} CellsEqual(a: Matrix, b: Matrix)
    requires |a| == |b| && forall i :: 0 <= i < |a| ==> |a[i]| == |b[i]|
    requires forall i, j :: 0 <= i < |a| && 0 <= j < |a[i]| ==> a[i][j] == b[i][j]
    ensures a == b
  {
    forall i | 0 <= i < |a|
      ensures a[i] == b[i]
    {
    }
  }

  /** A square matrix whose every cell comes from the place a quarter turn takes it from is that turn. */
  lemma {:induction false} RotatedFrom(m: Matrix, g: Matrix, dir: int)
    requires IsSquare(m) && |g| == |m| && forall i :: 0 <= i < |g| ==> |g[i]| == |m|
    requires dir > 0 ==> forall i, j :: 0 <= i < |m| && 0 <= j < |m| ==> g[i][j] == m[|m| - 1 - j][i]
    requires dir <= 0 ==> forall i, j :: 0 <= i < |m| && 0 <= j < |m| ==> g[i][j] == m[j][|m| - 1 - i]
    ensures g == Rotated(m, dir)
  {
    var r := Rotated(m, dir);
    RotatedCells(m, dir);
    forall i, j | 0 <= i < |g| && 0 <= j < |g[i]|
      ensures g[i][j] == r[i][j]
    {
      assert |g[i]| == |m|;
      if dir > 0 {
        assert g[i][j] == m[|m| - 1 - j][i];
      } else {
        assert g[i][j] == m[j][|m| - 1 - i];
      }
    }
    CellsEqual(g, r);
  }

  /** Turning one way and then the other gives back the matrix exactly. */
  lemma {:induction false} RotatedRoundTrip(m: Matrix, dir: int)
    requires IsSquare(m) && dir != 0
    ensures Rotated(Rotated(m, dir), -dir) == m
  {
    var n := |m|;
    var r := Rotated(m, dir);
    var back := Rotated(r, -dir);
    RotatedCells(m, dir);
    RotatedCells(r, -dir);
    forall i, j | 0 <= i < n && 0 <= j < n
      ensures back[i][j] == m[i][j]
    {
      if dir > 0 {
        assert back[i][j] == r[j][n - 1 - i];
      } else {
        assert back[i][j] == r[n - 1 - j][i];
      }
    }
    CellsEqual(back, m);
  }

  /** Four clockwise quarter turns are the identity. */
  lemma {:induction false} FourTurns(m: Matrix)
    requires IsSquare(m)
    ensures Rotated(Rotated(Rotated(Rotated(m, 1), 1), 1), 1) == m
  {
    var n := |m|;
    var r1 := Rotated(m, 1);
    var r2 := Rotated(r1, 1);
    var r3 := Rotated(r2, 1);
    var r4 := Rotated(r3, 1);
    RotatedCells(m, 1);
    RotatedCells(r1, 1);
    RotatedCells(r2, 1);
    RotatedCells(r3, 1);
    forall i, j | 0 <= i < n && 0 <= j < n
      ensures r4[i][j] == m[i][j]
    {
      assert r4[i][j] == r3[n - 1 - j][i];
      assert r3[n - 1 - j][i] == r2[n - 1 - i][n - 1 - j];
      assert r2[n - 1 - i][n - 1 - j] == r1[j][n - 1 - i];
    }
    CellsEqual(r4, m);
  }
}

/**
 * The Tetris engine as it runs: one game object holding the arena, the
 * falling piece (an array rotated in place) and the session counters,
 * with the commands the player and the fall timer issue. Every command
 * keeps the object invariant Valid(): the arena is 12 by 20 with no full
 * row, the counters agree with each other, and the piece does not collide.
 */
module TetrisGame {
  import opened TetrisPiece
  import opened TetrisBoard

  /** The two random choices of a spawn: which tetromino, and whether it is a power-up. */
  datatype Draw = Draw(kind: Tetromino, power: bool)

  /** The cells of a two-dimensional array, row by row (GridCells says which cell is which). */
  ghost function Grid(m: array2<int>): (g: Matrix)
    reads m
    ensures |g| == m.Length0 && forall i :: 0 <= i < |g| ==> |g[i]| == m.Length1
  {
    GridRows(m, m.Length0)
  }

  /** The first k rows of a two-dimensional array. */
  ghost function GridRows(m: array2<int>, k: nat): (g: Matrix)
    requires k <= m.Length0
    reads m
    ensures |g| == k && forall i :: 0 <= i < k ==> |g[i]| == m.Length1
  {
    if k == 0 then [] else GridRows(m, k - 1) + [GridRow(m, k - 1, m.Length1)]
  }

  /** The first k cells of row i of a two-dimensional array. */
  ghost function GridRow(m: array2<int>, i: nat, k: nat): (row: seq<int>)
    requires i < m.Length0 && k <= m.Length1
    reads m
    ensures |row| == k
  {
    if k == 0 then [] else GridRow(m, i, k - 1) + [m[i, k - 1]]
  }

  lemma {:induction false} GridRowCells(m: array2<int>, i: nat, k: nat)
    requires i < m.Length0 && k <= m.Length1
    ensures forall j :: 0 <= j < k ==> GridRow(m, i, k)[j] == m[i, j]
  {
    if k > 0 {
      GridRowCells(m, i, k - 1);
    }
  }

  lemma {:induction false} GridRowsCells(m: array2<int>, k: nat)
    requires k <= m.Length0
    ensures forall i, j :: 0 <= i < k && 0 <= j < m.Length1 ==> GridRows(m, k)[i][j] == m[i, j]
  {
    if k > 0 {
      GridRowsCells(m, k - 1);
      GridRowCells(m, k - 1, m.Length1);
    }
  }

  /** Cell (i, j) of the value of an array is the array's cell (i, j). */
  lemma {:induction false} GridCells(m: array2<int>)
    ensures forall i, j :: 0 <= i < m.Length0 && 0 <= j < m.Length1 ==> Grid(m)[i][j] == m[i, j]
  {
    GridRowsCells(m, m.Length0);
  }

  /** A matrix of h rows of w empty cells. */
  method CreateMatrix(w: nat, h: nat) returns (m: Matrix)
    ensures |m| == h && forall r :: 0 <= r < h ==> m[r] == ZeroRow(w)
  {
    m := [];
    var left := h;
    while left > 0
      invariant 0 <= left <= h && |m| == h - left
      invariant forall r :: 0 <= r < |m| ==> m[r] == ZeroRow(w)
    {
      m := m + [ZeroRow(w)];
      left := left - 1;
    }
  }

  /**
   * A new piece array: the catalogue shape, and when isPower is set every
   * occupied cell becomes kind 8 while empty cells stay empty.
   */
  method CreatePiece(t: Tetromino, isPower: bool) returns (m: array2<int>)
    ensures fresh(m) && m.Length0 == m.Length1 == |Shape(t)|
    ensures Grid(m) == PieceGrid(t, isPower)
    ensures forall i, j :: 0 <= i < m.Length0 && 0 <= j < m.Length1 ==>
      (m[i, j] == 0 <==> Shape(t)[i][j] == 0) &&
      (m[i, j] != 0 ==> m[i, j] == if isPower then PowerKind else Kind(t))
  {
    var s := Shape(t);
    var n := |s|;
    m := new int[n, n]((i, j) => if 0 <= i < n && 0 <= j < n then s[i][j] else 0);
    if isPower {
      for r := 0 to n
        invariant forall i, j :: 0 <= i < n && 0 <= j < n ==>
          m[i, j] == if i < r && s[i][j] != 0 then PowerKind else s[i][j]
      {
        for c := 0 to n
          invariant forall i, j :: 0 <= i < n && 0 <= j < n ==>
            m[i, j] == if (i < r || (i == r && j < c)) && s[i][j] != 0 then PowerKind else s[i][j]
        {
          if m[r, c] != 0 {
            m[r, c] := PowerKind;
          }
        }
      }
    }
    GridCells(m);
    PieceGridFrom(t, isPower, Grid(m));
  }

  /** Swaps the cells (i, j) and (j, i) below the diagonal, row by row. */
  method TransposeInPlace(m: array2<int>)
    requires m.Length0 == m.Length1
    modifies m
    ensures forall i, j :: 0 <= i < m.Length0 && 0 <= j < m.Length1 ==> m[i, j] == old(m[j, i])
  {
    var n := m.Length0;
    for y := 0 to n
      invariant forall i, j :: 0 <= i < n && 0 <= j < n ==>
        m[i, j] == if i < y && j < y then old(m[j, i]) else old(m[i, j])
    {
      for x := 0 to y
        invariant forall i, j :: 0 <= i < n && 0 <= j < n ==>
          m[i, j] == if (i < y && j < y) || (i == y && j < x) || (j == y && i < x) then old(m[j, i]) else old(m[i, j])
      {
        m[x, y], m[y, x] := m[y, x], m[x, y];
      }
    }
  }

  /** Reverses row r in place; the other rows are untouched. */
  method ReverseRow(m: array2<int>, r: int)
    requires 0 <= r < m.Length0
    modifies m
    ensures forall i, j :: 0 <= i < m.Length0 && 0 <= j < m.Length1 ==>
      m[i, j] == if i == r then old(m[i, m.Length1 - 1 - j]) else old(m[i, j])
  {
    var w := m.Length1;
    for k := 0 to w / 2
      invariant forall i, j :: 0 <= i < m.Length0 && 0 <= j < w ==>
        m[i, j] == if i == r && (j < k || j >= w - k) then old(m[i, w - 1 - j]) else old(m[i, j])
    {
      m[r, k], m[r, w - 1 - k] := m[r, w - 1 - k], m[r, k];
    }
  }

  /** Reverses every row in place. */
  method ReverseEachRow(m: array2<int>)
    modifies m
    ensures forall i, j :: 0 <= i < m.Length0 && 0 <= j < m.Length1 ==> m[i, j] == old(m[i, m.Length1 - 1 - j])
  {
    for r := 0 to m.Length0
      invariant forall i, j :: 0 <= i < m.Length0 && 0 <= j < m.Length1 ==>
        m[i, j] == if i < r then old(m[i, m.Length1 - 1 - j]) else old(m[i, j])
    {
      ReverseRow(m, r);
    }
  }

  /** Exchanges rows a and b in place, cell by cell. */
  method SwapRows(m: array2<int>, a: int, b: int)
    requires 0 <= a < m.Length0 && 0 <= b < m.Length0
    modifies m
    ensures forall i, j :: 0 <= i < m.Length0 && 0 <= j < m.Length1 ==>
      m[i, j] == if i == a then old(m[b, j]) else if i == b then old(m[a, j]) else old(m[i, j])
  {
    for c := 0 to m.Length1
      invariant forall i, j :: 0 <= i < m.Length0 && 0 <= j < m.Length1 ==>
        m[i, j] == if j < c && i == a then old(m[b, j]) else if j < c && i == b then old(m[a, j]) else old(m[i, j])
    {
      m[a, c], m[b, c] := m[b, c], m[a, c];
    }
  }

  /** Reverses the order of the rows in place. */
  method ReverseRowOrder(m: array2<int>)
    modifies m
    ensures forall i, j :: 0 <= i < m.Length0 && 0 <= j < m.Length1 ==> m[i, j] == old(m[m.Length0 - 1 - i, j])
  {
    var n := m.Length0;
    for k := 0 to n / 2
      invariant forall i, j :: 0 <= i < n && 0 <= j < m.Length1 ==>
        m[i, j] == if i < k || i >= n - k then old(m[n - 1 - i, j]) else old(m[i, j])
    {
      SwapRows(m, k, n - 1 - k);
    }
  }

  /**
   * Rotates a square piece array in place: transpose, then reverse every
   * row (dir > 0, clockwise) or reverse the row order (otherwise,
   * counter-clockwise).
   */
  method Rotate(m: array2<int>, dir: int)
    requires m.Length0 == m.Length1
    modifies m
    ensures Grid(m) == Rotated(old(Grid(m)), dir)
  {
    GridCells(m);
    ghost var before := Grid(m);
    TransposeInPlace(m);
    if dir > 0 {
      ReverseEachRow(m);
    } else {
      ReverseRowOrder(m);
    }
    GridCells(m);
    RotatedFrom(before, Grid(m), dir);
  }

  /** Rotating back the other way undoes a quarter turn made in place. */
  method RotateBack(m: array2<int>, dir: int, ghost orig: Matrix)
    requires m.Length0 == m.Length1 && dir != 0 && IsSquare(orig) && Grid(m) == Rotated(orig, dir)
    modifies m
    ensures Grid(m) == orig
  {
    Rotate(m, -dir);
    RotatedRoundTrip(orig, dir);
  }

  /** The state of one game: the module-level variables of the engine. */
  class Game {
    /** The settled cells, Height rows of Width cells. */
    var arena: Matrix
    /** The falling piece, a square array. */
    var matrix: array2<int>
    /** Column of the piece's top-left corner. */
    var x: int
    /** Row of the piece's top-left corner. */
    var y: int
    var isPowerUp: bool
    var score: nat
    var level: nat
    var linesCleared: nat
    /** Milliseconds per automatic fall step. */
    var dropInterval: int
    /** Milliseconds since the last fall step. */
    var dropCounter: int

    /** The falling piece as a value. */
    ghost function Piece(): Matrix
      reads this`matrix, matrix
    {
      Grid(matrix)
    }

    /** The session counters as a value. */
    ghost function Counters(): Stats
      reads this`score, this`level, this`linesCleared, this`dropInterval
    {
      Stats(score, level, linesCleared, dropInterval)
    }

    /** The arena has its fixed size and the piece array is a catalogue-sized square. */
    ghost predicate Shaped()
      reads this`arena, this`matrix
    {
      IsBoard(arena) && 1 <= matrix.Length0 == matrix.Length1 <= MaxPieceSize
    }

    /** The object invariant: shapes, no full row, consistent counters, and a piece that does not collide. */
    ghost predicate Valid()
      reads this`arena, this`matrix, matrix, this`x, this`y
      reads this`score, this`level, this`linesCleared, this`dropInterval
    {
      Shaped() && NoFullRow(arena) && Consistent(Counters()) && !Collides(arena, Piece(), x, y)
    }

    /** The piece of draw d has just been placed at its spawn position. */
    ghost predicate Spawned(d: Draw)
      reads this`matrix, matrix, this`isPowerUp, this`x, this`y
    {
      Piece() == PieceGrid(d.kind, d.power) && isPowerUp == d.power && x == SpawnX(d.kind) && y == 0
    }

    /**
     * The state after a spawn on arena a with counters s: the piece of draw
     * next, or, when that piece collides at once, a new game whose first
     * piece is the one of draw fallback.
     */
    ghost predicate Respawned(a: Matrix, s: Stats, next: Draw, fallback: Draw)
      reads this`arena, this`matrix, matrix, this`isPowerUp, this`x, this`y
      reads this`score, this`level, this`linesCleared, this`dropInterval
    {
      if Collides(a, PieceGrid(next.kind, next.power), SpawnX(next.kind), 0)
      then arena == EmptyBoard() && Counters() == StartStats && Spawned(fallback)
      else arena == a && Counters() == s && Spawned(next)
    }

    /** Starting a game: a fresh session whose first piece is d. */
    constructor (d: Draw)
      ensures Valid() && Spawned(d)
      ensures arena == EmptyBoard() && Counters() == StartStats && dropCounter == 0
    {
      arena := [];
      matrix := new int[1, 1];
      x, y := 0, 0;
      isPowerUp := false;
      score, level, linesCleared := 0, 1, 0;
      dropInterval := StartInterval;
      dropCounter := 0;
      new;
      ResetGame(d);
      dropCounter := 0;
    }

    /**
     * The collision test, cell by cell: an occupied piece cell collides when
     * the arena cell under it is occupied or does not exist (an index off
     * the arena reads undefined, which is not 0).
     */
    static method Collide(arena: Matrix, m: array2<int>, px: int, py: int) returns (hit: bool)
      requires m.Length0 == m.Length1
      ensures hit == Collides(arena, Grid(m), px, py)
    {
      var n := m.Length0;
      ghost var p := Grid(m);
      GridCells(m);
      for i := 0 to n
        invariant forall i', j :: 0 <= i' < i && 0 <= j < n ==> !HitsAt(arena, p, px, py, i', j)
      {
        for j := 0 to n
          invariant forall i', j' :: 0 <= i' < n && 0 <= j' < n && (i' < i || (i' == i && j' < j)) ==>
            !HitsAt(arena, p, px, py, i', j')
        {
          var r, c := py + i, px + j;
          var occupied := !(0 <= r < |arena|) || !(0 <= c < |arena[r]|) || arena[r][c] != 0;
          assert p[i][j] == m[i, j];
          if m[i, j] != 0 && occupied {
            assert HitsAt(arena, p, px, py, i, j);
            return true;
          }
        }
      }
      return false;
    }

    /** Writes the occupied piece cells into the arena; no other cell changes. */
    method Merge()
      requires Shaped() && !Collides(arena, Piece(), x, y)
      modifies this`arena
      ensures arena == Merged(old(arena), Piece(), x, y)
    {
      arena := MergeInto(arena, matrix, x, y);
    }

    /** The cell loop of the merge, on the arena's rows. */
    static method MergeInto(a: Matrix, m: array2<int>, px: int, py: int) returns (rows: Matrix)
      requires m.Length0 == m.Length1 && !Collides(a, Grid(m), px, py)
      ensures rows == Merged(a, Grid(m), px, py)
    {
      rows := a;
      MergedUpToEnds(a, Grid(m), px, py);
      for i := 0 to m.Length0
        invariant rows == MergedUpTo(a, Grid(m), px, py, i, 0)
      {
        rows := MergeRow(a, m, px, py, i, rows);
      }
    }

    /** Row i of the merge loop: each occupied piece cell of the row is written into the arena. */
    static method MergeRow(a: Matrix, m: array2<int>, px: int, py: int, i: nat, rows: Matrix) returns (rows': Matrix)
      requires m.Length0 == m.Length1 && i < m.Length0 && !Collides(a, Grid(m), px, py)
      requires rows == MergedUpTo(a, Grid(m), px, py, i, 0)
      ensures rows' == MergedUpTo(a, Grid(m), px, py, i + 1, 0)
    {
      ghost var p := Grid(m);
      GridCells(m);
      rows' := rows;
      for j := 0 to m.Length1
        invariant rows' == MergedUpTo(a, p, px, py, i, j)
      {
        var v := m[i, j];
        assert p[i][j] == v;
        assert !HitsAt(a, p, px, py, i, j);
        if v != 0 {
          MergedUpToWrite(a, p, px, py, i, j);
          rows' := rows'[py + i := rows'[py + i][px + j := v]];
        } else {
          MergedUpToSkip(a, p, px, py, i, j);
        }
      }
      MergedUpToNextRow(a, p, px, py, i);
    }

    /**
     * Removes every full row, scanning from the bottom, and puts an empty row
     * on top for each; then scores the rows cleared at the current level and
     * moves to the next level once enough lines are cleared.
     */
    method ArenaSweep()
      requires IsBoard(arena) && FullCount(arena) <= MaxScoredRows
      modifies this`arena, this`score, this`linesCleared, this`level, this`dropInterval
      ensures arena == Swept(old(arena))
      ensures Counters() == Scored(old(Counters()), FullCount(old(arena)))
    {
      var rowCount;
      arena, rowCount := SweepRows(arena);
      if rowCount > 0 {
        AddLines(rowCount);
      }
    }

    /**
     * The scan of the sweep, from the bottom row up: a full row is cut out
     * and an empty row put on top, and the same index is examined again.
     */
    static method SweepRows(a: Matrix) returns (rows: Matrix, rowCount: nat)
      requires IsBoard(a)
      ensures rows == Swept(a) && rowCount == FullCount(a)
    {
      rows := a;
      rowCount := 0;
      var r := |rows| - 1;
      // a[j..] is the part of the original arena already scanned
      ghost var j := |a|;
      SweepStateEnds(a, 0);
      while r >= 0
        invariant 0 <= j <= |a|
        invariant rowCount == FullCount(a[j..])
        invariant rows == SweepState(a, j, rowCount)
        invariant j > 0 ==> r == rowCount + j - 1
        invariant j == 0 ==> -1 <= r < rowCount
        decreases j, r + 1
      {
        SweepStateAt(a, j, rowCount);
        assert j == 0 ==> rows[r][0] == 0;
        var full := RowIsFull(rows[r]);
        if full {
          // a full row: it can only be an original row, since empty rows are never full
          assert j > 0;
          SweepStepRemove(a, j, rowCount, rows, r);
          rows := [ZeroRow(|rows[r]|)] + rows[..r] + rows[r + 1..];
          rowCount := rowCount + 1;
          j := j - 1;
          // the row index stays put: ++y cancels the loop's --y, so the row moved down is examined next
        } else {
          if j > 0 {
            SweepStepKeep(a, j, rowCount);
            j := j - 1;
          }
          r := r - 1;
        }
      }
      SweepStateEnds(a, rowCount);
      assert a[0..] == a;
    }

    /** The scan of one row in the sweep: it stops at the first empty cell. */
    static method RowIsFull(row: seq<int>) returns (full: bool)
      ensures full == IsFull(row)
    {
      var c := 0;
      while c < |row| && row[c] != 0
        invariant 0 <= c <= |row|
        invariant forall c' :: 0 <= c' < c ==> row[c'] != 0
      {
        c := c + 1;
      }
      return c == |row|;
    }

    /** Scores k cleared rows at the current level and moves to the next level once enough lines are cleared. */
    method AddLines(k: nat)
      requires 0 < k <= MaxScoredRows
      modifies this`score, this`linesCleared, this`level, this`dropInterval
      ensures Counters() == Scored(old(Counters()), k)
    {
      score := score + LineScore(k) * level;
      linesCleared := linesCleared + k;
      if linesCleared >= level * LevelThreshold {
        level := level + 1;
        dropInterval := Max(MinInterval, dropInterval - 50);
      }
    }

    /** The placing half of a spawn: a new piece at the top, centred. */
    method SpawnPiece(d: Draw)
      modifies this
      ensures fresh(matrix) && matrix.Length0 == matrix.Length1 == |Shape(d.kind)|
      ensures Spawned(d)
      ensures arena == old(arena) && Counters() == old(Counters()) && dropCounter == old(dropCounter)
    {
      matrix := CreatePiece(d.kind, d.power);
      isPowerUp := d.power;
      y := 0;
      x := Width / 2 - matrix.Length1 / 2;
    }

    /**
     * Spawns the piece of draw d; if it collides at once the game is over
     * and a new game starts with the piece of draw fallback.
     */
    method PlayerReset(d: Draw, fallback: Draw)
      requires IsBoard(arena) && NoFullRow(arena) && Consistent(Counters())
      modifies this
      ensures Valid() && dropCounter == old(dropCounter)
      ensures Respawned(old(arena), old(Counters()), d, fallback)
    {
      SpawnPiece(d);
      var hit := Collide(arena, matrix, x, y);
      if hit {
        GameOver(fallback);
      }
    }

    /** The end of a game, which immediately begins the next one. */
    method GameOver(d: Draw)
      modifies this
      ensures Valid() && Spawned(d)
      ensures arena == EmptyBoard() && Counters() == StartStats && dropCounter == old(dropCounter)
    {
      ResetGame(d);
    }

    /** An empty arena, the counters of a new game, and a first piece. */
    method ResetGame(d: Draw)
      modifies this
      ensures Valid() && Spawned(d)
      ensures arena == EmptyBoard() && Counters() == StartStats && dropCounter == old(dropCounter)
    {
      arena := CreateMatrix(Width, Height);
      assert arena == EmptyBoard();
      score := 0;
      linesCleared := 0;
      level := 1;
      dropInterval := StartInterval;
      SpawnPiece(d);
      var hit := Collide(arena, matrix, x, y);
      // the spawn check of playerReset: on an empty arena it never reports a collision
      assert !hit by {
        SpawnFitsEmptyBoard(d.kind, d.power);
      }
    }

    /** Shifts the piece dir columns unless it would collide there. */
    method PlayerMove(dir: int)
      requires Valid()
      modifies this`x
      ensures Valid()
      ensures x == if Collides(arena, Piece(), old(x) + dir, y) then old(x) else old(x) + dir
    {
      x := x + dir;
      var hit := Collide(arena, matrix, x, y);
      if hit {
        x := x - dir;
      }
    }

    /**
     * Turns the piece a quarter (dir > 0 clockwise) and kicks it sideways
     * to the first column of the search that fits; when none fits, the
     * piece and its column are exactly what they were.
     */
    method PlayerRotate(dir: int)
      requires Valid() && dir != 0
      modifies this`x, matrix
      ensures Valid()
      ensures var turned := Rotated(old(Piece()), dir);
        var k := FirstFit(arena, turned, old(x), y, 0, |turned|);
        if k <= |turned| then Piece() == turned && x == old(x) + KickShift(k)
        else Piece() == old(Piece()) && x == old(x)
    {
      ghost var p0 := Piece();
      var pos := x;
      Rotate(matrix, dir);
      var fits, col := WallKick(arena, matrix, pos, y);
      x := col;
      if !fits {
        RotateBack(matrix, dir, p0);
      }
    }

    /**
     * The wall-kick search on a fixed arena and piece: tries the column
     * pos + KickShift(k) for k = 0, 1, ... while the piece collides, and
     * gives up once the offset grows wider than the piece.
     */
    static method WallKick(arena: Matrix, m: array2<int>, pos: int, py: int) returns (fits: bool, col: int)
      requires m.Length0 == m.Length1
      ensures var k := FirstFit(arena, Grid(m), pos, py, 0, m.Length1);
        fits == (k <= m.Length1) && col == if fits then pos + KickShift(k) else pos
    {
      var offset := 1;
      var n := m.Length1;
      ghost var k: nat := 0;
      col := pos;
      var hit := Collide(arena, m, col, py);
      while hit
        invariant 0 <= k <= n
        invariant offset == KickOffset(k)
        invariant col == pos + KickShift(k)
        invariant hit == Collides(arena, Grid(m), col, py)
        invariant FirstFit(arena, Grid(m), pos, py, k, n) == FirstFit(arena, Grid(m), pos, py, 0, n)
        decreases n - k
      {
        KickStep(k, n);
        col := col + offset;
        offset := -(offset + (if offset > 0 then 1 else -1));
        k := k + 1;
        if offset > n + 1 || offset < -(n + 1) {
          assert FirstFit(arena, Grid(m), pos, py, k, n) == n + 1;
          return false, pos;
        }
        hit := Collide(arena, m, col, py);
      }
      assert FirstFit(arena, Grid(m), pos, py, k, n) == k;
      return true, col;
    }

    /**
     * One fall step: the piece moves down a row if it can; otherwise it is
     * merged where it is, full rows are swept and scored, and the next piece
     * spawns (a spawn that collides ends the game and starts a new one).
     */
    method PlayerDrop(next: Draw, fallback: Draw)
      requires Valid()
      modifies this
      ensures Valid() && dropCounter == 0
      ensures !Collides(old(arena), old(Piece()), old(x), old(y) + 1) ==>
        && y == old(y) + 1 && x == old(x) && Piece() == old(Piece()) && isPowerUp == old(isPowerUp)
        && arena == old(arena) && Counters() == old(Counters())
      ensures Collides(old(arena), old(Piece()), old(x), old(y) + 1) ==>
        var landed := Merged(old(arena), old(Piece()), old(x), old(y));
        FullCount(landed) <= MaxScoredRows &&
        Respawned(Swept(landed), Scored(old(Counters()), FullCount(landed)), next, fallback)
    {
      dropCounter := 0;
      y := y + 1;
      var hit := Collide(arena, matrix, x, y);
      if hit {
        y := y - 1;
        Settle(next, fallback, old(arena), old(Piece()), old(Counters()));
      }
    }

    /**
     * The landing half of a fall step: merge the piece where it stands,
     * sweep and score the full rows, then spawn the piece of draw next.
     */
    method Settle(next: Draw, fallback: Draw, ghost a0: Matrix, ghost p0: Matrix, ghost s0: Stats)
      requires Valid() && arena == a0 && Piece() == p0 && Counters() == s0
      modifies this
      ensures Valid() && dropCounter == old(dropCounter)
      ensures var landed := Merged(a0, p0, old(x), old(y));
        FullCount(landed) <= MaxScoredRows && Respawned(Swept(landed), Scored(s0, FullCount(landed)), next, fallback)
    {
      Land();
      PlayerReset(next, fallback);
    }

    /** The piece is merged where it stands; the full rows are then swept and scored. */
    method Land()
      requires Valid()
      modifies this`arena, this`score, this`linesCleared, this`level, this`dropInterval
      ensures var landed := Merged(old(arena), Piece(), x, y);
        && FullCount(landed) <= MaxScoredRows
        && arena == Swept(landed) && Counters() == Scored(old(Counters()), FullCount(landed))
      ensures IsBoard(arena) && NoFullRow(arena) && Consistent(Counters())
    {
      ghost var before := arena;
      Merge();
      MergedFullRows(before, Piece(), x, y);
      ghost var landed := arena;
      ghost var stats := Counters();
      ArenaSweep();
      SweptIsBoard(landed);
      ScoredConsistent(stats, FullCount(landed));
    }
  }
}

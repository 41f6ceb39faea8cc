/**
 * The rules of the Tetris board as values: the 12-by-20 arena, the
 * collision test, merging a landed piece, clearing full rows, the
 * wall-kick search order, and the score/level/speed table.
 */
module TetrisBoard {
  import opened TetrisPiece

  const Width := 12
  const Height := 20

  /** Length of the score table: a sweep can be scored for 0 to 4 rows. */
  const MaxScoredRows := 4

  /** Lines to clear per level. */
  const LevelThreshold := 10

  /** Fastest automatic fall, in milliseconds per row. */
  const MinInterval := 100

  /** Automatic fall speed of a new game, in milliseconds per row. */
  const StartInterval := 1000

  /** A row with no empty cell. */
  predicate IsFull(row: seq<int>)
  {
    forall c :: 0 <= c < |row| ==> row[c] != 0
  }

  /** The shape of the arena: Height rows of Width cells. */
  predicate IsBoard(a: Matrix)
  {
    |a| == Height && forall r :: 0 <= r < |a| ==> |a[r]| == Width
  }

  /** No row of the arena is full (full rows never survive a sweep). */
  predicate NoFullRow(a: Matrix)
  {
    forall r :: 0 <= r < |a| ==> !IsFull(a[r])
  }

  function ZeroRow(w: nat): (row: seq<int>)
    ensures |row| == w && forall c :: 0 <= c < w ==> row[c] == 0
  {
    seq(w, _ => 0)
  }

  function ZeroRows(k: nat): (rows: Matrix)
    ensures |rows| == k && forall r :: 0 <= r < k ==> rows[r] == ZeroRow(Width)
  {
    seq(k, _ => ZeroRow(Width))
  }

  /** The arena of a new game. */
  function EmptyBoard(): (a: Matrix)
    ensures IsBoard(a) && NoFullRow(a)
  {
    assert !IsFull(ZeroRow(Width)) by { assert ZeroRow(Width)[0] == 0; }
    ZeroRows(Height)
  }

  /**
   * A cell the piece may not occupy: any cell off the arena (above it,
   * below it or beside it) or an occupied one.
   */
  predicate Blocked(a: Matrix, r: int, c: int)
  {
    !(0 <= r < |a| && 0 <= c < |a[r]|) || a[r][c] != 0
  }

  /** Piece cell (i, j) is occupied and, with the piece anchored at column px and row py, lands on a blocked cell. */
  predicate HitsAt(a: Matrix, m: Matrix, px: int, py: int, i: int, j: int)
  {
    0 <= i < |m| && 0 <= j < |m[i]| && m[i][j] != 0 && Blocked(a, py + i, px + j)
  }

  /** Some occupied cell of piece m, anchored at column px and row py, is blocked. */
  predicate Collides(a: Matrix, m: Matrix, px: int, py: int)
  {
    exists i, j :: 0 <= i < |m| && 0 <= j < |m[i]| && HitsAt(a, m, px, py, i, j)
  }

  /** Piece cell (i, j) exists and is occupied. */
  predicate Covers(m: Matrix, i: int, j: int)
  {
    0 <= i < |m| && 0 <= j < |m[i]| && m[i][j] != 0
  }

  /** The arena with the occupied cells of piece m written in at (px, py). */
  function Merged(a: Matrix, m: Matrix, px: int, py: int): (b: Matrix)
    ensures |b| == |a| && forall r :: 0 <= r < |a| ==> |b[r]| == |a[r]|
  {
    seq(|a|, r => MergedRow(a, m, px, py, r))
  }

  /** A merged cell holds the piece's cell where the piece covers it and the arena's cell elsewhere. */
  lemma {:induction false} MergedCells(a: Matrix, m: Matrix, px: int, py: int)
    ensures forall r, c :: 0 <= r < |a| && 0 <= c < |a[r]| ==>
      Merged(a, m, px, py)[r][c] == if Covers(m, r - py, c - px) then m[r - py][c - px] else a[r][c]
  {
  }

  /** Row r of the arena with the piece written in. */
  function MergedRow(a: Matrix, m: Matrix, px: int, py: int, r: int): (row: seq<int>)
    ensures |row| == |RowAt(a, r)|
  {
    seq(|RowAt(a, r)|, c => if Covers(m, r - py, c - px) then m[r - py][c - px] else At(a, r, c))
  }

  /** Piece cell (i2, j2) comes before cell (i, j) in row-by-row order. */
  predicate Before(i2: int, j2: int, i: int, j: int)
  {
    i2 < i || (i2 == i && j2 < j)
  }

  /** The arena part-way through a merge: the piece cells before (i, j) are written in. */
  function MergedUpTo(a: Matrix, m: Matrix, px: int, py: int, i: int, j: int): (b: Matrix)
    ensures |b| == |a| && forall r :: 0 <= r < |a| ==> |b[r]| == |a[r]|
  {
    seq(|a|, r => MergedUpToRow(a, m, px, py, i, j, r))
  }

  /** Part-way through a merge, a covered cell before (i, j) holds the piece's cell and every other cell the arena's. */
  lemma {:induction false} MergedUpToAt(a: Matrix, m: Matrix, px: int, py: int, i: int, j: int, r: int, c: int)
    requires 0 <= r < |a| && 0 <= c < |a[r]|
    ensures MergedUpTo(a, m, px, py, i, j)[r][c] ==
      if Covers(m, r - py, c - px) && Before(r - py, c - px, i, j) then m[r - py][c - px] else a[r][c]
  {
  }

  /** Row r of the arena part-way through a merge. */
  function MergedUpToRow(a: Matrix, m: Matrix, px: int, py: int, i: int, j: int, r: int): (row: seq<int>)
    ensures |row| == |RowAt(a, r)|
  {
    seq(|RowAt(a, r)|, c =>
      if Covers(m, r - py, c - px) && Before(r - py, c - px, i, j) then m[r - py][c - px] else At(a, r, c))
  }

  /** Before the first cell nothing is written; after the last row everything is. */
  lemma {:induction false} MergedUpToEnds(a: Matrix, m: Matrix, px: int, py: int)
    ensures MergedUpTo(a, m, px, py, 0, 0) == a
    ensures MergedUpTo(a, m, px, py, |m|, 0) == Merged(a, m, px, py)
  {
    var b0, b1, mm := MergedUpTo(a, m, px, py, 0, 0), MergedUpTo(a, m, px, py, |m|, 0), Merged(a, m, px, py);
    MergedCells(a, m, px, py);
    forall r, c | 0 <= r < |a| && 0 <= c < |a[r]|
      ensures b0[r][c] == a[r][c] && b1[r][c] == mm[r][c]
    {
      MergedUpToAt(a, m, px, py, 0, 0, r, c);
      MergedUpToAt(a, m, px, py, |m|, 0, r, c);
    }
    CellsEqual(b0, a);
    CellsEqual(b1, mm);
  }

  /** Passing the end of row i is starting row i + 1. */
  lemma {:induction false} MergedUpToNextRow(a: Matrix, m: Matrix, px: int, py: int, i: int)
    requires 0 <= i < |m|
    ensures MergedUpTo(a, m, px, py, i, |m[i]|) == MergedUpTo(a, m, px, py, i + 1, 0)
  {
    var b0, b1 := MergedUpTo(a, m, px, py, i, |m[i]|), MergedUpTo(a, m, px, py, i + 1, 0);
    forall r, c | 0 <= r < |a| && 0 <= c < |a[r]|
      ensures b0[r][c] == b1[r][c]
    {
      MergedUpToAt(a, m, px, py, i, |m[i]|, r, c);
      MergedUpToAt(a, m, px, py, i + 1, 0, r, c);
    }
    CellsEqual(b0, b1);
  }

  /** Passing an empty piece cell writes nothing. */
  lemma {:induction false} MergedUpToSkip(a: Matrix, m: Matrix, px: int, py: int, i: int, j: int)
    requires 0 <= i < |m| && 0 <= j < |m[i]| && m[i][j] == 0
    ensures MergedUpTo(a, m, px, py, i, j + 1) == MergedUpTo(a, m, px, py, i, j)
  {
    var b, b1 := MergedUpTo(a, m, px, py, i, j), MergedUpTo(a, m, px, py, i, j + 1);
    forall r, c | 0 <= r < |a| && 0 <= c < |a[r]|
      ensures b1[r][c] == b[r][c]
    {
      MergedUpToAt(a, m, px, py, i, j, r, c);
      MergedUpToAt(a, m, px, py, i, j + 1, r, c);
    }
    CellsEqual(b1, b);
  }

  /** Writing an occupied piece cell (i, j) into the arena extends the merge by that one cell. */
  lemma {:induction false} MergedUpToWrite(a: Matrix, m: Matrix, px: int, py: int, i: int, j: int)
    requires 0 <= i < |m| && 0 <= j < |m[i]| && m[i][j] != 0
    requires 0 <= py + i < |a| && 0 <= px + j < |a[py + i]|
    ensures var b := MergedUpTo(a, m, px, py, i, j);
      MergedUpTo(a, m, px, py, i, j + 1) == b[py + i := b[py + i][px + j := m[i][j]]]
  {
    var b := MergedUpTo(a, m, px, py, i, j);
    var b1 := MergedUpTo(a, m, px, py, i, j + 1);
    var b' := b[py + i := b[py + i][px + j := m[i][j]]];
    forall r, c | 0 <= r < |a| && 0 <= c < |a[r]|
      ensures b1[r][c] == b'[r][c]
    {
      MergedUpToAt(a, m, px, py, i, j + 1, r, c);
      if r == py + i && c == px + j {
        assert Covers(m, i, j);
      } else {
        MergedUpToAt(a, m, px, py, i, j, r, c);
        assert b'[r][c] == b[r][c];
      }
    }
    CellsEqual(b1, b');
  }

  /** Number of full rows. */
  function FullCount(rows: Matrix): (k: nat)
    ensures k <= |rows|
  {
    if rows == [] then 0 else (if IsFull(rows[0]) then 1 else 0) + FullCount(rows[1..])
  }

  /** The rows that are not full, in their original order. */
  function Kept(rows: Matrix): (s: Matrix)
  {
    if rows == [] then [] else (if IsFull(rows[0]) then [] else [rows[0]]) + Kept(rows[1..])
  }

  /** The arena after a sweep: one empty row on top for every full row removed, then the other rows in order. */
  function Swept(a: Matrix): Matrix
  {
    ZeroRows(FullCount(a)) + Kept(a)
  }

  /** Every row is either kept or counted as full, and no kept row is full. */
  lemma {:induction false} KeptSplit(rows: Matrix)
    ensures |Kept(rows)| + FullCount(rows) == |rows|
    ensures forall r :: 0 <= r < |Kept(rows)| ==> !IsFull(Kept(rows)[r])
    ensures forall r :: 0 <= r < |Kept(rows)| ==> Kept(rows)[r] in rows
  {
    if rows != [] {
      KeptSplit(rows[1..]);
      var head := if IsFull(rows[0]) then [] else [rows[0]];
      assert Kept(rows) == head + Kept(rows[1..]);
      forall r | 0 <= r < |Kept(rows)|
        ensures !IsFull(Kept(rows)[r]) && Kept(rows)[r] in rows
      {
        if r >= |head| {
          assert Kept(rows)[r] == Kept(rows[1..])[r - |head|];
        }
      }
    }
  }

  /**
   * The arena part-way through a sweep that scans upwards: cnt empty rows
   * on top, the rows a[..j] not yet examined, and the kept rows of a[j..].
   */
  function SweepState(a: Matrix, j: nat, cnt: nat): Matrix
    requires j <= |a|
  {
    ZeroRows(cnt) + a[..j] + Kept(a[j..])
  }

  /** Where the scan stands: the empty rows on top, then original row j - 1 at index cnt + j - 1. */
  lemma {:induction false} SweepStateAt(a: Matrix, j: nat, cnt: nat)
    requires j <= |a|
    ensures |SweepState(a, j, cnt)| >= cnt + j
    ensures forall r :: 0 <= r < cnt ==> SweepState(a, j, cnt)[r] == ZeroRow(Width)
    ensures 0 < j ==> SweepState(a, j, cnt)[cnt + j - 1] == a[j - 1]
  {
  }

  /** Examining a row that is not full moves the scan up one row and changes nothing. */
  lemma {:induction false} SweepStepKeep(a: Matrix, j: nat, cnt: nat)
    requires 0 < j <= |a| && !IsFull(a[j - 1])
    ensures SweepState(a, j - 1, cnt) == SweepState(a, j, cnt)
    ensures FullCount(a[j - 1..]) == FullCount(a[j..])
  {
    assert a[j - 1..] == [a[j - 1]] + a[j..];
    assert a[j - 1..][1..] == a[j..];
    assert a[..j] == a[..j - 1] + [a[j - 1]];
  }

  /** Removing a full row and putting an empty one on top is one more cleared row of the sweep. */
  lemma {:induction false} SweepStepRemove(a: Matrix, j: nat, cnt: nat, rows: Matrix, r: int)
    requires IsBoard(a) && 0 < j <= |a| && IsFull(a[j - 1])
    requires rows == SweepState(a, j, cnt) && r == cnt + j - 1
    ensures 0 <= r < |rows|
    ensures [ZeroRow(|rows[r]|)] + rows[..r] + rows[r + 1..] == SweepState(a, j - 1, cnt + 1)
    ensures FullCount(a[j - 1..]) == FullCount(a[j..]) + 1
  {
    assert a[j - 1..] == [a[j - 1]] + a[j..];
    assert a[j - 1..][1..] == a[j..];
    assert Kept(a[j - 1..]) == Kept(a[j..]);
    assert rows[r] == a[j - 1];
    assert rows[..r] == ZeroRows(cnt) + a[..j - 1];
    assert rows[r + 1..] == Kept(a[j..]);
    assert ZeroRows(cnt + 1) == [ZeroRow(Width)] + ZeroRows(cnt);
  }

  /** The scan that starts below the last row and has examined every row has built the swept arena. */
  lemma {:induction false} SweepStateEnds(a: Matrix, cnt: nat)
    ensures SweepState(a, |a|, 0) == a
    ensures SweepState(a, 0, cnt) == ZeroRows(cnt) + Kept(a)
  {
    assert a[|a|..] == [] && a[..|a|] == a;
    assert Kept(a[|a|..]) == [];
    assert ZeroRows(0) == [];
    assert ZeroRows(0) + a[..|a|] + Kept(a[|a|..]) == a;
    assert a[..0] == [] && a[0..] == a;
  }

  /** A sweep keeps the arena's shape and leaves no full row. */
  lemma {:induction false} SweptIsBoard(a: Matrix)
    requires IsBoard(a)
    ensures IsBoard(Swept(a)) && NoFullRow(Swept(a))
  {
    KeptSplit(a);
    var z := ZeroRows(FullCount(a));
    assert !IsFull(ZeroRow(Width)) by { assert ZeroRow(Width)[0] == 0; }
    forall r | 0 <= r < |Swept(a)|
      ensures |Swept(a)[r]| == Width && !IsFull(Swept(a)[r])
    {
      if r >= |z| {
        assert Swept(a)[r] == Kept(a)[r - |z|];
      }
    }
  }

  /** A sweep of an arena without full rows changes nothing. */
  lemma {:induction false} KeptAll(rows: Matrix)
    requires NoFullRow(rows)
    ensures Kept(rows) == rows && FullCount(rows) == 0
  {
    if rows != [] {
      assert !IsFull(rows[0]);
      KeptAll(rows[1..]);
    }
  }

  /** Counting full rows distributes over concatenation. */
  lemma {:induction false} FullCountAppend(a: Matrix, b: Matrix)
    ensures FullCount(a + b) == FullCount(a) + FullCount(b)
  {
    if a == [] {
      assert a + b == b;
    } else {
      assert (a + b)[0] == a[0];
      assert (a + b)[1..] == a[1..] + b;
      FullCountAppend(a[1..], b);
    }
  }

  /** If the full rows all lie between lo and hi, at most hi - lo rows are full. */
  lemma {:induction false} FullCountWithin(a: Matrix, lo: int, hi: int)
    requires 0 <= lo <= hi <= |a|
    requires forall r :: 0 <= r < |a| && IsFull(a[r]) ==> lo <= r < hi
    ensures FullCount(a) <= hi - lo
  {
    var front, mid, back := a[..lo], a[lo..hi], a[hi..];
    assert a == front + mid + back;
    FullCountAppend(front + mid, back);
    FullCountAppend(front, mid);
    assert NoFullRow(front) by {
      forall r | 0 <= r < |front| ensures !IsFull(front[r]) {
        assert front[r] == a[r];
      }
    }
    assert NoFullRow(back) by {
      forall r | 0 <= r < |back| ensures !IsFull(back[r]) {
        assert back[r] == a[hi + r];
      }
    }
    KeptAll(front);
    KeptAll(back);
  }

  /**
   * Merging a piece that fits into an arena without full rows creates full
   * rows only where the piece lies, so at most |m| of them: a single sweep
   * never clears more rows than the piece is tall.
   */
  lemma {:induction false} MergedFullRows(a: Matrix, m: Matrix, px: int, py: int)
    requires IsBoard(a) && NoFullRow(a) && !Collides(a, m, px, py)
    ensures FullCount(Merged(a, m, px, py)) <= |m|
  {
    var b := Merged(a, m, px, py);
    MergedCells(a, m, px, py);
    var lo := if py < 0 then 0 else if py > Height then Height else py;
    var hi := if py + |m| < lo then lo else if py + |m| > Height then Height else py + |m|;
    forall r | 0 <= r < |b| && IsFull(b[r])
      ensures lo <= r < hi
    {
      assert !IsFull(a[r]);
      var c :| 0 <= c < |a[r]| && a[r][c] == 0;
      assert b[r][c] != 0;
      assert Covers(m, r - py, c - px);
      assert !HitsAt(a, m, px, py, r - py, c - px);
    }
    FullCountWithin(b, lo, hi);
  }

  /** Points for clearing k rows at once, before the level multiplier. */
  function LineScore(k: nat): (p: nat)
    requires k <= MaxScoredRows
    ensures k > 0 ==> p >= 100 * k
  {
    [0, 100, 300, 500, 800][k]
  }

  function Max(a: int, b: int): (m: int)
    ensures m >= a && m >= b && (m == a || m == b)
  {
    if a >= b then a else b
  }

  /** Score, level, lines cleared and automatic fall interval of a session. */
  datatype Stats = Stats(score: nat, level: nat, lines: nat, interval: int)

  /** The session counters of a new game. */
  const StartStats := Stats(0, 1, 0, StartInterval)

  /** The fall interval that belongs with a level: 50 ms faster per level, never below 100 ms. */
  function IntervalFor(level: nat): (ms: int)
    ensures MinInterval <= ms
    ensures level >= 1 ==> ms <= StartInterval
  {
    Max(MinInterval, StartInterval - 50 * (level - 1))
  }

  /** The level is one more than the number of completed tens of lines, and the interval goes with it. */
  predicate Consistent(s: Stats)
  {
    s.level == s.lines / LevelThreshold + 1 && s.interval == IntervalFor(s.level)
  }

  /** The counters after a sweep that cleared k rows, scored at the level in force before it. */
  function Scored(s: Stats, k: nat): Stats
    requires k <= MaxScoredRows
  {
    if k == 0 then s
    else
      var score := s.score + LineScore(k) * s.level;
      var lines := s.lines + k;
      if lines >= s.level * LevelThreshold then
        Stats(score, s.level + 1, lines, Max(MinInterval, s.interval - 50))
      else
        Stats(score, s.level, lines, s.interval)
  }

  /**
   * What one sweep does to the counters: the score never falls, the lines
   * grow by exactly k, the level grows by at most one, and the interval
   * never rises and never drops below the floor.
   */
  lemma {:induction false} ScoredProgress(s: Stats, k: nat)
    requires k <= MaxScoredRows && s.interval >= MinInterval
    ensures var t := Scored(s, k);
      && t.score >= s.score
      && t.lines == s.lines + k
      && (t.level == s.level || t.level == s.level + 1)
      && (t.level == s.level + 1 <==> k > 0 && s.lines + k >= s.level * LevelThreshold)
      && MinInterval <= t.interval <= s.interval
  {
  }

  /**
   * Because a sweep clears at most four rows, the lines can never skip a
   * whole level: a consistent session stays consistent.
   */
  lemma {:induction false} ScoredConsistent(s: Stats, k: nat)
    requires Consistent(s) && k <= MaxScoredRows
    ensures Consistent(Scored(s, k))
  {
    if k > 0 {
      var lines := s.lines + k;
      assert (s.level - 1) * 10 <= s.lines < s.level * 10;
      if lines >= s.level * 10 {
        assert lines / 10 == s.level;
      } else {
        assert lines / 10 == s.level - 1;
      }
    }
  }

  /** The scoring examples: one row at level 1 is worth 100, four rows 800, four rows at level 3 2400. */
  lemma {:induction false} ScoreExamples()
    ensures Scored(StartStats, 1).score == 100
    ensures Scored(StartStats, 4).score == 800
    ensures Scored(Stats(0, 3, 20, IntervalFor(3)), 4).score == 2400
  {
  }

  /**
   * The horizontal shift of the k-th position the wall kick tries: 0, +1,
   * -1, +2, -2, ... (the k-th kick adds an offset of size k, alternating in sign).
   */
  function KickShift(k: nat): int
  {
    if k == 0 then 0 else KickShift(k - 1) + KickOffset(k - 1)
  }

  /**
   * The offset added to the position by the (k+1)-th kick: it starts at 1,
   * and each kick flips its sign and grows its size by one.
   */
  function KickOffset(k: nat): int
  {
    if k == 0 then 1
    else -(KickOffset(k - 1) + (if KickOffset(k - 1) > 0 then 1 else -1))
  }

  /** The offsets in closed form: +1, -2, +3, -4, ... */
  lemma {:induction false} KickOffsetClosed(k: nat)
    ensures k % 2 == 0 ==> KickOffset(k) == k + 1
    ensures k % 2 == 1 ==> KickOffset(k) == -(k + 1)
  {
    if k > 0 {
      KickOffsetClosed(k - 1);
    }
  }

  /** The kick positions in closed form: odd tries go (k + 1) / 2 to the right, even tries k / 2 to the left. */
  lemma {:induction false} KickShiftClosed(k: nat)
    ensures k % 2 == 1 ==> KickShift(k) == (k + 1) / 2
    ensures k % 2 == 0 ==> KickShift(k) == -(k / 2)
  {
    if k > 0 {
      KickShiftClosed(k - 1);
      KickOffsetClosed(k - 1);
    }
  }

  /** The kick never tries one position twice. */
  lemma {:induction false} KickShiftInjective(k1: nat, k2: nat)
    requires k1 != k2
    ensures KickShift(k1) != KickShift(k2)
  {
    KickShiftClosed(k1);
    KickShiftClosed(k2);
  }

  /**
   * The first try, from k up to limit, at which piece m fits with shift
   * KickShift(try) from x0 on row y; limit + 1 when none of them fits.
   */
  function FirstFit(a: Matrix, m: Matrix, x0: int, y: int, k: nat, limit: nat): (f: nat)
    requires k <= limit + 1
    ensures k <= f <= limit + 1
    decreases limit + 1 - k
  {
    if k > limit then k
    else if !Collides(a, m, x0 + KickShift(k), y) then k
    else FirstFit(a, m, x0, y, k + 1, limit)
  }

  /** What the search finds: every try before the result collides, and the result fits unless it is limit + 1. */
  lemma {:induction false} FirstFitSpec(a: Matrix, m: Matrix, x0: int, y: int, k: nat, limit: nat)
    requires k <= limit + 1
    ensures var f := FirstFit(a, m, x0, y, k, limit);
      && (f <= limit ==> !Collides(a, m, x0 + KickShift(f), y))
      && forall t :: k <= t < f ==> Collides(a, m, x0 + KickShift(t), y)
    decreases limit + 1 - k
  {
    if k <= limit && Collides(a, m, x0 + KickShift(k), y) {
      FirstFitSpec(a, m, x0, y, k + 1, limit);
    }
  }

  /** The wall kick's step: the next shift adds the offset, and the offset's size passes n + 1 exactly after try n. */
  lemma {:induction false} KickStep(k: nat, n: nat)
    ensures KickShift(k + 1) == KickShift(k) + KickOffset(k)
    ensures (KickOffset(k + 1) > n + 1 || KickOffset(k + 1) < -(n + 1)) <==> k + 1 > n
  {
    KickOffsetClosed(k + 1);
  }

  /** A search whose tries before k all collide, and which fits at k or has run past limit, finds k. */
  lemma {:induction false} FirstFitIs(a: Matrix, m: Matrix, x0: int, y: int, s: nat, k: nat, limit: nat)
    requires s <= k <= limit + 1
    requires forall t :: s <= t < k ==> Collides(a, m, x0 + KickShift(t), y)
    requires k <= limit ==> !Collides(a, m, x0 + KickShift(k), y)
    ensures FirstFit(a, m, x0, y, s, limit) == k
    decreases k - s
  {
    if s < k {
      assert Collides(a, m, x0 + KickShift(s), y);
      FirstFitIs(a, m, x0, y, s + 1, k, limit);
    }
  }

  /** The spawn column of a piece: centred, half the arena width less half the piece width. */
  function SpawnX(t: Tetromino): (x: int)
    ensures 0 <= x && x + |Shape(t)| <= Width
  {
    Width / 2 - |Shape(t)| / 2
  }

  /** A freshly spawned piece always fits on an empty arena, so a new game never ends at once. */
  lemma {:induction false} SpawnFitsEmptyBoard(t: Tetromino, power: bool)
    ensures !Collides(EmptyBoard(), PieceGrid(t, power), SpawnX(t), 0)
  {
    var a := EmptyBoard();
    var m := PieceGrid(t, power);
    forall i, j | 0 <= i < |m| && 0 <= j < |m[i]|
      ensures !HitsAt(a, m, SpawnX(t), 0, i, j)
    {
      assert a[i] == ZeroRow(Width);
    }
  }
}

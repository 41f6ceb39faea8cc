/**
 * The integer rules of the Space Invaders mini-game, as values: the shooting
 * intervals, the wave table, where spawned enemies stand, how the ship and
 * the bullets move, and what a bullet does to the enemies it meets. The
 * mutable game state that runs these rules is module InvadersGame.
 */
module InvadersRules {

  /** The canvas every level is played on. */
  const CanvasWidth := 800
  const CanvasHeight := 400

  /** The ship: position, size, speed per frame and the velocity of the current frame. */
  datatype Player = Player(x: int, y: int, width: int, height: int, speed: int, dx: int)

  /**
   * An enemy of a wave. The random phase offset the source stores for the
   * wave motion of moveEnemies is not kept, since that motion is not modelled.
   */
  datatype Enemy = Enemy(x: int, y: int, initialY: int, width: int, height: int, alive: bool, boss: bool, health: int)

  /** A bullet of the ship or of an enemy. */
  datatype Bullet = Bullet(x: int, y: int, width: int, height: int, speed: int)

  /** The ship at the start of a level: centred, 50 pixels above the bottom edge, at rest. */
  const StartPlayer := Player(CanvasWidth / 2 - 20, CanvasHeight - 50, 40, 20, 5, 0)

  /** Math.max on integers. TetrisBoard keeps its own: the two games share no code, in the source or here. */
  function Max(a: int, b: int): int
  {
    if a >= b then a else b
  }

  // ---------------------------------------------------------------- intervals

  /** Frames between volleys of the normal enemies: 200 at level 1, 15 fewer per level, never fewer than 60. */
  function EnemyShootInterval(level: int): (frames: int)
    ensures 60 <= frames
    ensures level >= 1 ==> frames <= 200
    ensures level <= 10 ==> frames == 200 - 15 * (level - 1)
    ensures level >= 11 ==> frames == 60
  {
    Max(200 - (level - 1) * 15, 60)
  }

  /** Frames between volleys of the boss: 150 at level 1, 10 fewer per level, never fewer than 40. */
  function BossShootInterval(level: int): (frames: int)
    ensures 40 <= frames
    ensures level >= 1 ==> frames <= 150
    ensures level <= 12 ==> frames == 150 - 10 * (level - 1)
    ensures level >= 12 ==> frames == 40
  {
    Max(150 - (level - 1) * 10, 40)
  }

  /** A later level never shoots less often: both intervals only shrink as the level rises. */
  lemma {:induction false} IntervalsShrink(l1: int, l2: int)
    requires l1 <= l2
    ensures EnemyShootInterval(l2) <= EnemyShootInterval(l1)
    ensures BossShootInterval(l2) <= BossShootInterval(l1)
  {
  }

  /** Bullets the boss fires per volley: one below level 4, two from level 4 on. */
  function BossVolley(level: int): (n: nat)
    ensures 1 <= n <= 2
    ensures n == 2 <==> level >= 4
  {
    if level < 4 then 1 else 2
  }

  // ---------------------------------------------------------------- waves

  /** What a level spawns: a grid of normal enemies, or a single boss. */
  datatype Wave = Grid(rows: int, cols: int) | Boss(health: int)

  /** JavaScript's remainder: it truncates toward zero, so it takes the sign of the dividend. */
  function JsRem(a: int, b: int): (r: int)
    requires b > 0
    ensures -b < r < b
    ensures a >= 0 ==> r == a % b
    ensures a < 0 ==> r <= 0
  {
    if a >= 0 then a % b else -((-a) % b)
  }

  /**
   * The wave of a level: the grids 2x6, 3x8, 4x9, 5x10 and 6x12 on levels 1,
   * 2, 4, 6 and 8, a boss of health 60, 80 and 120 on levels 3, 5 and 7, and
   * a grid of (4 + lvl % 3) rows by (8 + lvl % 5) columns on every other level.
   */
  function WaveFor(lvl: int): (w: Wave)
    ensures w.Boss? <==> lvl == 3 || lvl == 5 || lvl == 7
    ensures w.Boss? ==> 60 <= w.health <= 120
    ensures w.Grid? ==> 2 <= w.rows <= 6 && 4 <= w.cols <= 12
    ensures lvl > 8 ==> w.Grid? && 4 <= w.rows <= 6 && 8 <= w.cols <= 12
  {
    if lvl == 1 then Grid(2, 6)
    else if lvl == 2 then Grid(3, 8)
    else if lvl == 3 then Boss(60)
    else if lvl == 4 then Grid(4, 9)
    else if lvl == 5 then Boss(80)
    else if lvl == 6 then Grid(5, 10)
    else if lvl == 7 then Boss(120)
    else if lvl == 8 then Grid(6, 12)
    else Grid(4 + JsRem(lvl, 3), 8 + JsRem(lvl, 5))
  }

  /** Size of a normal enemy and the spacing of the grid. */
  const EnemyWidth := 30
  const EnemyHeight := 20
  const Padding := 10
  const OffsetTop := 50
  const OffsetLeft := 50

  /** The normal enemy spawned at row r, column c of a grid: alive, one health. */
  function GridEnemy(r: int, c: int): Enemy
  {
    var y := OffsetTop + r * (EnemyHeight + Padding);
    Enemy(OffsetLeft + c * (EnemyWidth + Padding), y, y, EnemyWidth, EnemyHeight, true, false, 1)
  }

  /** The enemies of a grid, row by row and each row left to right; none when either count is not positive. */
  function GridEnemies(rows: int, cols: int): (es: seq<Enemy>)
    decreases rows
  {
    if rows <= 0 then [] else GridEnemies(rows - 1, cols) + GridRowEnemies(rows - 1, cols)
  }

  /** The first cols enemies of grid row r, left to right. */
  function GridRowEnemies(r: int, cols: int): (es: seq<Enemy>)
  {
    seq(Max(cols, 0), c => GridEnemy(r, c))
  }

  /** A grid of rows x cols enemies has rows * cols of them. */
  lemma {:induction false} GridEnemiesCount(rows: int, cols: int)
    requires cols >= 0
    ensures |GridEnemies(rows, cols)| == Max(rows, 0) * cols
    decreases rows
  {
    if rows > 0 {
      GridEnemiesCount(rows - 1, cols);
      assert Max(rows - 1, 0) == rows - 1;
      assert (rows - 1) * cols + cols == rows * cols;
    }
  }

  /**
   * The enemy at index r * cols + c of a grid is the one of row r, column c,
   * which stands at x = 50 + 40c, y = 50 + 30r.
   */
  lemma {:induction false} GridEnemyIndex(rows: int, cols: int, r: int, c: int)
    requires 0 <= r < rows && 0 <= c < cols
    ensures r * cols + c < |GridEnemies(rows, cols)|
    ensures GridEnemies(rows, cols)[r * cols + c] == GridEnemy(r, c)
    ensures GridEnemy(r, c).x == 50 + 40 * c && GridEnemy(r, c).y == GridEnemy(r, c).initialY == 50 + 30 * r
    decreases rows
  {
    var prev := GridEnemies(rows - 1, cols);
    GridEnemiesCount(rows - 1, cols);
    assert |prev| == (rows - 1) * cols;
    if r < rows - 1 {
      GridEnemyIndex(rows - 1, cols, r, c);
    } else {
      assert r * cols + c - |prev| == c;
    }
  }

  /** Every enemy of a grid spawn is a living normal enemy with one health. */
  lemma {:induction false} GridEnemiesNormal(rows: int, cols: int)
    ensures forall e :: e in GridEnemies(rows, cols) ==> e.alive && !e.boss && e.health == 1
    decreases rows
  {
    if rows > 0 {
      GridEnemiesNormal(rows - 1, cols);
    }
  }

  /** The boss of a boss level: centred at the top, 80 by 40, alive with the given health. */
  function BossEnemy(health: int): (e: Enemy)
    ensures e.alive && e.boss && e.health == health
    ensures e.x == 360 && e.y == 50 && e.width == 80 && e.height == 40
  {
    Enemy(CanvasWidth / 2 - 40, 50, 50, 80, 40, true, true, health)
  }

  /** The enemies a level spawns. */
  function WaveEnemies(lvl: int): seq<Enemy>
  {
    match WaveFor(lvl)
    case Grid(rows, cols) => GridEnemies(rows, cols)
    case Boss(health) => [BossEnemy(health)]
  }

  /**
   * Levels 3, 5 and 7 spawn exactly one boss, of health 60, 80 and 120; every
   * other level spawns only living normal enemies, rows * cols of them.
   */
  lemma {:induction false} WaveEnemiesShape(lvl: int)
    ensures lvl == 3 ==> WaveEnemies(lvl) == [BossEnemy(60)]
    ensures lvl == 5 ==> WaveEnemies(lvl) == [BossEnemy(80)]
    ensures lvl == 7 ==> WaveEnemies(lvl) == [BossEnemy(120)]
    ensures WaveFor(lvl).Grid? ==>
      && |WaveEnemies(lvl)| == WaveFor(lvl).rows * WaveFor(lvl).cols
      && forall e :: e in WaveEnemies(lvl) ==> e.alive && !e.boss && e.health == 1
  {
    var w := WaveFor(lvl);
    if w.Grid? {
      GridEnemiesCount(w.rows, w.cols);
      GridEnemiesNormal(w.rows, w.cols);
    }
  }

  /** Every enemy a level spawns is alive with health left. */
  lemma {:induction false} WaveEnemiesHealthy(lvl: int)
    ensures forall e :: e in WaveEnemies(lvl) ==> e.alive && e.health > 0
  {
    var w := WaveFor(lvl);
    if w.Grid? {
      GridEnemiesNormal(w.rows, w.cols);
    }
  }

  // ---------------------------------------------------------------- the ship

  /**
   * The ship after movePlayer: the velocity is the speed to the right when
   * right is held and to the left when left is held (left wins when both
   * are), and the new column is clamped so the ship stays on the canvas.
   */
  function Moved(p: Player, left: bool, right: bool): (q: Player)
    ensures q == p.(x := q.x, dx := q.dx)
    ensures q.dx == if left then -p.speed else if right then p.speed else 0
    ensures p.width <= CanvasWidth ==> 0 <= q.x <= CanvasWidth - p.width
    ensures 0 <= p.x + q.dx <= CanvasWidth - p.width ==> q.x == p.x + q.dx
    ensures p.width <= CanvasWidth && p.x + q.dx < 0 ==> q.x == 0
    ensures p.x + q.dx > CanvasWidth - p.width ==> q.x == CanvasWidth - p.width
  {
    var dx := if left then -p.speed else if right then p.speed else 0;
    var x := p.x + dx;
    var x := if x < 0 then 0 else x;
    var x := if x + p.width > CanvasWidth then CanvasWidth - p.width else x;
    p.(x := x, dx := dx)
  }

  /** The ship's bullet: 4 by 10, from the middle of the ship's top edge, 10 pixels a frame upwards. */
  function ShipBullet(p: Player): Bullet
  {
    Bullet(p.x + p.width / 2 - 2, p.y, 4, 10, 10)
  }

  // ---------------------------------------------------------------- the ship's bullets

  /** A ship bullet one frame later. */
  function Up(b: Bullet): Bullet
  {
    b.(y := b.y - b.speed)
  }

  /** The ship's bullets after moveBullets: each moved up by its speed, those past the top edge gone, the rest in order. */
  function MovedUp(bs: seq<Bullet>): (r: seq<Bullet>)
    ensures |r| <= |bs|
    ensures forall b :: b in r ==> b.y >= 0
  {
    if bs == [] then []
    else (if Up(bs[0]).y < 0 then [] else [Up(bs[0])]) + MovedUp(bs[1..])
  }

  /** A bullet survives moveBullets exactly when it is some bullet moved up and still on the canvas. */
  lemma {:induction false} MovedUpMembers(bs: seq<Bullet>, b: Bullet)
    ensures b in MovedUp(bs) <==> exists k :: 0 <= k < |bs| && b == Up(bs[k]) && b.y >= 0
  {
    if bs != [] {
      MovedUpMembers(bs[1..], b);
      if b in MovedUp(bs[1..]) {
        var k :| 0 <= k < |bs[1..]| && b == Up(bs[1..][k]) && b.y >= 0;
        assert b == Up(bs[k + 1]);
      }
      if exists k :: 0 <= k < |bs| && b == Up(bs[k]) && b.y >= 0 {
        var k :| 0 <= k < |bs| && b == Up(bs[k]) && b.y >= 0;
        if k > 0 {
          assert b == Up(bs[1..][k - 1]);
        }
      }
    }
  }

  /** moveBullets keeps order: the survivors of two runs of bullets are the survivors of each, in turn. */
  lemma {:induction false} MovedUpAppend(xs: seq<Bullet>, ys: seq<Bullet>)
    ensures MovedUp(xs + ys) == MovedUp(xs) + MovedUp(ys)
  {
    if xs != [] {
      assert (xs + ys)[1..] == xs[1..] + ys;
      MovedUpAppend(xs[1..], ys);
    } else {
      assert xs + ys == ys;
    }
  }

  // ---------------------------------------------------------------- the enemies' bullets

  /** An enemy bullet one frame later. */
  function Down(b: Bullet): Bullet
  {
    b.(y := b.y + b.speed)
  }

  /** The bullet's bottom edge has reached the ship's top and it overlaps the ship horizontally. */
  predicate HitsPlayer(b: Bullet, p: Player)
  {
    b.y + b.height >= p.y && b.x < p.x + p.width && b.x + b.width > p.x
  }

  /** A moved enemy bullet ends the game: it is still on the canvas and it hits the ship. */
  predicate Kills(b: Bullet, p: Player)
  {
    b.y <= CanvasHeight && HitsPlayer(b, p)
  }

  /** The enemies' bullets after moveEnemyBullets: each moved down, those off the bottom or on the ship gone, the rest in order. */
  function MovedDown(bs: seq<Bullet>, p: Player): (r: seq<Bullet>)
    ensures |r| <= |bs|
  {
    if bs == [] then []
    else
      var b := Down(bs[0]);
      (if b.y > CanvasHeight || HitsPlayer(b, p) then [] else [b]) + MovedDown(bs[1..], p)
  }

  /** Some enemy bullet, once moved, is still on the canvas and on the ship. */
  predicate PlayerHit(bs: seq<Bullet>, p: Player)
  {
    bs != [] && (Kills(Down(bs[0]), p) || PlayerHit(bs[1..], p))
  }

  /** The ship is hit exactly when one of the moved bullets is on the canvas and touches it. */
  lemma {:induction false} PlayerHitWitness(bs: seq<Bullet>, p: Player)
    ensures PlayerHit(bs, p) <==> exists k :: 0 <= k < |bs| && Kills(Down(bs[k]), p)
  {
    if bs != [] {
      PlayerHitWitness(bs[1..], p);
      if exists k :: 0 <= k < |bs| && Kills(Down(bs[k]), p) {
        var k :| 0 <= k < |bs| && Kills(Down(bs[k]), p);
        if k > 0 {
          assert Kills(Down(bs[1..][k - 1]), p);
        }
      }
      if PlayerHit(bs[1..], p) {
        var k :| 0 <= k < |bs[1..]| && Kills(Down(bs[1..][k]), p);
        assert Kills(Down(bs[k + 1]), p);
      }
    }
  }

  /** Every enemy bullet left after the move is on the canvas and clear of the ship. */
  lemma {:induction false} MovedDownClear(bs: seq<Bullet>, p: Player)
    ensures forall b :: b in MovedDown(bs, p) ==> b.y <= CanvasHeight && !HitsPlayer(b, p)
  {
    if bs != [] {
      MovedDownClear(bs[1..], p);
    }
  }

  /** A bullet survives moveEnemyBullets exactly when it is some bullet moved down, still on the canvas and clear of the ship. */
  lemma {:induction false} MovedDownMembers(bs: seq<Bullet>, p: Player, b: Bullet)
    ensures b in MovedDown(bs, p) <==>
      exists k :: 0 <= k < |bs| && b == Down(bs[k]) && b.y <= CanvasHeight && !HitsPlayer(b, p)
  {
    if bs != [] {
      MovedDownMembers(bs[1..], p, b);
      if b in MovedDown(bs[1..], p) {
        var k :| 0 <= k < |bs[1..]| && b == Down(bs[1..][k]) && b.y <= CanvasHeight && !HitsPlayer(b, p);
        assert b == Down(bs[k + 1]);
      }
      if exists k :: 0 <= k < |bs| && b == Down(bs[k]) && b.y <= CanvasHeight && !HitsPlayer(b, p) {
        var k :| 0 <= k < |bs| && b == Down(bs[k]) && b.y <= CanvasHeight && !HitsPlayer(b, p);
        if k > 0 {
          assert b == Down(bs[1..][k - 1]);
        }
      }
    }
  }

  /** moveEnemyBullets keeps order: the survivors of two runs of bullets are the survivors of each, in turn. */
  lemma {:induction false} MovedDownAppend(xs: seq<Bullet>, ys: seq<Bullet>, p: Player)
    ensures MovedDown(xs + ys, p) == MovedDown(xs, p) + MovedDown(ys, p)
  {
    if xs != [] {
      assert (xs + ys)[1..] == xs[1..] + ys;
      MovedDownAppend(xs[1..], ys, p);
    } else {
      assert xs + ys == ys;
    }
  }

  // ---------------------------------------------------------------- enemy fire

  /** A bullet fired by an enemy: 4 by 10, from the middle of its bottom edge, 3 pixels a frame downwards. */
  function Muzzle(shooter: Enemy): Bullet
  {
    Bullet(shooter.x + shooter.width / 2 - 2, shooter.y + shooter.height, 4, 10, 3)
  }

  /** Enemy t fires in a volley of the normal enemies: a living normal enemy whose random draw came out. */
  predicate Fires(es: seq<Enemy>, picks: seq<bool>, t: int)
  {
    0 <= t < |es| && !es[t].boss && es[t].alive && t < |picks| && picks[t]
  }

  /** The bullets the first n enemies fire in a volley of the normal enemies, in enemy order. */
  function Salvo(es: seq<Enemy>, picks: seq<bool>, n: nat): seq<Bullet>
    requires n <= |es|
  {
    if n == 0 then [] else Salvo(es, picks, n - 1) + (if Fires(es, picks, n - 1) then [Muzzle(es[n - 1])] else [])
  }

  /** The enemies among the first n that fire in a volley of the normal enemies. */
  ghost function Firing(es: seq<Enemy>, picks: seq<bool>, n: nat): set<int>
  {
    set t | 0 <= t < n && Fires(es, picks, t)
  }

  /**
   * Each bullet of a volley comes from a living normal enemy whose draw came
   * out, and every such enemy's bullet is there.
   */
  lemma {:induction false} SalvoShooters(es: seq<Enemy>, picks: seq<bool>, n: nat)
    requires n <= |es|
    ensures |Salvo(es, picks, n)| <= n
    ensures forall b :: b in Salvo(es, picks, n) ==> exists t :: 0 <= t < n && Fires(es, picks, t) && b == Muzzle(es[t])
    ensures forall t :: 0 <= t < n && Fires(es, picks, t) ==> Muzzle(es[t]) in Salvo(es, picks, n)
  {
    if n > 0 {
      SalvoShooters(es, picks, n - 1);
    }
  }

  /** A volley has exactly one bullet per firing enemy. */
  lemma {:induction false} SalvoCount(es: seq<Enemy>, picks: seq<bool>, n: nat)
    requires n <= |es|
    ensures |Salvo(es, picks, n)| == |Firing(es, picks, n)|
  {
    if n == 0 {
      assert Firing(es, picks, n) == {};
    } else {
      SalvoCount(es, picks, n - 1);
      var prev := Firing(es, picks, n - 1);
      if Fires(es, picks, n - 1) {
        assert Firing(es, picks, n) == prev + {n - 1};
      } else {
        assert Firing(es, picks, n) == prev;
      }
    }
  }

  /** Index of the first living boss from t on (enemies.find); |es| when there is none. */
  function FirstBoss(es: seq<Enemy>, t: nat): (k: nat)
    requires t <= |es|
    ensures t <= k <= |es|
    decreases |es| - t
  {
    if t == |es| then t else if es[t].boss && es[t].alive then t else FirstBoss(es, t + 1)
  }

  lemma {:induction false} FirstBossSpec(es: seq<Enemy>, t: nat)
    requires t <= |es|
    ensures var k := FirstBoss(es, t);
      && (k < |es| ==> es[k].boss && es[k].alive)
      && forall u :: t <= u < k ==> !(es[u].boss && es[u].alive)
    decreases |es| - t
  {
    if t < |es| && !(es[t].boss && es[t].alive) {
      FirstBossSpec(es, t + 1);
    }
  }

  /** n copies of one bullet. */
  function Copies(b: Bullet, n: nat): (r: seq<Bullet>)
  {
    if n == 0 then [] else Copies(b, n - 1) + [b]
  }

  /** The bullets of a boss volley: BossVolley(level) bullets from the first living boss, none without one. */
  function BossShots(es: seq<Enemy>, level: int): seq<Bullet>
  {
    var k := FirstBoss(es, 0);
    if k < |es| then Copies(Muzzle(es[k]), BossVolley(level)) else []
  }

  /** A boss volley is one bullet below level 4 and two from level 4 on, all from the first living boss; none when every boss is dead. */
  lemma {:induction false} BossShotsCount(es: seq<Enemy>, level: int)
    ensures (exists t :: 0 <= t < |es| && es[t].boss && es[t].alive) ==>
      |BossShots(es, level)| == (if level < 4 then 1 else 2)
    ensures (forall t :: 0 <= t < |es| ==> !(es[t].boss && es[t].alive)) ==> BossShots(es, level) == []
    ensures forall b :: b in BossShots(es, level) ==> exists t :: 0 <= t < |es| && es[t].boss && es[t].alive && b == Muzzle(es[t])
  {
    var k := FirstBoss(es, 0);
    FirstBossSpec(es, 0);
    if k < |es| {
      CopiesOf(Muzzle(es[k]), BossVolley(level));
    }
  }

  lemma {:induction false} CopiesOf(b: Bullet, n: nat)
    ensures |Copies(b, n)| == n && forall c :: c in Copies(b, n) ==> c == b
  {
    if n > 0 {
      CopiesOf(b, n - 1);
    }
  }

  // ---------------------------------------------------------------- hits on enemies

  /** The ship's bullet and the enemy's box overlap. */
  predicate Overlaps(b: Bullet, e: Enemy)
  {
    b.x < e.x + e.width && b.x + b.width > e.x && b.y < e.y + e.height && b.y + b.height > e.y
  }

  /** The bullet hits the enemy: the enemy is alive and overlaps it. */
  predicate Struck(b: Bullet, e: Enemy)
  {
    e.alive && Overlaps(b, e)
  }

  /** Index of the first enemy from j on that bullet b hits; |es| when it hits none. */
  function FirstStruck(b: Bullet, es: seq<Enemy>, j: nat): (k: nat)
    requires j <= |es|
    ensures j <= k <= |es|
    decreases |es| - j
  {
    if j == |es| then j else if Struck(b, es[j]) then j else FirstStruck(b, es, j + 1)
  }

  lemma {:induction false} FirstStruckSpec(b: Bullet, es: seq<Enemy>, j: nat)
    requires j <= |es|
    ensures var k := FirstStruck(b, es, j);
      && (k < |es| ==> Struck(b, es[k]))
      && forall u :: j <= u < k ==> !Struck(b, es[u])
    decreases |es| - j
  {
    if j < |es| && !Struck(b, es[j]) {
      FirstStruckSpec(b, es, j + 1);
    }
  }

  /** An enemy after a hit: one health less, and dead once its health is 0 or below. */
  function Damaged(e: Enemy): (d: Enemy)
    ensures d.health == e.health - 1 && d.boss == e.boss
    ensures d.alive <==> e.alive && e.health > 1
  {
    var d := e.(health := e.health - 1);
    if d.health <= 0 then d.(alive := false) else d
  }

  /** Points for a kill: 100 for a boss, 10 for a normal enemy. */
  function Bounty(e: Enemy): int
  {
    if e.boss then 100 else 10
  }

  /** The points the dead enemies of a wave are worth. */
  function Reward(es: seq<Enemy>): int
  {
    if es == [] then 0 else (if es[0].alive then 0 else Bounty(es[0])) + Reward(es[1..])
  }

  /** Replacing one enemy changes the reward by the difference of the two enemies' worth. */
  lemma {:induction false} RewardUpdate(es: seq<Enemy>, k: nat, e: Enemy)
    requires k < |es|
    ensures Reward(es[k := e]) ==
      Reward(es) - (if es[k].alive then 0 else Bounty(es[k])) + (if e.alive then 0 else Bounty(e))
  {
    if k == 0 {
      assert es[k := e][1..] == es[1..];
    } else {
      assert es[k := e][1..] == es[1..][k - 1 := e];
      RewardUpdate(es[1..], k - 1, e);
    }
  }

  /** The state checkCollisions works on: the ship's bullets still flying, the enemies, and the score. */
  datatype Field = Field(bullets: seq<Bullet>, enemies: seq<Enemy>, score: int)

  /**
   * One bullet of checkCollisions, taken after the bullets behind it: the
   * first enemy it hits loses one health, dies at 0 and scores its bounty,
   * and the bullet is gone; a bullet that hits nothing stays in front.
   */
  function Shot(b: Bullet, f: Field): (g: Field)
    ensures |g.enemies| == |f.enemies|
  {
    var k := FirstStruck(b, f.enemies, 0);
    if k == |f.enemies| then f.(bullets := [b] + f.bullets)
    else
      var d := Damaged(f.enemies[k]);
      Field(f.bullets, f.enemies[k := d], f.score + (if d.alive then 0 else Bounty(d)))
  }

  /**
   * The bullet pass of checkCollisions: the bullets are taken from the last
   * to the first, each against the enemies as the bullets after it left them.
   */
  function Volley(bs: seq<Bullet>, es: seq<Enemy>, score: int): (f: Field)
    ensures |f.enemies| == |es| && |f.bullets| <= |bs|
  {
    if bs == [] then Field([], es, score) else Shot(bs[0], Volley(bs[1..], es, score))
  }

  /**
   * A bullet damages at most one enemy, one it hits (alive and overlapping),
   * taking one health; it is removed exactly when it hits some enemy.
   */
  lemma {:induction false} ShotHitsOne(b: Bullet, f: Field)
    ensures var g := Shot(b, f);
      && (forall t, u ::
            (0 <= t < |f.enemies| && 0 <= u < |f.enemies| && g.enemies[t] != f.enemies[t] && g.enemies[u] != f.enemies[u])
            ==> t == u)
      && (forall t :: 0 <= t < |f.enemies| && g.enemies[t] != f.enemies[t] ==>
            Struck(b, f.enemies[t]) && g.enemies[t] == Damaged(f.enemies[t]))
      && ((exists t :: 0 <= t < |f.enemies| && Struck(b, f.enemies[t])) <==> g.bullets == f.bullets)
      && (g.bullets == f.bullets || g.bullets == [b] + f.bullets)
      && (g.bullets == f.bullets ==>
            exists t :: 0 <= t < |f.enemies| && Struck(b, f.enemies[t]) && g.enemies[t] == Damaged(f.enemies[t])
              && forall u :: 0 <= u < t ==> !Struck(b, f.enemies[u]))
  {
    var k := FirstStruck(b, f.enemies, 0);
    FirstStruckSpec(b, f.enemies, 0);
    if k == |f.enemies| {
      assert |[b] + f.bullets| != |f.bullets|;
    } else {
      assert Shot(b, f).enemies[k] == Damaged(f.enemies[k]);
    }
  }

  /** The score a bullet adds is the worth of the enemy it kills, if any. */
  lemma {:induction false} ShotScore(b: Bullet, f: Field)
    ensures Shot(b, f).score - f.score == Reward(Shot(b, f).enemies) - Reward(f.enemies)
  {
    var k := FirstStruck(b, f.enemies, 0);
    FirstStruckSpec(b, f.enemies, 0);
    if k < |f.enemies| {
      RewardUpdate(f.enemies, k, Damaged(f.enemies[k]));
    }
  }

  /** The score checkCollisions adds is exactly the worth of the enemies it kills: 100 a boss, 10 a normal enemy. */
  lemma {:induction false} VolleyScore(bs: seq<Bullet>, es: seq<Enemy>, score: int)
    ensures Volley(bs, es, score).score - score == Reward(Volley(bs, es, score).enemies) - Reward(es)
  {
    if bs != [] {
      VolleyScore(bs[1..], es, score);
      ShotScore(bs[0], Volley(bs[1..], es, score));
    }
  }

  /**
   * Over the whole pass, an enemy only changes by losing health, only a
   * living one is hit, and one that dies has no health left; the dead stay
   * dead and keep their place.
   */
  lemma {:induction false} VolleyDamage(bs: seq<Bullet>, es: seq<Enemy>, score: int)
    ensures var g := Volley(bs, es, score).enemies;
      forall t :: 0 <= t < |es| ==>
        && g[t].health <= es[t].health
        && g[t].x == es[t].x && g[t].y == es[t].y && g[t].boss == es[t].boss
        && (!es[t].alive ==> g[t] == es[t])
        && (es[t].alive && !g[t].alive ==> g[t].health <= 0)
  {
    if bs != [] {
      VolleyDamage(bs[1..], es, score);
      var f := Volley(bs[1..], es, score);
      ShotHitsOne(bs[0], f);
    }
  }

  /** Every living enemy has health left. */
  predicate AllHealthy(es: seq<Enemy>)
  {
    forall t :: 0 <= t < |es| && es[t].alive ==> es[t].health > 0
  }

  /** checkCollisions keeps every living enemy with health left: a hit that takes the last health kills. */
  lemma {:induction false} VolleyHealthy(bs: seq<Bullet>, es: seq<Enemy>, score: int)
    requires AllHealthy(es)
    ensures AllHealthy(Volley(bs, es, score).enemies)
  {
    if bs != [] {
      VolleyHealthy(bs[1..], es, score);
      var f := Volley(bs[1..], es, score);
      ShotHitsOne(bs[0], f);
    }
  }

  /** An enemy that has come down onto the ship: alive, its bottom at the ship's top or lower, overlapping it horizontally. */
  predicate Reaches(e: Enemy, p: Player)
  {
    e.alive && e.y + e.height >= p.y && e.x < p.x + p.width && e.x + e.width > p.x
  }
}

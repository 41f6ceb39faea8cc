/**
 * The state of the Space Invaders mini-game and the per-frame operations that
 * change it in place, each proved against the value rules of InvadersRules.
 */
module InvadersGame {
  import opened InvadersRules

  class Invaders {
    var player: Player
    var bullets: seq<Bullet>
    var enemies: seq<Enemy>
    var enemyBullets: seq<Bullet>
    var gameOver: bool
    var score: int
    var level: int
    var enemyDirection: int
    var enemyShootTimer: int
    var bossShootTimer: int

    /** Every living enemy has health left. */
    ghost predicate Healthy()
      reads this`enemies
    {
      AllHealthy(enemies)
    }

    /** Starting the game: level 1 of a fresh session. */
    constructor ()
      ensures level == 1 && score == 0 && !gameOver && player == StartPlayer
      ensures enemies == WaveEnemies(1) && bullets == [] && enemyBullets == []
      ensures enemyDirection == 1 && enemyShootTimer == 0 && bossShootTimer == 0
      ensures Healthy()
    {
      player := StartPlayer;
      bullets, enemies, enemyBullets := [], [], [];
      gameOver := false;
      score, level, enemyDirection := 0, 1, 1;
      enemyShootTimer, bossShootTimer := 0, 0;
      new;
      Init(1);
    }

    /**
     * Sets up a level: the ship at its start, no bullets, a new wave, score 0,
     * the enemies moving right, both shooting timers at 0 and the game on.
     */
    method Init(levelNum: int)
      modifies this
      ensures player == StartPlayer && bullets == [] && enemyBullets == []
      ensures enemies == WaveEnemies(levelNum) && Healthy()
      ensures !gameOver && score == 0 && level == levelNum && enemyDirection == 1
      ensures enemyShootTimer == 0 && bossShootTimer == 0
    {
      player := StartPlayer;
      bullets := [];
      enemies := [];
      enemyBullets := [];
      gameOver := false;
      score := 0;
      level := levelNum;
      enemyDirection := 1;
      enemyShootTimer := 0;
      bossShootTimer := 0;
      SpawnWave(level);
      WaveEnemiesHealthy(levelNum);
    }

    /** Appends the wave of level lvl to the enemies. */
    method SpawnWave(lvl: int)
      modifies this`enemies
      ensures enemies == old(enemies) + WaveEnemies(lvl)
    {
      match WaveFor(lvl)
      case Grid(rows, cols) => SpawnEnemies(rows, cols);
      case Boss(health) => SpawnBoss(health);
    }

    /** Appends a grid of rows x cols normal enemies, row by row. */
    method SpawnEnemies(rows: int, cols: int)
      modifies this`enemies
      ensures enemies == old(enemies) + GridEnemies(rows, cols)
    {
      var list := enemies;
      var r := 0;
      while r < rows
        invariant r <= rows || r == 0
        invariant list == old(enemies) + GridEnemies(r, cols)
      {
        var c := 0;
        while c < cols
          invariant c <= cols || c == 0
          invariant list == old(enemies) + GridEnemies(r, cols) + GridRowEnemies(r, c)
        {
          list := list + [GridEnemy(r, c)];
          assert GridRowEnemies(r, c + 1) == GridRowEnemies(r, c) + [GridEnemy(r, c)];
          c := c + 1;
        }
        r := r + 1;
      }
      enemies := list;
    }

    /** Appends one boss with the given health. */
    method SpawnBoss(bossHealth: int)
      modifies this`enemies
      ensures enemies == old(enemies) + [BossEnemy(bossHealth)]
    {
      enemies := enemies + [BossEnemy(bossHealth)];
    }

    /** Steers the ship by the held directions and keeps it on the canvas. */
    method MovePlayer(left: bool, right: bool)
      modifies this`player
      ensures player == Moved(old(player), left, right)
    {
      player := player.(dx := 0);
      if right {
        player := player.(dx := player.speed);
      }
      if left {
        player := player.(dx := -player.speed);
      }
      player := player.(x := player.x + player.dx);
      if player.x < 0 {
        player := player.(x := 0);
      }
      if player.x + player.width > CanvasWidth {
        player := player.(x := CanvasWidth - player.width);
      }
    }

    /** The ship fires a bullet. */
    method Shoot()
      modifies this`bullets
      ensures bullets == old(bullets) + [ShipBullet(player)]
    {
      bullets := bullets + [ShipBullet(player)];
    }

    /** Moves the ship's bullets up, dropping those past the top edge (see MoveUp). */
    method MoveBullets()
      modifies this`bullets
      ensures bullets == MovedUp(old(bullets))
    {
      bullets := MoveUp(bullets);
    }

    /** The loop of moveBullets, from the last bullet to the first: each moves up, and one past the top edge is dropped. */
    static method MoveUp(bs: seq<Bullet>) returns (list: seq<Bullet>)
      ensures list == MovedUp(bs)
    {
      list := bs;
      var i := |list| - 1;
      while i >= 0
        invariant -1 <= i < |bs|
        invariant list == bs[..i + 1] + MovedUp(bs[i + 1..])
      {
        assert bs[i..][1..] == bs[i + 1..];
        Splice(bs, MovedUp(bs[i + 1..]), i, Up(bs[i]), Up(bs[i]).y < 0);
        list := list[i := Up(list[i])];
        if list[i].y < 0 {
          list := list[..i] + list[i + 1..];
        }
        i := i - 1;
      }
      assert bs[0..] == bs;
    }

    /**
     * Moves the enemies' bullets down; a bullet that hits the ship ends the
     * game (see MoveDown).
     */
    method MoveEnemyBullets()
      modifies this`enemyBullets, this`gameOver
      ensures enemyBullets == MovedDown(old(enemyBullets), player)
      ensures gameOver == (old(gameOver) || PlayerHit(old(enemyBullets), player))
    {
      var list, hit := MoveDown(enemyBullets, player);
      enemyBullets := list;
      if hit {
        gameOver := true;
      }
    }

    /**
     * The loop of moveEnemyBullets, from the last bullet to the first: each
     * moves down; one past the bottom edge is dropped, and one that overlaps
     * the ship is dropped and reported in hit.
     */
    static method MoveDown(bs: seq<Bullet>, p: Player) returns (list: seq<Bullet>, hit: bool)
      ensures list == MovedDown(bs, p)
      ensures hit == PlayerHit(bs, p)
    {
      list, hit := bs, false;
      var i := |list| - 1;
      while i >= 0
        invariant -1 <= i < |bs|
        invariant list == bs[..i + 1] + MovedDown(bs[i + 1..], p)
        invariant hit == PlayerHit(bs[i + 1..], p)
      {
        assert bs[i..][1..] == bs[i + 1..];
        ghost var d := Down(bs[i]);
        Splice(bs, MovedDown(bs[i + 1..], p), i, d, d.y > CanvasHeight || HitsPlayer(d, p));
        list := list[i := Down(list[i])];
        if list[i].y > CanvasHeight {
          list := list[..i] + list[i + 1..];
        } else if list[i].y + list[i].height >= p.y && list[i].x < p.x + p.width && list[i].x + list[i].width > p.x {
          hit := true;
          list := list[..i] + list[i + 1..];
        }
        i := i - 1;
      }
      assert bs[0..] == bs;
    }

    /**
     * Replacing element i of bs[..i + 1] + rest by d and then, when drop
     * holds, removing it, leaves bs[..i] followed by rest with d put in
     * front unless it was dropped: one step of the backward loops.
     */
    static lemma Splice<T>(bs: seq<T>, rest: seq<T>, i: int, d: T, drop: bool)
      requires 0 <= i < |bs|
      ensures var moved := (bs[..i + 1] + rest)[i := d];
        (if drop then moved[..i] + moved[i + 1..] else moved) == bs[..i] + ((if drop then [] else [d]) + rest)
    {
      var moved := (bs[..i + 1] + rest)[i := d];
      assert moved == bs[..i] + [d] + rest;
      assert moved[..i] == bs[..i];
      assert moved[i + 1..] == rest;
    }

    /**
     * The shooting of one frame: both timers advance; when the normal
     * enemies' timer passes its interval it restarts and each living normal
     * enemy whose draw in picks came out fires; when the boss timer passes
     * its interval it restarts and the first living boss fires its volley.
     */
    method HandleEnemyShooting(picks: seq<bool>)
      modifies this`enemyShootTimer, this`bossShootTimer, this`enemyBullets
      ensures var fire := old(enemyShootTimer) + 1 > EnemyShootInterval(level);
        var bossFire := old(bossShootTimer) + 1 > BossShootInterval(level);
        && enemyShootTimer == (if fire then 0 else old(enemyShootTimer) + 1)
        && bossShootTimer == (if bossFire then 0 else old(bossShootTimer) + 1)
        && enemyBullets == old(enemyBullets)
          + (if fire then Salvo(enemies, picks, |enemies|) else [])
          + (if bossFire then BossShots(enemies, level) else [])
    {
      enemyShootTimer := enemyShootTimer + 1;
      bossShootTimer := bossShootTimer + 1;
      var es, list := enemies, enemyBullets;
      if enemyShootTimer > EnemyShootInterval(level) {
        enemyShootTimer := 0;
        for t := 0 to |es|
          invariant list == old(enemyBullets) + Salvo(es, picks, t)
        {
          var e := es[t];
          if !e.boss && e.alive {
            if t < |picks| && picks[t] {
              list := list + [Muzzle(e)];
            }
          }
        }
      }
      ghost var afterSalvo := list;
      if bossShootTimer > BossShootInterval(level) {
        bossShootTimer := 0;
        var k := FirstBoss(es, 0);
        if k < |es| {
          var bulletsToFire := if level < 4 then 1 else 2;
          for i := 0 to bulletsToFire
            invariant list == afterSalvo + Copies(Muzzle(es[k]), i)
          {
            list := list + [Muzzle(es[k])];
          }
        }
      }
      enemyBullets := list;
    }

    /**
     * The collision pass of a frame: each ship bullet, from the last to the
     * first, against the enemies in order (see Volley); then the game is
     * over if any living enemy has come down onto the ship.
     */
    method CheckCollisions()
      modifies this`bullets, this`enemies, this`score, this`gameOver
      ensures var f := Volley(old(bullets), old(enemies), old(score));
        bullets == f.bullets && enemies == f.enemies && score == f.score
      ensures gameOver == (old(gameOver) || exists t :: 0 <= t < |enemies| && Reaches(enemies[t], player))
      ensures old(Healthy()) ==> Healthy()
    {
      if Healthy() {
        VolleyHealthy(bullets, enemies, score);
      }
      var f := BulletsHit(bullets, enemies, score);
      bullets, enemies, score := f.bullets, f.enemies, f.score;
      var reached := AnyReaches(enemies, player);
      if reached {
        gameOver := true;
      }
    }

    /** The bullet loop of checkCollisions, from the last bullet to the first. */
    static method BulletsHit(bs: seq<Bullet>, es: seq<Enemy>, score: int) returns (f: Field)
      ensures f == Volley(bs, es, score)
    {
      var list, es', sc := bs, es, score;
      ghost var g := Field([], es, score);
      var i := |list| - 1;
      while i >= 0
        invariant -1 <= i < |bs|
        invariant g == Volley(bs[i + 1..], es, score)
        invariant list == bs[..i + 1] + g.bullets && es' == g.enemies && sc == g.score
      {
        assert bs[i..][1..] == bs[i + 1..];
        var hit;
        es', sc, hit := HitFirst(list[i], es', sc, g.bullets);
        Splice(bs, g.bullets, i, bs[i], hit);
        assert list[i := bs[i]] == list;
        if hit {
          list := list[..i] + list[i + 1..];
        }
        g := Shot(bs[i], g);
        i := i - 1;
      }
      assert bs[0..] == bs;
      f := Field(list, es', sc);
    }

    /** Whether some living enemy has come down onto the ship. */
    static method AnyReaches(es: seq<Enemy>, p: Player) returns (reached: bool)
      ensures reached == exists t :: 0 <= t < |es| && Reaches(es[t], p)
    {
      reached := false;
      for t := 0 to |es|
        invariant reached == exists u :: 0 <= u < t && Reaches(es[u], p)
      {
        var e := es[t];
        if e.alive && e.y + e.height >= p.y && e.x < p.x + p.width && e.x + e.width > p.x {
          reached := true;
        }
      }
    }

    /**
     * One ship bullet against the enemies in order: the first one it hits
     * loses one health, dies at 0 and scores its bounty, and hit says that
     * the bullet is to be removed.
     */
    static method HitFirst(b: Bullet, es: seq<Enemy>, score: int, ghost kept: seq<Bullet>)
      returns (es': seq<Enemy>, score': int, hit: bool)
      ensures Shot(b, Field(kept, es, score)) == Field(if hit then kept else [b] + kept, es', score')
    {
      FirstStruckSpec(b, es, 0);
      es', score' := es, score;
      var j := 0;
      while j < |es|
        invariant 0 <= j <= |es|
        invariant FirstStruck(b, es, j) == FirstStruck(b, es, 0)
      {
        var e := es[j];
        if e.alive && b.x < e.x + e.width && b.x + b.width > e.x && b.y < e.y + e.height && b.y + b.height > e.y {
          e := e.(health := e.health - 1);
          if e.health <= 0 {
            e := e.(alive := false);
            score' := score' + (if e.boss then 100 else 10);
          }
          es' := es'[j := e];
          return es', score', true;
        }
        j := j + 1;
      }
      return es', score', false;
    }
  }
}

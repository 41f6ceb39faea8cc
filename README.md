# Tetris and Space Invaders game engines in Dafny

This project models the game logic of two browser mini-games: `js/tetris.js` and `js/spaceinvaders.js`.

**Tetris** is modelled in three modules.
- `TetrisPiece` holds the seven tetromino shapes, the power-up recolouring and the quarter turn, all as values.
- `TetrisBoard` holds the arena rules as values:
  - the 12-by-20 arena and the collision test;
  - merging a landed piece;
  - the bottom-up sweep of full rows;
  - the wall-kick search order;
  - the score, level and fall-interval table.
- `TetrisGame` is the running engine. The class `Game` has the arena, the piece (an `array2` turned in place), its position and the session counters as fields. Every command is a method proved against the value rules.
  - Each command keeps the object invariant `Valid()`: a 12-by-20 arena with no full row, counters that agree with each other (level = lines / 10 + 1, interval tied to the level), and a piece that does not collide.

**Space Invaders** is modelled in two modules.
- `InvadersRules` holds the integer rules as values:
  - the shooting intervals and the wave table;
  - the grid layout and the boss;
  - the clamped ship move;
  - the up and down movement of bullets, with their removal;
  - the enemy volleys;
  - the hit resolution of `checkCollisions` with its health and score updates.
- `InvadersGame` has the class `Invaders` with the game's module-level variables as fields.
  - The backward splicing loops run on local copies and are proved against the value rules.
  - Randomness is a parameter: which enemies fire is `picks`.

## Model

| member | source | states |
|---|---|---|
| TetrisPiece.Kind | js/tetris.js:79-99 | the cell value of each tetromino is its colour index, between 1 and 7 |
| TetrisPiece.Shape | js/tetris.js:76-100 | each catalogue shape is a square of side 2 to 4 whose cells are 0 or the tetromino's own kind |
| TetrisPiece.ShapeHasFourBlocks | js/tetris.js:79-99 | every tetromino has exactly four occupied cells |
| TetrisPiece.PowerRow | js/tetris.js:102-107 | a power-up row has the same length, every occupied cell becomes 8 and empty cells stay 0 |
| TetrisPiece.PieceGrid | js/tetris.js:102-109 | defines the piece of a draw: the catalogue shape, with every occupied cell set to 8 when the draw is a power-up |
| TetrisPiece.PieceGridFrom | js/tetris.js:102-109 | a square matrix with the shape's zero pattern whose occupied cells are 8 (power-up) or the kind is the spawned piece |
| TetrisPiece.Rotated | js/tetris.js:228-241 | a quarter turn of a square matrix is a square matrix of the same size |
| TetrisPiece.RotatedCells | js/tetris.js:228-241 | clockwise, cell (i, j) takes cell (n-1-j, i); otherwise it takes cell (j, n-1-i) |
| TetrisPiece.RotatedFrom | js/tetris.js:228-241 | any matrix with those cells is the quarter turn |
| TetrisPiece.RotatedRoundTrip | js/tetris.js:216 | turning by dir and then by -dir gives back the original matrix |
| TetrisPiece.FourTurns | js/tetris.js:228-241 | four clockwise turns give back the original matrix |
| TetrisBoard.ZeroRow | js/tetris.js:65 | a new row has w cells, all empty |
| TetrisBoard.Collides | js/tetris.js:120-133 | defines a collision: some occupied piece cell, placed at (x + j, y + i), falls outside the arena (above the top included) or on a non-zero arena cell |
| TetrisBoard.ZeroRows | js/tetris.js:163-164 | k empty arena rows |
| TetrisBoard.EmptyBoard | js/tetris.js:330 | the arena of a new game is 12 by 20 and has no full row |
| TetrisBoard.Merged | js/tetris.js:140-148 | merging keeps the arena's shape |
| TetrisBoard.MergedCells | js/tetris.js:140-148 | after a merge a cell holds the piece's value where an occupied piece cell covers it, and the old arena value elsewhere |
| TetrisBoard.MergedUpToAt | js/tetris.js:141-146 | part-way through the merge, exactly the covered cells visited so far hold the piece's value |
| TetrisBoard.MergedUpToEnds | js/tetris.js:141-146 | before the merge loop the arena is unchanged, and after it the arena is the full merge |
| TetrisBoard.MergedUpToNextRow | js/tetris.js:141-146 | finishing piece row i is the same as starting row i + 1 |
| TetrisBoard.MergedUpToSkip | js/tetris.js:143 | an empty piece cell writes nothing |
| TetrisBoard.MergedUpToWrite | js/tetris.js:143-144 | an occupied piece cell writes its value into exactly one arena cell |
| TetrisBoard.FullCount | js/tetris.js:153-167 | the number of full rows is at most the number of rows |
| TetrisBoard.Kept | js/tetris.js:155-167 | defines the rows the sweep leaves in place: the rows that are not full, in their order |
| TetrisBoard.Swept | js/tetris.js:153-167 | defines the arena after a sweep: one empty row on top for each full row removed, then the kept rows in order |
| TetrisBoard.KeptSplit | js/tetris.js:153-167 | every row is either kept or counted as full; kept rows are not full and come from the arena |
| TetrisBoard.SweepStateAt | js/tetris.js:155-166 | during the scan, the empty rows are on top and original row j-1 sits at index cnt + j - 1 |
| TetrisBoard.SweepStepKeep | js/tetris.js:155-158 | passing a non-full row changes neither the arena nor the count |
| TetrisBoard.SweepStepRemove | js/tetris.js:163-166 | cutting out a full row and putting an empty row on top advances the scan by one row and one count, with the row index kept (++y) |
| TetrisBoard.SweepStateEnds | js/tetris.js:155-167 | the scan starts from the arena and ends with the empty rows on top of the kept rows in order |
| TetrisBoard.SweptIsBoard | js/tetris.js:153-167 | a sweep keeps 20 rows of 12 and leaves no full row |
| TetrisBoard.KeptAll | js/tetris.js:153-167 | an arena with no full row is unchanged by a sweep |
| TetrisBoard.MergedFullRows | js/tetris.js:140-148 | landing a piece on an arena with no full row creates at most as many full rows as the piece has rows, at most 4 |
| TetrisBoard.LineScore | js/tetris.js:171 | clearing k > 0 rows at once is worth at least 100 * k before the level multiplier |
| TetrisBoard.Scored | js/tetris.js:169-179 | defines the counters after clearing k rows: nothing changes for k = 0; otherwise the score grows by the table entry for k times the level, the lines grow by k, and when the lines reach level * 10 the level rises by one and the interval drops by 50, to no less than 100 |
| TetrisBoard.IntervalFor | js/tetris.js:178 | the fall interval of a level is between 100 ms and 1000 ms |
| TetrisBoard.ScoredProgress | js/tetris.js:169-179 | a sweep never lowers the score; lines grow by exactly k; the level rises by one exactly when the lines reach level * 10; the interval never rises and stays at least 100 |
| TetrisBoard.ScoredConsistent | js/tetris.js:169-179 | since a sweep clears at most 4 rows, the level stays lines / 10 + 1 and the interval stays tied to it |
| TetrisBoard.ScoreExamples | js/tetris.js:171-172 | one row at level 1 is worth 100, four rows 800, and four rows at level 3 are worth 2400 |
| TetrisBoard.KickOffsetClosed | js/tetris.js:209-214 | the k-th kick offset is k + 1 for even k and -(k + 1) for odd k |
| TetrisBoard.KickOffset | js/tetris.js:209-214 | defines the offset of each kick: 1 first, then the sign flips and the size grows by one |
| TetrisBoard.KickShift | js/tetris.js:209-214 | defines the net column shift after k kicks: the sum of the first k offsets |
| TetrisBoard.KickShiftClosed | js/tetris.js:213-214 | the net shifts tried are 0, +1, -1, +2, -2, ... |
| TetrisBoard.KickShiftInjective | js/tetris.js:213-214 | no column is tried twice |
| TetrisBoard.KickStep | js/tetris.js:213-215 | each kick adds the offset; the offset passes the width + 1 bound exactly after try n |
| TetrisBoard.FirstFit | js/tetris.js:212-220 | the search result lies between the first try and limit + 1 |
| TetrisBoard.FirstFitSpec | js/tetris.js:212-220 | every try before the result collides, and the result fits unless the search gave up |
| TetrisBoard.FirstFitIs | js/tetris.js:212-220 | a try that fits after tries that all collide is the search result |
| TetrisBoard.SpawnX | js/tetris.js:195 | the spawn column 6 - w/2 keeps every piece inside the 12 columns |
| TetrisBoard.SpawnFitsEmptyBoard | js/tetris.js:188-201 | a freshly spawned piece never collides on an empty arena, so a new game never ends at once |
| TetrisGame.CreateMatrix | js/tetris.js:62-68 | h rows of w zeros |
| TetrisGame.CreatePiece | js/tetris.js:76-110 | a new square array with the shape's zero pattern; occupied cells hold 8 for a power-up and the kind otherwise |
| TetrisGame.TransposeInPlace | js/tetris.js:230-234 | the in-place swap loop transposes the array |
| TetrisGame.ReverseRow | js/tetris.js:237 | row r is reversed and the other rows are untouched |
| TetrisGame.ReverseEachRow | js/tetris.js:237 | every row is reversed |
| TetrisGame.SwapRows | js/tetris.js:239 | rows a and b are exchanged |
| TetrisGame.ReverseRowOrder | js/tetris.js:239 | the row order is reversed |
| TetrisGame.Rotate | js/tetris.js:228-241 | the array afterwards is the quarter turn of the array before |
| TetrisGame.RotateBack | js/tetris.js:216 | turning back by -dir restores the array exactly |
| TetrisGame.Game.constructor | js/tetris.js:352-358 | a new game: empty arena, start counters, first piece spawned, no collision |
| TetrisGame.Game.Collide | js/tetris.js:120-133 | true exactly when an occupied piece cell lands on an occupied arena cell or off the arena, including rows above the top |
| TetrisGame.Game.Merge | js/tetris.js:140-148 | the arena becomes the merge of the piece at its position |
| TetrisGame.Game.MergeInto | js/tetris.js:141-147 | the cell loop computes the merge |
| TetrisGame.Game.MergeRow | js/tetris.js:142-146 | one pass over a piece row writes exactly that row's occupied cells |
| TetrisGame.Game.ArenaSweep | js/tetris.js:153-182 | the arena becomes the sweep of itself, and the counters are scored for the number of full rows |
| TetrisGame.Game.SweepRows | js/tetris.js:155-167 | the bottom-up scan returns the swept arena and the number of full rows |
| TetrisGame.Game.RowIsFull | js/tetris.js:156-160 | the scan of a row reports full exactly when no cell is 0 |
| TetrisGame.Game.AddLines | js/tetris.js:169-179 | the counters become the scored counters for k cleared rows at the level before the sweep |
| TetrisGame.Game.SpawnPiece | js/tetris.js:191-195 | the new piece is at row 0, column 6 - w/2, with the drawn kind and power flag; arena and counters are untouched |
| TetrisGame.Game.PlayerReset | js/tetris.js:188-201 | either the drawn piece is spawned on the unchanged arena, or, when it collides, a new game starts; the invariant holds afterwards |
| TetrisGame.Game.GameOver | js/tetris.js:342-346 | the game restarts at once: empty arena, start counters, a new piece |
| TetrisGame.Game.ResetGame | js/tetris.js:329-337 | empty 12-by-20 arena, score 0, lines 0, level 1, interval 1000, and a spawned piece that does not collide |
| TetrisGame.Game.PlayerMove | js/tetris.js:247-252 | the column moves by dir exactly when the shifted piece does not collide; nothing else changes |
| TetrisGame.Game.PlayerRotate | js/tetris.js:207-221 | either the turned piece at the first fitting kick column, or the piece and column exactly as before; the arena and row are never touched |
| TetrisGame.Game.WallKick | js/tetris.js:208-220 | the kick loop stops at the first fitting try, or gives up after the width + 1 bound and reports the original column |
| TetrisGame.Game.PlayerDrop | js/tetris.js:258-268 | if the piece can fall only the row grows by 1; otherwise the piece is merged, rows are swept and scored, and the next piece spawns (or a new game starts); the drop counter becomes 0 |
| TetrisGame.Game.Settle | js/tetris.js:261-265 | landing then spawning: the post-state is the spawn after the sweep of the merge |
| TetrisGame.Game.Land | js/tetris.js:262-263 | merge then sweep: at most 4 full rows, the arena is swept and the counters scored; the arena and counters invariants hold |
| InvadersRules.EnemyShootInterval | js/spaceinvaders.js:41-46 | 200 - 15(level - 1) up to level 10, 60 from level 11, never below 60, at most 200 from level 1 |
| InvadersRules.BossShootInterval | js/spaceinvaders.js:48-54 | 150 - 10(level - 1) up to level 12, 40 from level 12, never below 40, at most 150 from level 1 |
| InvadersRules.IntervalsShrink | js/spaceinvaders.js:41-54 | neither interval increases as the level rises |
| InvadersRules.BossVolley | js/spaceinvaders.js:321 | the boss fires 1 or 2 bullets, and 2 exactly from level 4 on |
| InvadersRules.JsRem | js/spaceinvaders.js:117 | JavaScript's remainder: below the divisor in size, equal to Dafny's for a non-negative dividend, never positive for a negative one |
| InvadersRules.WaveFor | js/spaceinvaders.js:89-120 | a boss exactly on levels 3, 5, 7, with health 60 to 120; grids of 2 to 6 rows by 4 to 12 columns; above level 8 always a grid of 4 to 6 rows by 8 to 12 columns |
| InvadersRules.GridEnemiesCount | js/spaceinvaders.js:130-131 | a grid spawn adds rows * cols enemies |
| InvadersRules.GridEnemies | js/spaceinvaders.js:123-145 | defines a grid spawn: row by row, left to right, the enemy of row r and column c |
| InvadersRules.GridEnemyIndex | js/spaceinvaders.js:132-135 | the enemy at index r * cols + c is the one of row r, column c, at x = 50 + 40c and y = initialY = 50 + 30r |
| InvadersRules.GridEnemiesNormal | js/spaceinvaders.js:132-142 | every grid enemy is alive, not a boss, with health 1 |
| InvadersRules.BossEnemy | js/spaceinvaders.js:148-160 | the boss is at (360, 50), 80 by 40, alive, a boss, with the given health |
| InvadersRules.WaveEnemiesShape | js/spaceinvaders.js:89-160 | levels 3, 5 and 7 spawn exactly one boss of health 60, 80 and 120; grid levels spawn rows * cols living normal enemies of health 1 |
| InvadersRules.WaveEnemiesHealthy | js/spaceinvaders.js:89-160 | every spawned enemy is alive with health left |
| InvadersRules.WaveEnemies | js/spaceinvaders.js:89-160 | defines the enemies a level spawns: the grid of its wave, or the single boss |
| InvadersRules.Moved | js/spaceinvaders.js:179-187 | only x and dx change; dx is -speed with left held (left wins), else +speed with right, else 0; x stays within [0, 800 - width] and moves by dx when that stays on the canvas; past the left wall it is clamped to 0, past the right wall to 800 - width |
| InvadersRules.MovedUp | js/spaceinvaders.js:200-207 | no more bullets than before, and every bullet left is at y >= 0 |
| InvadersRules.MovedUpMembers | js/spaceinvaders.js:200-207 | a bullet survives exactly when it is some bullet moved up by its speed that is still at y >= 0 |
| InvadersRules.MovedUpAppend | js/spaceinvaders.js:200-207 | the move keeps order: moving two runs of bullets is moving each in turn |
| InvadersRules.MovedDown | js/spaceinvaders.js:276-294 | no more bullets than before |
| InvadersRules.PlayerHitWitness | js/spaceinvaders.js:284-292 | the ship is hit exactly when some moved bullet is at y <= 400 and overlaps it |
| InvadersRules.MovedDownClear | js/spaceinvaders.js:276-294 | every bullet left is at y <= 400 and clear of the ship |
| InvadersRules.MovedDownMembers | js/spaceinvaders.js:276-294 | a bullet survives exactly when it is some bullet moved down by its speed that is still at y <= 400 and clear of the ship |
| InvadersRules.MovedDownAppend | js/spaceinvaders.js:276-294 | the move keeps order: moving two runs of bullets is moving each in turn |
| InvadersRules.PlayerHit | js/spaceinvaders.js:284-292 | defines a hit on the ship: some enemy bullet, once moved, is at y <= 400 and overlaps the ship |
| InvadersRules.Salvo | js/spaceinvaders.js:305-312 | defines a volley of the normal enemies: in enemy order, one bullet from each living normal enemy whose draw came out |
| InvadersRules.SalvoShooters | js/spaceinvaders.js:305-312 | each bullet of a volley comes from a living normal enemy whose draw came out, and every such enemy's bullet is in the volley |
| InvadersRules.SalvoCount | js/spaceinvaders.js:305-312 | a volley has exactly as many bullets as there are firing enemies, so one per firing enemy |
| InvadersRules.FirstBoss | js/spaceinvaders.js:318 | the search index lies between its start and the number of enemies |
| InvadersRules.FirstBossSpec | js/spaceinvaders.js:318 | the index found is a living boss and no living boss comes before it |
| InvadersRules.BossShotsCount | js/spaceinvaders.js:315-326 | with a living boss the volley is 1 bullet below level 4 and 2 from level 4, all from a living boss; with none there is no volley |
| InvadersRules.BossShots | js/spaceinvaders.js:315-326 | defines a boss volley: 1 or 2 bullets from the first living boss, none without one |
| InvadersRules.CopiesOf | js/spaceinvaders.js:322-324 | the loop fires n bullets, all the same |
| InvadersRules.FirstStruck | js/spaceinvaders.js:356-364 | the search index lies between its start and the number of enemies |
| InvadersRules.FirstStruckSpec | js/spaceinvaders.js:356-364 | the index found is an alive enemy overlapping the bullet, and no earlier enemy is |
| InvadersRules.Damaged | js/spaceinvaders.js:366-369 | a hit takes one health; the enemy stays alive exactly when it was alive with more than 1 health |
| InvadersRules.RewardUpdate | js/spaceinvaders.js:369 | replacing one enemy changes the worth of the dead by the difference of the two |
| InvadersRules.Shot | js/spaceinvaders.js:355-373 | one bullet keeps the number of enemies |
| InvadersRules.Volley | js/spaceinvaders.js:354-375 | the bullet pass keeps the number of enemies and never adds bullets |
| InvadersRules.ShotHitsOne | js/spaceinvaders.js:356-373 | a bullet changes at most one enemy, one it hits, which becomes damaged; it is removed exactly when it hits some enemy, and then the first enemy it hits is the one damaged |
| InvadersRules.ShotScore | js/spaceinvaders.js:367-370 | the score a bullet adds is the worth of the enemy it kills |
| InvadersRules.VolleyScore | js/spaceinvaders.js:354-375 | the score the pass adds is exactly the worth of the enemies killed: 100 a boss, 10 a normal enemy |
| InvadersRules.VolleyDamage | js/spaceinvaders.js:354-375 | health never rises; position and boss flag are kept; the dead stay untouched; an enemy dies only with health 0 or below |
| InvadersRules.VolleyHealthy | js/spaceinvaders.js:366-369 | if every living enemy had health left before the pass, it still does after it: a hit that takes the last health kills |
| InvadersRules.Reaches | js/spaceinvaders.js:378-385 | defines an enemy reaching the ship: alive, its bottom at the ship's top or lower, overlapping it horizontally |
| InvadersGame.Invaders.constructor | js/spaceinvaders.js:442-449 | the game starts at level 1 with score 0, the ship at its start, no bullets, the level-1 wave, the enemies moving right and both timers at 0; every enemy has health left |
| InvadersGame.Invaders.Init | js/spaceinvaders.js:56-86 | ship at (380, 350), no bullets, the level's wave, score 0, direction 1, both timers 0, game on; all enemies healthy |
| InvadersGame.Invaders.SpawnWave | js/spaceinvaders.js:89-120 | appends the wave of the level |
| InvadersGame.Invaders.SpawnEnemies | js/spaceinvaders.js:123-145 | appends the rows * cols grid, row by row |
| InvadersGame.Invaders.SpawnBoss | js/spaceinvaders.js:148-160 | appends one boss |
| InvadersGame.Invaders.MovePlayer | js/spaceinvaders.js:179-187 | the ship becomes the clamped move |
| InvadersGame.Invaders.Shoot | js/spaceinvaders.js:341-349 | appends one ship bullet |
| InvadersGame.Invaders.MoveBullets | js/spaceinvaders.js:200-207 | the ship's bullets become the moved-up survivors |
| InvadersGame.Invaders.MoveUp | js/spaceinvaders.js:201-206 | the backward splicing loop computes the moved-up survivors |
| InvadersGame.Invaders.MoveEnemyBullets | js/spaceinvaders.js:276-294 | the enemy bullets become the moved-down survivors; the game is over exactly if it was already or a bullet hits the ship |
| InvadersGame.Invaders.MoveDown | js/spaceinvaders.js:277-293 | the backward splicing loop computes the survivors and reports whether the ship was hit |
| InvadersGame.Invaders.HandleEnemyShooting | js/spaceinvaders.js:297-327 | the timers advance or restart past their intervals; the normal volley and then the boss volley are appended |
| InvadersGame.Invaders.CheckCollisions | js/spaceinvaders.js:352-386 | bullets, enemies and score become the bullet pass; the game is over exactly if it was already or a living enemy reaches the ship; every living enemy still has health left |
| InvadersGame.Invaders.BulletsHit | js/spaceinvaders.js:354-375 | the backward loop over bullets computes the bullet pass |
| InvadersGame.Invaders.AnyReaches | js/spaceinvaders.js:378-385 | true exactly when some living enemy has come down onto the ship |
| InvadersGame.Invaders.HitFirst | js/spaceinvaders.js:356-374 | one bullet against the enemies in order is one step of the bullet pass; it reports whether the bullet is removed |

## Left out

- Drawing of every kind is not part of this model: `drawMatrix`, `draw` and the `draw*` functions, gradients, `randomColorStop` and the colour tables.
- DOM wiring is not part of this model: buttons, key and touch listeners, `updateScore`, `alert`, and `window.initializeTetris`/`stopTetrisGame`.
  - The Space Invaders `keys` map and the mobile flags become the two booleans of `MovePlayer`.
- The frame loops are not part of this model: `requestAnimationFrame`, `cancelAnimationFrame`, the Tetris `update(time)` drop-counter accumulator and the Space Invaders `update()`.
  - `update()` also holds the level-complete check and the order of the per-frame calls.
- Randomness is a parameter everywhere.
  - The piece letter and power flag of `playerReset` are a `Draw`. A second `Draw` serves the new game that starts when the spawn collides.
  - The 20% draw of each normal enemy in `handleEnemyShooting` is the sequence `picks`.
  - The random phase offset of each enemy is not kept.
- `moveEnemies` is not part of this model, because it uses `Math.sin` and `Date.now()`. So every enemy `y` here is an integer: the value it was spawned with.
- Coordinates are integers, so `canvas.width / 2` and `width / 2` are Dafny's integer division. This is exact for the widths that occur (800, 40, 30, 80, 4).
- `spawnEnemyBullet` is modelled as the function `Muzzle`, which has no contract of its own. The bullet `shoot` creates is the function `ShipBullet`; the method `Invaders.Shoot` appends it.
- Tetris `gameOver` restarts the game at once (`resetGame`); there is no terminal game-over state. The model follows the code in this.
- In `resetGame`, `playerReset` can only recurse into `gameOver` if the first piece collides on an empty arena. `SpawnFitsEmptyBoard` proves that it never does, so `ResetGame` spawns without that branch.
- A piece cell in a row above the board counts as a collision: `arena[-1]` is undefined, and undefined is not 0. The model follows the code.
- TetrisGame.Game.PlayerRotate: requires `dir != 0`.
  - The callers only pass 1. With 0, the code's revert `rotate(m, -0)` would not undo the turn.
  - The model resets the column before it undoes the turn; the code does the opposite. The result is the same.
- TetrisGame.Game.ArenaSweep: requires at most 4 full rows, since the score table has five entries. `MergedFullRows` proves that every sweep the engine runs meets this.
- Space Invaders `init` sets the score to 0 on every level, including after the next-level button. The model follows the code.
- The canvas size assignments in `init` are the constants `CanvasWidth` and `CanvasHeight`. The button visibility in `init` is left out as DOM wiring.

# StarCall simulation core in Dafny

StarCall is a vertically scrolling arcade game written with pygame. A
character falls past two columns of cloud walls while the world scrolls
upward. The player steers, dives to attack the eye-bats that the walls spawn,
and dies on touching one; the score is kept against a persisted high score.

This project models one iteration of the game's main loop, the per-tick
simulation, as imperative Dafny over classes whose fields change in place:

- `Players.Player`: approach-based steering (`accelerate_horizontally`,
  `accelerate_vertically`) and `move_and_collide`, which zeroes a velocity
  whose predicted edge would leave the playfield.
- `Enemies.Enemy`: the eye-bat's patrol, which turns at the side margins; its
  fall as a corpse under gravity; and its frame animation.
- `Walls.Wall`: the upward scroll and the wrap to the bottom. A wrap may spawn
  an enemy, with odds that rise as enemies die.
- `Particles.Particle`: debris kinematics with drag, gravity and spin.
- `Starcall.Game`: the world (player, walls, enemies, particles, score and
  high score) and the main loop body, as `Game.Advance` and its phases:
  - the player's input handling;
  - the wall pass;
  - the particle pass, which counts lifespans down and removes particles;
  - the enemy pass, which moves, animates, removes and kills enemies and kills
    the player.

`Player`, `Enemy` and `Particle` each have a `State()` view (a datatype).
Each of their methods that changes the state is proved to leave
`State() == F(old(State()))` for a pure function `F` (`Confine`, `Patrol`,
`NextFrame`, `Drift`, …). The properties are then proved about those
functions: bounds, cycle lengths and odds. `Wall.Move` states the new height
directly as `Scroll` of the old one. `Game` is specified phase by phase
against the functions of the other classes and the list functions of `Seqs`.

The list passes iterate over a snapshot and call `list.remove` on the live
list, as the source does. They are proved to leave exactly the survivors in
their original order (`Seqs.Sweep`), and every list stays free of repeats.

The source's quirks are kept:
- Both side keys held runs both thrusts and then the drag.
- The horizontal prediction uses `facing`, not the sign of the speed.
- An alive enemy removed at the top edge is still animated and tested against
  the player in the same iteration.
- The body test is a plain `if` after the attack test, so an enemy killed by
  the attack can still kill the player.
- A particle removed this tick still moves.
- The attack box is placed at the position the player had before its move.

Random draws enter as parameters whose ranges the preconditions state:
- `SpawnDraw`: the spawn roll and, for a spawn, the new enemy's x, frame and
  facing.
- `DebrisDraw`: each death particle's speeds and spin.

`outside_surface`, which depends on the last drawn sprite rectangle, enters as
an oracle function `Enemy -> bool` or `Particle -> bool`, one per tick. The high-score file
is the integer field `Game.best`.

The model follows these details of the code:
- The spawn roll is `randint(0, 100)`, inclusive of both ends, so it has 101
  outcomes.
- An enemy spawns at `SurfaceHeight - 1 + TileSize`, one tile below the
  bottom edge.
- The multiplier goes negative once more than `TargetEnemyCount` enemies are
  alive. Spawning stops altogether once `TargetEnemyCount + 1` are alive.
- Within one wall pass, each wall's roll is tested against the enemy count at
  that moment, so enemies spawned by earlier walls of the pass lower the odds
  for later ones.

## Model

| member | source | states |
|---|---|---|
| Geometry.Place | starcall.py:101-102 | `update_hitbox_rect`: the placed rectangle has the hitbox's size and sits at the hitbox's offset from the entity's position |
| Geometry.Collide | starcall.py:398-404 | `colliderect`: two rectangles collide iff their intersection has positive width and positive height, so an empty rectangle collides with nothing |
| Numeric.Approach | starcall.py:127-130 | `approach` moves toward the target by at most the step, never overshoots, lands on the target iff it is within one step, and otherwise moves exactly one step |
| Players.HorizontalThrust | starcall.py:125-131 | sets `facing`; moves `hspd` by at most 0.2 toward ±2, or ±1 while descending; leans toward ∓35 by at most 1.5 only when not descending; keeps the speed and lean bounds and `Sound` |
| Players.VerticalThrust | starcall.py:133-138 | a dive levels the angle and moves `vspd` by at most 0.5 toward 1; otherwise the draft moves it by at most 1.5 toward -4; position and horizontal state unchanged; keeps `Sound` |
| Players.Drag | starcall.py:370-374 | pulls `hspd` toward 0 by at most 0.075 and the angle toward 0 by at most 1.5, never past 0; keeps `Sound` |
| Players.Confine | starcall.py:140-150 | per axis, a move whose predicted edge leaves the margins (or the altitudes) zeroes that velocity and keeps the position, otherwise it applies; an applied move ends inside the bounds; keeps `Sound` (player inside the band) |
| Players.Player.constructor | starcall.py:106-123 | a player at rest facing right, alive, idle, with both hitbox rectangles placed at its position |
| Players.Player.AccelerateHorizontally | starcall.py:125-131 | the new state is `HorizontalThrust` of the old one |
| Players.Player.AccelerateVertically | starcall.py:133-138 | the new state is `VerticalThrust` of the old one |
| Players.Player.MoveAndCollide | starcall.py:140-150 | the new state is `Confine` of the old one |
| Walls.Scroll | starcall.py:209-212 | a wall rises by the scroll speed; one that reaches `-TileSize` wraps to `SurfaceHeight - 1`; the result is never at or above `-TileSize` |
| Walls.ScrollCycle | starcall.py:209-212 | after `k` moves a wall at `-15 < y <= 240` is at `-15 + (y + 15 - k) mod 255`: it visits every height and wraps exactly once per 255 ticks; a wall of the bottom row (`y = 240`) joins that cycle after its first move |
| Walls.SpawnThreshold | starcall.py:213-214 | the spawn threshold `(enemy_spawn_chance + multiplier) * 100` is `10 * (TargetEnemyCount + 1 - count)` percent, at most 0 once `TargetEnemyCount + 1` enemies are alive; `Walls.Spawns` is the same test on whole-number rolls |
| Walls.SpawningRollsCount | starcall.py:213-214 | among rolls `0 .. n-1`, exactly `clamp(10 * (4 - count), 0, n)` spawn |
| Walls.SpawnOdds | starcall.py:213-214 | of the 101 rolls of `randint(0, 100)`, `10 * (4 - count)` spawn while at most 4 enemies are alive and none beyond; 40 with no enemy, 10 at the target count |
| Walls.Wall.constructor | starcall.py:190-194 | a wall at the given column and height, scrolling at the scroll speed |
| Walls.Wall.Move | starcall.py:209-216 | the height becomes `Scroll` of the old; iff the move wraps and the roll is under the threshold for the current enemy count, exactly one fresh, valid enemy in state `Newborn(draw)` is appended; otherwise the list is unchanged |
| Walls.Newborn | starcall.py:213-216 | the enemy a wall spawns from an in-range draw is `Hatched`: alive, well formed, between the side walls, one tile below the bottom edge |
| Walls.Hatched | starcall.py:213-216 | a `Hatched` enemy is not dropped by the enemy pass of the tick that spawns it, whatever the surface test says |
| Walls.HeightAt | starcall.py:380-381 | entry `i` of the list of wall heights is wall `i`'s height |
| Walls.SpawnPlanAt | starcall.py:209-216 | in a wall pass, wall `i` spawns iff its move wraps and its roll is under the threshold for the enemies alive before it plus those the earlier walls of the pass spawned; later walls do not change earlier entries |
| Walls.SpawnCap | starcall.py:213-214 | a wall pass never takes the enemy count past `TargetEnemyCount + 1`, and adds nothing when it starts above that |
| Walls.Births | starcall.py:213-216 | the enemies a wall pass appends are one per spawn of its plan, in wall order |
| Walls.BirthsHatched | starcall.py:213-216 | every enemy a wall pass appends is `Hatched` |
| Particles.Drift | starcall.py:252-257 | position advances by the old velocity; gravity adds to `vspd` and the spin to the angle; drag pulls `hspd` toward 0 by at most the resistance and never reverses it |
| Particles.DriftedBounds | starcall.py:252-257 | over `k` ticks `hspd` stays between its start and 0; `vspd` gains exactly `k * gravity`, the angle exactly `k * rotation` |
| Particles.Aged | starcall.py:384-385 | a positive lifespan drops by one and stays non-negative; zero or negative ones are left alone |
| Particles.Expires | starcall.py:384-387 | the particle pass removes a particle iff its lifespan is 0, or negative (unlimited) while it is off the surface; a positive lifespan never expires |
| Particles.LifespanRunsOut | starcall.py:384-387 | a particle with lifespan `n >= 0` counts down to 0 and is removed on tick `n + 1`, not before |
| Particles.Particle.constructor | starcall.py:220-240 | a particle with the given position, velocity, sprite, frame, lifespan, drag, gravity and spin, unrotated |
| Particles.Particle.Move | starcall.py:252-257 | the new state is `Drift` of the old one |
| Enemies.Patrol | starcall.py:167-176 | an alive enemy whose predicted edge leaves the margins reverses speed and facing, then moves by it and rises with the scroll; a corpse keeps its course while gravity eats into its rise; well-formedness is kept |
| Enemies.NextFrame | starcall.py:178-186 | the clock counts down; from 0 or below it reloads to `AnimSpeed - 1` and the frame advances cyclically; frame and clock stay in range |
| Enemies.AnimatedSplit | starcall.py:178-186 | `m + n` animation calls are `m` calls followed by `n` |
| Enemies.OnePeriod | starcall.py:178-186 | from a clock at 0, six calls show the next frame and leave the clock at 0 |
| Enemies.FrameRate | starcall.py:178-186 | from a clock at 0, `6 * k` calls advance the frame by exactly `k` modulo 5 |
| Enemies.Tick | starcall.py:392-396 | the move, then the animation for an enemy still alive; a corpse keeps frame and clock; well-formedness is kept |
| Enemies.Kill | starcall.py:400-401 | the attack kill makes a corpse at twice the scroll speed, which then never turns |
| Enemies.Fate | starcall.py:392-401 | the enemy's state after its iteration: dead iff it was dead or slain; well-formed if slain only while alive |
| Enemies.Gone | starcall.py:392-422 | the enemy pass drops a corpse iff it is off the surface, and an alive, well-formed enemy iff its rise by the scroll speed takes it to `-TileSize` or above, whatever the surface test says |
| Enemies.Enemy.constructor | starcall.py:154-165 | an alive enemy with the drawn frame and facing, unit patrol speed, scroll-speed rise, clock 0 and its hitbox placed |
| Enemies.Enemy.MoveAndCollide | starcall.py:167-176 | the new state is `Patrol` of the old one |
| Enemies.Enemy.Animate | starcall.py:178-186 | the new state is `NextFrame` of the old one |
| Seqs.RemoveFirst | starcall.py:387 | `list.remove` drops exactly one occurrence of the element |
| Seqs.FirstIndex | starcall.py:387 | the first position holding the element |
| Seqs.RemoveFirstAfter | starcall.py:395 | removing an element absent from a prefix cuts exactly the occurrence after that prefix |
| Seqs.SweepMembers | starcall.py:383-387 | the survivors of a sweep are exactly the elements outside the condemned set |
| Seqs.SweepDistinct | starcall.py:383-387 | a sweep of a list without repeats has none |
| Seqs.SweepStep | starcall.py:391-395 | removing the current element, when condemned, turns survivors-of-prefix-plus-rest into the same shape one step on |
| Seqs.PendingSweep | starcall.py:383-387 | iterating over a copy while removing from the live list: after `i` entries the list is the survivors of those followed by the unvisited rest |
| Seqs.PendingHolds | starcall.py:391-395 | the entry a pass is about to visit is still in the live list, so `remove` never fails |
| Seqs.PendingDone | starcall.py:391-422 | a finished pass leaves exactly the survivors, in order |
| Starcall.Steer | starcall.py:355-376 | a living player's input handling keeps `Sound`; facing ends right if D was held, else left if A, else unchanged; a dive levels the angle; with no side key the horizontal speed never grows |
| Starcall.DebrisAppendedDistinct | starcall.py:406-411 | the two death particles are new, so the particle list stays free of repeats |
| Starcall.ChosenMarks | starcall.py:398-403 | the killed set holds exactly the enemies the attack slew |
| Starcall.ChosenCount | starcall.py:398-403 | one kill per slain enemy, so the 100-point bonuses add up to `100 * |killed|` |
| Starcall.PassOutcome | starcall.py:391-401 | after the enemy pass every enemy of the snapshot has met its `Fate`, with a recomputed hitbox, and only enemies alive before were killed |
| Starcall.AttackHits | starcall.py:397-403 | the attack test slays an enemy only if it was alive before its move and the player has an attack box, and then iff that box overlaps the enemy's box at its post-move position |
| Starcall.Touches | starcall.py:404 | the body test fires only for an enemy alive before its move, and then iff the body box overlaps the enemy's box at its post-move position |
| Starcall.Struck | starcall.py:391-405 | the running body test of an enemy pass: true iff some enemy among the first `n`, alive before its move, overlaps the body box at its post-move position |
| Starcall.VerdictAt | starcall.py:391-403 | enemy `j` of a pass is slain iff the player was alive at the start, no earlier enemy of the pass landed on its body, and the attack box lands on the enemy, alive before its move, at its post-move position |
| Starcall.VerdictNext | starcall.py:391-417 | one enemy iteration extends the verdicts by that enemy's, and the player's death by its body test |
| Starcall.KilledExactly | starcall.py:391-403 | the killed set holds exactly the enemies `VerdictAt` says the attack slays |
| Starcall.PlanNext | starcall.py:209-216 | one wall's step of the spawn plan appends the newborn from its draw iff it wraps and its roll is under the threshold for the enemies alive at that moment |
| Starcall.Game.constructor | starcall.py:289-295 | 32 walls, two per row from `y = 0` to `y = 240`, left column at 0, right at 160; the player at rest at (80, 50) facing right, alive, idle, with its attack box placed there; no enemies or particles; score 0; the player and every wall are new objects |
| Starcall.Game.UpdatePlayer | starcall.py:355-378 | the player's new state is `Steer` of the old one; dive sprite and attack box at the pre-move position iff S is held; the body box is replaced at the new position |
| Starcall.Game.Glide | starcall.py:370-374 | the player's new state is `Drag` of the old one |
| Starcall.Game.MoveWalls | starcall.py:380-381 | every wall's height becomes `Scroll` of the old; the walls spawn as `SpawnPlan` says for the old heights, the draws and the old enemy count; the enemy list keeps the old enemies, in unchanged states, and gains one fresh enemy per spawn, in state `Births` of the plan; it stays free of repeats |
| Starcall.Game.WallPass | starcall.py:380-381 | the loop over the walls: walls before `i` moved, the rest unmoved, the plan and the appended enemies those of the first `i` walls |
| Starcall.Game.WallStep | starcall.py:380-381 | one wall's move extends the spawn plan by one entry and appends at most the newborn it calls for |
| Starcall.Game.WallPhase | starcall.py:380-381 | the wall pass as `Grown`: the old enemies first and unchanged, then one fresh enemy per spawn of the plan in the state its draw gives; the walls stay valid |
| Starcall.Game.UpdateParticles | starcall.py:383-389 | the particle list becomes the old list without the expired particles, in order; every old particle, removed or not, drifted and aged once |
| Starcall.Game.ParticlePass | starcall.py:383-389 | the loop over the snapshot leaves the swept list and every particle's state `Aging` of the start |
| Starcall.Game.ParticleStep | starcall.py:383-389 | one iteration ages the current particle and leaves every other one of the snapshot as it was |
| Starcall.Game.AgeParticle | starcall.py:384-389 | the lifespan counts down or the particle is removed; it moves either way |
| Starcall.Game.Shatter | starcall.py:406-417 | two fresh death particles, one per death sprite, at the player's position with the drawn speeds and spin, no drag, ambient gravity and unlimited lifespan; the high score becomes the maximum of itself and the score |
| Starcall.Game.Strike | starcall.py:398-403 | the attack test slays iff the living player's attack box overlaps the enemy's box; a kill marks the corpse, doubles its fall, bounces the player by 6 and scores 100 |
| Starcall.Game.BodyHit | starcall.py:404-417 | the player dies iff it was dead or the enemy's box overlaps its body box; a new death leaves the debris and the high score; otherwise nothing changes |
| Starcall.Game.Sift | starcall.py:394-395 | `enemies.remove(e)` for a condemned enemy keeps the pass's live-list shape |
| Starcall.Game.AnimateAndCollide | starcall.py:396-417 | an enemy alive after its move is animated, gets its box, then is tested for the attack and the body hit, as `Encounter` |
| Starcall.Game.LiveEnemyTurn | starcall.py:393-417 | for an enemy alive after its move: removal at the top edge, without stopping the iteration, then `AnimateAndCollide` |
| Starcall.Game.TickEnemy | starcall.py:392-422 | one enemy iteration from the pre-tick state: `Encounter`; a corpse only moves, gets its box and is removed once off the surface |
| Starcall.Game.Visit | starcall.py:391-422 | one iteration changes only the current enemy among the snapshot; it is slain iff the player was alive and the attack lands on it; the player dies iff it was dead or the enemy lands on its body; one kill is added if it was slain; the particle list is unchanged unless the player dies here, and then it gains exactly two new particles |
| Starcall.Game.Step | starcall.py:391-422 | the enemy-pass invariant `Midway` advances by one enemy: the verdicts so far are `Verdicts` and the player is dead iff it was at the start or a visited enemy landed on its body; the particle list is unchanged unless this enemy killed the player, and then it gains exactly two new particles |
| Starcall.Game.EnemyPass | starcall.py:391-422 | the loop leaves every enemy at `Outcome`, the survivors in the list, the attack's verdicts as `Verdicts`, the player dead iff it was or `Struck`, the kills counted and the player side `Settled`; the two death particles, if the player died in the pass, are new objects |
| Starcall.Game.UpdateEnemies | starcall.py:391-422 | the enemy list becomes the snapshot without the dropped enemies; each enemy met its `Fate`; an enemy is killed iff the player was alive, no earlier enemy landed on its body and the attack lands on it; the player is dead iff it was or some enemy landed on its body; the player side is `Settled`; the two death particles, if any, are new objects |
| Starcall.Game.PlayerTurn | starcall.py:353-378 | a living player scores a point and steers, takes the dive sprite and the attack box at its pre-move position iff S is held; a dead one changes nothing |
| Starcall.Game.WallsAndParticles | starcall.py:380-389 | the walls' and the particles' part of a tick, keeping the world invariant; the enemies `Grown` by the wall pass, old ones unchanged, new ones fresh; the particles swept, every one kept an old one |
| Starcall.Game.Prepare | starcall.py:353-389 | the part of a tick before the enemy pass: the score, player, sprite and attack box as in `PlayerTurn`, the enemies `Grown` by the wall pass, new ones fresh, the particles swept, every one kept an old one |
| Starcall.Game.Resolve | starcall.py:391-422 | the enemy pass keeps the world invariant; kills and the player's death as in `UpdateEnemies`; the score gains 100 per kill and the player bounces 6 per kill; a new death leaves the debris, as two new particles, and records the high score; every enemy left was in the pass |
| Starcall.Game.Advance | starcall.py:353-422 | one tick keeps the world invariant. A living player scores 1 plus 100 per kill, steers, takes its sprite and attack box from S and bounces 6 per kill; a dead one changes nothing. The enemies are `Grown` by the wall pass (spawns as `SpawnPlan` says, newborns from the draws), then swept; each met its `Fate`, killed iff the player was alive, no earlier enemy landed on its body and the attack lands on it; the player dies iff an enemy lands on its body; particles swept; a new death adds the debris and records the high score; every enemy and every particle afterwards was in the world before the tick or is a new object, so ticks compose |
| Starcall.ParticlesAreOldOrNew | starcall.py:383-417 | particles that were kept from the old list, followed by two new ones if the player died, are each old or new |
| Starcall.SurvivorsAreOldOrNew | starcall.py:380-422 | enemies left from a pass made of the old list followed by new spawns are each old or new |
| Starcall.Play | starcall.py:289-422 | `main`: the initial world, then one main-loop iteration per tick of input, each tick with its own keys, draws and surface tests; every tick keeps the world invariant, the wall count stays 32, and the score and the high score never fall below their starting values |

## Left out

- Drawing, the HUD text, sprites and their loading, window scaling, the frame clock and event handling (quit, Escape, the F1 debug toggle) are not modelled: none of them affects the simulation state.
- The helper module that defines `approach`, `outside_surface`, `rot_center` and `load_animation_sprites` is not part of this model. `approach` is given the behaviour its call sites rely on (`Numeric.Approach`). `outside_surface` is taken to test the entity's sprite rectangle: the only such rectangle an entity has is `rect`, which is set only in `draw_self` (starcall.py:82, 249), so the test depends on the last drawn frame. It enters as an oracle parameter, supplied afresh for every tick.
- The high-score file is the integer `Game.best`. The re-read before each comparison and the write are modelled as `best := max(score, best)`, which is what they amount to with no other writer. The display variable `hscore` feeds only the HUD and is left out.
- Random draws are parameters (`SpawnDraw`, `DebrisDraw`) constrained to the ranges `random.randint`, `randrange` and `choice` produce; the distributions are stated only as counts of spawning rolls (`Walls.SpawnOdds`).
- Floating point is modelled as exact reals. IEEE rounding is not captured. For example, in the source the spawn threshold with one enemy alive evaluates to 30.000000000000004, so roll 30 spawns, while the model says 30.0 and no spawn.
- `pygame.Rect` truncates its coordinates to integers; the model's rectangles keep real coordinates, so overlap tests at fractional positions can differ.
- The particle's `hitbox_rect` (sized from its image, used only by the debug overlay), the creatures' `rect` and `active_image`, the enemy's constant `angle`, and the wall's `rect` and flipped image are display state and are left out. The player's image choice is the `Sprite` field.
- Freedom from repeats is part of the world invariant (`Game.Valid`), established by the constructor and kept by every tick. Python lists could hold one object twice, but the program never appends an object already present.
- `Seqs.RemoveFirst` requires the element to be present. Python raises `ValueError` otherwise, but every call site removes an element of the pass's snapshot, which `Seqs.PendingHolds` shows is still in the live list.
- Starcall.Game.Advance: does not restate the new wall heights or the particles' drift and lifespans; `Starcall.Game.MoveWalls` and `Starcall.Game.UpdateParticles` state them for the same tick. That a newborn survives its first enemy pass follows from `Walls.BirthsHatched` and `Walls.Hatched` rather than being restated.
- Starcall.Game.Prepare: does not restate the new wall heights or the particles' drift and lifespans, for the same reason.
- Starcall.Play: the loop runs once per entry of its input rather than until a quit event, since event handling is left out; it states the world invariant and bounds on the score and the high score, and leaves the per-tick facts to `Starcall.Game.Advance`.
- Starcall.Game.WallsAndParticles: does not restate the new wall heights or the particles' drift and lifespans, for the same reason.

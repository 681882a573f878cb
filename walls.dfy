/** The cloud walls: they scroll upward, wrap to the bottom, and on each wrap
    may spawn an enemy, more likely the fewer enemies are alive. */
module Walls {
  import opened Config
  import opened Seqs
  import opened Enemies

  /** The random draws one `Wall.move` may make, in the order it makes them:
      `randint(0, 100)`, then for a spawn `randrange` of the x position and the
      new enemy's `randint` frame and `choice` of facing. */
  datatype SpawnDraw = SpawnDraw(roll: int, x: int, frame: int, facing: int)

  predicate DrawInRange(d: SpawnDraw) {
    0 <= d.roll <= 100 &&
    TileSize <= d.x < SurfaceWidth - TileSize &&
    0 <= d.frame < EnemyFrames &&
    IsDirection(d.facing)
  }

  /** The scroll takes the wall to or above the top edge. */
  predicate Wraps(y: int) {
    y - ScrollSpeed <= -TileSize
  }

  /** The wall's height after one `move`. */
  function Scroll(y: int): (r: int)
    ensures r > -TileSize
    ensures Wraps(y) ==> r == SurfaceHeight - 1
    ensures !Wraps(y) ==> r == y - ScrollSpeed
  {
    var moved := y - ScrollSpeed;
    if moved <= -TileSize then SurfaceHeight - 1 else moved
  }

  function Scrolled(y: int, k: nat): int
    decreases k
  {
    if k == 0 then y else Scrolled(Scroll(y), k - 1)
  }

  /** The number of heights a wall cycles through. */
  const Period: int := SurfaceHeight + TileSize - 1

  /** A wall visits every height from `-TileSize + 1` to `SurfaceHeight - 1`
      in turn, wrapping exactly once per `Period` ticks; no wrap is ever
      skipped. A wall of the bottom row, which starts at `SurfaceHeight`, joins
      the cycle after its first move. */
  lemma {:induction false} ScrollCycle(y: int, k: nat)
    requires -TileSize < y <= SurfaceHeight
    requires y == SurfaceHeight ==> k >= 1
    ensures Scrolled(y, k) == -TileSize + 1 + (y + TileSize - 1 - k) % Period
    decreases k
  {
    if k > 0 {
      var y' := Scroll(y);
      ScrollCycle(y', k - 1);
      if Wraps(y) {
        assert y == -TileSize + 1;
        assert y' + TileSize - 1 - (k - 1) == (y + TileSize - 1 - k) + Period;
        ModShift(y + TileSize - 1 - k);
      } else {
        assert y' + TileSize - 1 - (k - 1) == y + TileSize - 1 - k;
      }
    }
  }

  lemma ModShift(a: int)
    ensures (a + Period) % Period == a % Period
  {
  }

  /** The spawn test's threshold, in percent:
      `(enemy_spawn_chance + (target_enemy_count - count) * enemy_spawn_chance) * 100`. */
  function SpawnThreshold(count: int): (t: real)
    ensures t == 10.0 * (TargetEnemyCount + 1 - count) as real
    ensures count >= TargetEnemyCount + 1 ==> t <= 0.0
  {
    var multiplier := (TargetEnemyCount - count) as real * SpawnChance;
    (SpawnChance + multiplier) * 100.0
  }

  /** Whether a whole-number roll spawns an enemy while `count` are alive:
      the roll is under the threshold, stated on integers. */
  predicate Spawns(roll: int, count: int) {
    roll < 10 * (TargetEnemyCount + 1 - count)
  }

  /** How many of the rolls `0 .. n - 1` spawn an enemy while `count` are alive. */
  function SpawningRolls(count: int, n: nat): nat
    decreases n
  {
    if n == 0 then 0 else SpawningRolls(count, n - 1) + (if Spawns(n - 1, count) then 1 else 0)
  }

  function Clamp(v: int, lo: int, hi: int): int {
    if v < lo then lo else if v > hi then hi else v
  }

  lemma {:induction false} SpawningRollsCount(count: int, n: nat)
    ensures SpawningRolls(count, n) == Clamp(10 * (TargetEnemyCount + 1 - count), 0, n)
    decreases n
  {
    if n > 0 {
      SpawningRollsCount(count, n - 1);
    }
  }

  /** Of the 101 equally likely rolls of `randint(0, 100)`, ten per enemy
      short of `TargetEnemyCount + 1` spawn: the odds rise as enemies die,
      stay within 0 and 1, and vanish once `TargetEnemyCount + 1` are alive. */
  lemma SpawnOdds(count: int)
    requires count >= 0
    ensures 0 <= SpawningRolls(count, 101) <= 101
    ensures SpawningRolls(count, 101) == if count <= TargetEnemyCount + 1 then 10 * (TargetEnemyCount + 1 - count) else 0
    ensures SpawningRolls(0, 101) == 40 && SpawningRolls(TargetEnemyCount, 101) == 10
    ensures count >= TargetEnemyCount + 1 ==> SpawningRolls(count, 101) == 0
  {
    SpawningRollsCount(count, 101);
    SpawningRollsCount(0, 101);
    SpawningRollsCount(TargetEnemyCount, 101);
  }

  /** A living enemy as a wall spawns it: below the bottom edge, between the
      walls. Its first tick leaves it far from the top edge, so the tick that
      spawns it does not drop it. */
  predicate Hatched(b: Bat): (r: bool)
    ensures r ==> !Gone(b, false) && !Gone(b, true)
  {
    WellFormed(b) && !b.dead && b.y == (SurfaceHeight - 1 + TileSize) as real &&
    TileSize as real <= b.x < (SurfaceWidth - TileSize) as real
  }

  /** The enemy a wall spawns from its draw: at the drawn column one tile below
      the wall's new height, which is the bottom row, patrolling the drawn way
      with the drawn frame. */
  function Newborn(d: SpawnDraw): (b: Bat)
    ensures DrawInRange(d) ==> Hatched(b)
  {
    Bat(d.x as real, (SurfaceHeight - 1 + TileSize) as real, d.facing as real,
        ScrollSpeed as real, d.facing, false, d.frame, 0)
  }

  /** The walls' heights, in list order. */
  ghost function Heights(ws: seq<Wall>): (r: seq<int>)
    reads ws
    ensures |r| == |ws|
  {
    if ws == [] then [] else Heights(ws[..|ws| - 1]) + [ws[|ws| - 1].y]
  }

  /** Entry `i` of the heights is wall `i`'s height. */
  lemma {:induction false} HeightAt(ws: seq<Wall>, i: nat)
    requires i < |ws|
    ensures Heights(ws)[i] == ws[i].y
  {
    if i < |ws| - 1 {
      HeightAt(ws[..|ws| - 1], i);
    }
  }

  /** Which of the first `n` walls spawn an enemy in one wall pass that starts
      with `count` enemies alive, the walls being at heights `ys` and drawing
      `draws`: a wall spawns when its move wraps and its roll is under the
      threshold for the enemies alive at that moment, those spawned by earlier
      walls included. */
  function SpawnPlan(ys: seq<int>, draws: seq<SpawnDraw>, count: int, n: nat): (r: seq<bool>)
    requires n <= |ys| && n <= |draws|
    ensures |r| == n
    decreases n
  {
    if n == 0 then []
    else
      var p := SpawnPlan(ys, draws, count, n - 1);
      p + [Wraps(ys[n - 1]) && Spawns(draws[n - 1].roll, count + Count(p))]
  }

  /** Entry `i` of a spawn plan is decided by wall `i` alone, given the spawns
      before it: a wall that does not wrap never spawns. */
  lemma {:induction false} SpawnPlanAt(ys: seq<int>, draws: seq<SpawnDraw>, count: int, n: nat, i: nat)
    requires i < n <= |ys| && n <= |draws|
    ensures SpawnPlan(ys, draws, count, n)[..i] == SpawnPlan(ys, draws, count, i)
    ensures SpawnPlan(ys, draws, count, n)[i] ==
              (Wraps(ys[i]) && Spawns(draws[i].roll, count + Count(SpawnPlan(ys, draws, count, i))))
    decreases n
  {
    if i < n - 1 {
      SpawnPlanAt(ys, draws, count, n - 1, i);
      var p := SpawnPlan(ys, draws, count, n - 1);
      assert SpawnPlan(ys, draws, count, n)[..n - 1] == p;
    }
  }

  /** A wall pass never takes the enemy count past `TargetEnemyCount + 1`:
      once that many are alive no roll spawns, so a pass that starts below
      the cap ends at most at it, and one that starts above it adds nothing. */
  lemma {:induction false} SpawnCap(ys: seq<int>, draws: seq<SpawnDraw>, count: int, n: nat)
    requires n <= |ys| && n <= |draws|
    requires forall d :: d in draws ==> DrawInRange(d)
    ensures count + Count(SpawnPlan(ys, draws, count, n)) <=
              if count > TargetEnemyCount + 1 then count else TargetEnemyCount + 1
    decreases n
  {
    if n > 0 {
      var p := SpawnPlan(ys, draws, count, n - 1);
      SpawnCap(ys, draws, count, n - 1);
      CountStep(p, Wraps(ys[n - 1]) && Spawns(draws[n - 1].roll, count + Count(p)));
      assert draws[n - 1] in draws;
    }
  }

  /** The enemies a wall pass with spawn plan `plan` appends, in wall order,
      each built from its wall's draw. */
  function Births(draws: seq<SpawnDraw>, plan: seq<bool>): (r: seq<Bat>)
    requires |plan| <= |draws|
    ensures |r| == Count(plan)
    decreases |plan|
  {
    if plan == [] then []
    else
      var k := |plan| - 1;
      Births(draws, plan[..k]) + if plan[k] then [Newborn(draws[k])] else []
  }

  /** Every enemy a wall pass appends is `Hatched`. */
  lemma {:induction false} BirthsHatched(draws: seq<SpawnDraw>, plan: seq<bool>)
    requires |plan| <= |draws| && forall d :: d in draws ==> DrawInRange(d)
    ensures forall b :: b in Births(draws, plan) ==> Hatched(b)
    decreases |plan|
  {
    if plan != [] {
      var k := |plan| - 1;
      BirthsHatched(draws, plan[..k]);
      assert draws[k] in draws;
    }
  }

  class Wall {
    const x: int
    var y: int
    const vspd: int

    ghost predicate Valid()
      reads this
    {
      vspd == ScrollSpeed && (x == 0 || x == SurfaceWidth) && -TileSize < y <= SurfaceHeight
    }

    constructor (x0: int, y0: int)
      requires x0 == 0 || x0 == SurfaceWidth
      requires -TileSize < y0 <= SurfaceHeight
      ensures x == x0 && y == y0 && Valid()
    {
      x, y := x0, y0;
      vspd := ScrollSpeed;
    }

    /** `Wall.move`, with the module-level `enemies` list passed in and the
        list with any spawned enemy returned. */
    method Move(enemies: seq<Enemy>, draw: SpawnDraw) returns (after: seq<Enemy>)
      requires Valid() && DrawInRange(draw)
      modifies this`y
      ensures Valid() && y == Scroll(old(y))
      ensures Wraps(old(y)) && Spawns(draw.roll, |enemies|) ==>
                |after| == |enemies| + 1 && after[..|enemies|] == enemies &&
                fresh(after[|enemies|]) && after[|enemies|].Valid() && after[|enemies|].Synced() &&
                after[|enemies|].State() == Newborn(draw)
      ensures !(Wraps(old(y)) && Spawns(draw.roll, |enemies|)) ==> after == enemies
    {
      y := y - vspd;
      after := enemies;
      if y <= -TileSize {
        y := SurfaceHeight - 1;
        var multiplier := (TargetEnemyCount - |enemies|) as real * SpawnChance;
        if draw.roll as real < (SpawnChance + multiplier) * 100.0 {
          var enemy := new Enemy(draw.x as real, (y + TileSize) as real, draw.frame, draw.facing);
          after := enemies + [enemy];
        }
      }
    }
  }
}

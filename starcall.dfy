/** One iteration of the game's main loop, over the whole world. */
module Starcall {
  import opened Config
  import opened Numeric
  import opened Geometry
  import opened Seqs
  import opened Players
  import opened Enemies
  import opened Particles
  import opened Walls

  /** The keys held this tick: A, D and S. */
  datatype Keys = Keys(left: bool, right: bool, down: bool)

  /** The random draws of one death particle: `randint(-6, 6)` scaled by 0.2
      for its horizontal speed, `randint(-5, 0)` scaled by 0.5 for its
      vertical speed, and `randint(-10, 10)` for its spin. */
  datatype DebrisDraw = DebrisDraw(h: int, v: int, rot: int)

  predicate DebrisInRange(d: DebrisDraw) {
    -6 <= d.h <= 6 && -5 <= d.v <= 0 && -10 <= d.rot <= 10
  }

  /** The steering part of a tick for a living player: side thrust for each
      side key held (left first), the dive or the draft, drag when the side
      keys cancel out, then the confined move. */
  function Steer(f: Flight, keys: Keys): (r: Flight)
    ensures Sound(f) ==> Sound(r)
    ensures r.facing == if keys.right then Right else if keys.left then Left else f.facing
    ensures keys.down ==> r.angle == 0.0
    ensures !keys.left && !keys.right ==> Abs(r.hspd) <= Abs(f.hspd)
  {
    var a := if keys.left then HorizontalThrust(f, Left) else f;
    var b := if keys.right then HorizontalThrust(a, Right) else a;
    var c := VerticalThrust(b, if keys.down then Down else Up);
    var d := if keys.left == keys.right then Drag(c) else c;
    Confine(d)
  }

  /** A death particle as the body-hit branch creates it. */
  ghost predicate IsDebris(p: Particle, sprite: nat, d: DebrisDraw, x: real, y: real)
    reads p
  {
    p.State() == Particles.Mote(x, y, 0.2 * d.h as real, 0.5 * d.v as real, 0.0) &&
    p.sprite == sprite && p.frame == -1 && p.lifespan == -1 &&
    p.resistance == 0.0 && p.gravity == Gravity && p.rotation == d.rot as real
  }

  /** `after` is `before` followed by the two death particles of a player at
      (`x`, `y`), one per death sprite. */
  ghost predicate DebrisAppended(before: seq<Particle>, after: seq<Particle>, debris: seq<DebrisDraw>, x: real, y: real)
    reads after
  {
    |debris| == 2 && |after| == |before| + 2 && after[..|before|] == before &&
    after[|before|] !in before && after[|before| + 1] !in before &&
    after[|before|] != after[|before| + 1] &&
    IsDebris(after[|before|], 0, debris[0], x, y) &&
    IsDebris(after[|before| + 1], 1, debris[1], x, y)
  }

  /** Every enemy of `es` was in the old list `es0` or is new. */
  twostate predicate EnemiesOldOrNew(es0: seq<Enemy>, new es: seq<Enemy>) {
    forall i :: 0 <= i < |es| ==> es[i] in es0 || fresh(es[i])
  }

  /** Every particle of `ps` was in the old list `ps0` or is new. */
  twostate predicate ParticlesOldOrNew(ps0: seq<Particle>, new ps: seq<Particle>) {
    forall i :: 0 <= i < |ps| ==> ps[i] in ps0 || fresh(ps[i])
  }

  /** The particles after a tick: the kept ones `kept`, all from the old list
      `ps0`, followed by two new ones when the player `died`. */
  twostate lemma ParticlesAreOldOrNew(ps0: seq<Particle>, new kept: seq<Particle>, new ps: seq<Particle>, new died: bool)
    requires forall p :: p in kept ==> p in ps0
    requires !died ==> ps == kept
    requires died ==> |ps| == |kept| + 2 && ps[..|kept|] == kept
    requires died ==> fresh(ps[|kept|]) && fresh(ps[|kept| + 1])
    ensures ParticlesOldOrNew(ps0, ps)
  {
    forall i | 0 <= i < |ps|
      ensures ps[i] in ps0 || fresh(ps[i])
    {
      if i < |kept| {
        assert ps[i] == kept[i] && kept[i] in kept;
      }
    }
  }

  /** The enemies left after a tick were in the enemy pass `pass`, whose
      first `k0` enemies are the old list and whose others are new. */
  twostate lemma SurvivorsAreOldOrNew(es0: seq<Enemy>, new pass: seq<Enemy>, new k0: nat, new es: seq<Enemy>)
    requires k0 == |es0| <= |pass| && pass[..k0] == es0
    requires forall j :: k0 <= j < |pass| ==> fresh(pass[j])
    requires forall e :: e in es ==> e in pass
    ensures EnemiesOldOrNew(es0, es)
  {
    forall i | 0 <= i < |es|
      ensures es[i] in es0 || fresh(es[i])
    {
      assert es[i] in pass;
      var j :| 0 <= j < |pass| && pass[j] == es[i];
      if j < k0 {
        assert pass[j] == es0[j];
      }
    }
  }

  /** The two death particles are new, so the list stays free of repeats. */
  lemma DebrisAppendedDistinct(before: seq<Particle>, after: seq<Particle>, debris: seq<DebrisDraw>, x: real, y: real)
    requires Distinct(before) && DebrisAppended(before, after, debris, x, y)
    ensures Distinct(after)
  {
    var n := |before|;
    forall i, j | 0 <= i < j < |after|
      ensures after[i] != after[j]
    {
      if j < n {
        assert after[i] == before[i] && after[j] == before[j];
      } else if i < n {
        assert after[i] in before;
      }
    }
  }

  /** What the enemy pass can change besides the enemies: the player, the
      score, the high score and the particle list. */
  datatype Standing = Standing(flight: Flight, dead: bool, sprite: Sprite, hitbox: Rect,
                               attack: Option<Rect>, score: int, best: int, particles: seq<Particle>)

  /** The (state, hitbox) pairs of a snapshot of enemies after an enemy pass
      has visited the first `|slainAt|` of them, from the pairs `start` they
      had before it: a visited enemy met its `Fate` and has its hitbox
      recomputed, `slainAt` saying which ones the attack slew; the others are
      as they were. */
  ghost function Outcome(start: seq<(Bat, Rect)>, slainAt: seq<bool>): (r: seq<(Bat, Rect)>)
    requires |slainAt| <= |start|
    ensures |r| == |start|
    decreases |slainAt|
  {
    if slainAt == [] then start
    else
      var k := |slainAt| - 1;
      var b := Fate(start[k].0, slainAt[k]);
      Outcome(start, slainAt[..k])[k := (b, HitRect(b))]
  }

  lemma {:induction false} OutcomeAt(start: seq<(Bat, Rect)>, slainAt: seq<bool>, j: nat)
    requires |slainAt| <= |start| && j < |start|
    ensures Outcome(start, slainAt)[j] ==
              if j < |slainAt| then (Fate(start[j].0, slainAt[j]), HitRect(Fate(start[j].0, slainAt[j])))
              else start[j]
    decreases |slainAt|
  {
    if slainAt != [] {
      var k := |slainAt| - 1;
      if j != k {
        OutcomeAt(start, slainAt[..k], j);
      }
    }
  }

  lemma OutcomeStep(start: seq<(Bat, Rect)>, slainAt: seq<bool>, slain: bool)
    requires |slainAt| < |start|
    ensures Outcome(start, slainAt + [slain]) ==
              Outcome(start, slainAt)[|slainAt| := (Fate(start[|slainAt|].0, slain), HitRect(Fate(start[|slainAt|].0, slain)))]
  {
    assert (slainAt + [slain])[..|slainAt|] == slainAt;
  }

  /** Only enemies alive at the start of the pass were slain. */
  ghost predicate Spared(alive: seq<bool>, slainAt: seq<bool>) {
    forall j :: 0 <= j < |slainAt| && j < |alive| ==> slainAt[j] ==> alive[j]
  }

  /** `kills` counts the kills recorded in `slainAt`, all of enemies alive
      at the start of the pass. */
  ghost predicate Tally(alive: seq<bool>, slainAt: seq<bool>, kills: nat) {
    kills == Count(slainAt) && Spared(alive, slainAt)
  }

  lemma TallyStep(alive: seq<bool>, slainAt: seq<bool>, kills: nat, slain: bool)
    requires Tally(alive, slainAt, kills) && |slainAt| < |alive| && (slain ==> alive[|slainAt|])
    ensures Tally(alive, slainAt + [slain], kills + if slain then 1 else 0)
  {
    CountStep(slainAt, slain);
  }

  /** Before the enemy pass: every enemy of the snapshot `snap` has the
      well-formed state `before` gives it, `alive` says which ones are alive,
      and `doomed` holds those the pass will remove. */
  ghost predicate Poised(snap: seq<Enemy>, start: seq<(Bat, Rect)>, before: seq<Bat>, alive: seq<bool>,
                         doomed: set<Enemy>, offSurface: Enemy -> bool)
    requires |start| == |snap| == |before| == |alive|
  {
    forall j :: 0 <= j < |snap| ==>
      start[j].0 == before[j] && WellFormed(start[j].0) && alive[j] == !start[j].0.dead &&
      (snap[j] in doomed <==> Gone(start[j].0, offSurface(snap[j])))
  }

  /** The enemies of the snapshot `snap` whose entry in `bs` holds. */
  ghost function Chosen(snap: seq<Enemy>, bs: seq<bool>): set<Enemy>
    requires |bs| == |snap|
  {
    if snap == [] then {}
    else
      var k := |snap| - 1;
      Chosen(snap[..k], bs[..k]) + if bs[k] then {snap[k]} else {}
  }

  lemma {:induction false} ChosenWithin(snap: seq<Enemy>, bs: seq<bool>)
    requires |bs| == |snap|
    ensures forall e :: e in Chosen(snap, bs) ==> e in snap
  {
    if snap != [] {
      var k := |snap| - 1;
      ChosenWithin(snap[..k], bs[..k]);
    }
  }

  /** Over a snapshot without repeats, `Chosen` holds one enemy per mark. */
  lemma {:induction false} ChosenCount(snap: seq<Enemy>, bs: seq<bool>)
    requires Distinct(snap) && |bs| == |snap|
    ensures |Chosen(snap, bs)| == Count(bs)
  {
    if snap != [] {
      var k := |snap| - 1;
      ChosenCount(snap[..k], bs[..k]);
      ChosenWithin(snap[..k], bs[..k]);
      assert snap[k] !in snap[..k];
    }
  }

  /** Over a snapshot without repeats, `Chosen` holds exactly the marked
      entries. */
  lemma {:induction false} ChosenMarks(snap: seq<Enemy>, bs: seq<bool>)
    requires Distinct(snap) && |bs| == |snap|
    ensures forall j :: 0 <= j < |snap| ==> (snap[j] in Chosen(snap, bs) <==> bs[j])
  {
    if snap != [] {
      var k := |snap| - 1;
      ChosenMarks(snap[..k], bs[..k]);
      ChosenWithin(snap[..k], bs[..k]);
      assert snap[k] !in snap[..k];
      forall j | 0 <= j < k
        ensures snap[j] in Chosen(snap, bs) <==> bs[j]
      {
        assert snap[..k][j] == snap[j] && bs[..k][j] == bs[j];
      }
    }
  }

  /** What a finished enemy pass leaves in each enemy of the snapshot `snap`,
      whose states were `before`: the enemies `slainAt` marks, all of them
      alive before, are killed, and every one has taken its tick. */
  lemma PassOutcome(snap: seq<Enemy>, start: seq<(Bat, Rect)>, slainAt: seq<bool>, alive: seq<bool>, before: seq<Bat>)
    requires Distinct(snap) && |slainAt| == |start| == |snap| == |before| == |alive|
    requires Views(snap) == Outcome(start, slainAt) && Spared(alive, slainAt)
    requires forall j :: 0 <= j < |snap| ==> start[j].0 == before[j] && WellFormed(before[j]) && alive[j] == !before[j].dead
    ensures forall j :: 0 <= j < |snap| ==>
              snap[j].Valid() && snap[j].Synced() &&
              snap[j].State() == Fate(before[j], snap[j] in Chosen(snap, slainAt)) &&
              (snap[j] in Chosen(snap, slainAt) ==> !before[j].dead)
  {
    ChosenMarks(snap, slainAt);
    forall j | 0 <= j < |snap|
      ensures snap[j].State() == Fate(before[j], slainAt[j]) && snap[j].Synced()
    {
      ViewAt(snap, j);
      OutcomeAt(start, slainAt, j);
    }
  }

  /** Whether the attack box `attack` lands on the enemy whose state before
      its iteration was `b`: the enemy is alive and its hitbox after the move
      overlaps the box. */
  predicate AttackHits(b: Bat, attack: Option<Rect>): (r: bool)
    ensures r ==> !b.dead && attack.Some?
    ensures attack.Some? ==> (r <==> !b.dead && Collide(attack.value, HitRect(Tick(b))))
  {
    !b.dead && attack.Some? && Collide(HitRect(Tick(b)), attack.value)
  }

  /** Whether the enemy whose state before its iteration was `b` lands on the
      player's body box `body`: it was alive before the move, and its hitbox
      after the move overlaps the box. */
  predicate Touches(b: Bat, body: Rect): (r: bool)
    ensures r ==> !b.dead
    ensures r <==> !b.dead && Collide(body, HitRect(Tick(b)))
  {
    !b.dead && Collide(HitRect(Tick(b)), body)
  }

  /** Whether one of the first `n` enemies of an enemy pass, whose states
      before it were `bats`, lands on the body box. */
  function Struck(bats: seq<Bat>, body: Rect, n: nat): (r: bool)
    requires n <= |bats|
    ensures r <==> exists j :: 0 <= j < n && Touches(bats[j], body)
    decreases n
  {
    n > 0 && (Struck(bats, body, n - 1) || Touches(bats[n - 1], body))
  }

  /** The attack's verdicts on the first `n` enemies of an enemy pass, whose
      states before it were `bats`: an enemy is slain when the player, dead
      at the start of the pass if `dead0`, was still alive when its turn
      came and the attack box lands on it. */
  function Verdicts(bats: seq<Bat>, dead0: bool, body: Rect, attack: Option<Rect>, n: nat): (r: seq<bool>)
    requires n <= |bats|
    ensures |r| == n
    decreases n
  {
    if n == 0 then []
    else Verdicts(bats, dead0, body, attack, n - 1) +
         [!(dead0 || Struck(bats, body, n - 1)) && AttackHits(bats[n - 1], attack)]
  }

  lemma {:induction false} VerdictAt(bats: seq<Bat>, dead0: bool, body: Rect, attack: Option<Rect>, n: nat, j: nat)
    requires j < n <= |bats|
    ensures Verdicts(bats, dead0, body, attack, n)[j] == (!dead0 && !Struck(bats, body, j) && AttackHits(bats[j], attack))
    decreases n
  {
    if j < n - 1 {
      VerdictAt(bats, dead0, body, attack, n - 1, j);
    }
  }

  /** One more enemy's verdict, from whether the player was dead before its
      turn (`dead`) and after it (`dead'`). */
  lemma VerdictNext(bats: seq<Bat>, dead0: bool, body: Rect, attack: Option<Rect>, slainAt: seq<bool>,
                    dead: bool, slain: bool, dead': bool)
    requires |slainAt| < |bats| && slainAt == Verdicts(bats, dead0, body, attack, |slainAt|)
    requires dead == (dead0 || Struck(bats, body, |slainAt|))
    requires slain == (!dead && AttackHits(bats[|slainAt|], attack))
    requires dead' == (dead || Touches(bats[|slainAt|], body))
    ensures slainAt + [slain] == Verdicts(bats, dead0, body, attack, |slainAt| + 1)
    ensures dead' == (dead0 || Struck(bats, body, |slainAt| + 1))
  {
  }

  /** Over a snapshot without repeats, the enemies the verdicts choose are
      exactly those the attack lands on while the player is still alive. */
  lemma KilledExactly(snap: seq<Enemy>, bats: seq<Bat>, dead0: bool, body: Rect, attack: Option<Rect>)
    requires Distinct(snap) && |bats| == |snap|
    ensures forall j :: 0 <= j < |snap| ==>
              (snap[j] in Chosen(snap, Verdicts(bats, dead0, body, attack, |snap|)) <==>
               !dead0 && !Struck(bats, body, j) && AttackHits(bats[j], attack))
  {
    ChosenMarks(snap, Verdicts(bats, dead0, body, attack, |snap|));
    forall j | 0 <= j < |snap|
      ensures Verdicts(bats, dead0, body, attack, |snap|)[j] == (!dead0 && !Struck(bats, body, j) && AttackHits(bats[j], attack))
    {
      VerdictAt(bats, dead0, body, attack, |snap|, j);
    }
  }

  /** The spawns of a wall pass: `spawnedAt` is the plan for the wall
      heights `ys` and the draws with `k0` enemies alive before the pass, and
      the states `before` of the enemy list it leaves run past the `k0` old
      enemies with one newborn per spawn, built from that wall's draw. */
  predicate Grown(ys: seq<int>, draws: seq<SpawnDraw>, k0: nat, spawnedAt: seq<bool>, before: seq<Bat>) {
    |ys| <= |draws| && spawnedAt == SpawnPlan(ys, draws, k0, |ys|) &&
    |before| == k0 + Count(spawnedAt) &&
    forall j :: k0 <= j < |before| ==> before[j] == Births(draws, spawnedAt)[j - k0]
  }

  /** One wall's step of a spawn plan and of the enemies it appends: wall `i`
      spawns when its move wraps and its roll is under the threshold for the
      enemies alive at that moment. */
  ghost method PlanNext(ys: seq<int>, draws: seq<SpawnDraw>, count: int, i: nat, plan: seq<bool>, born: seq<Bat>)
    returns (plan': seq<bool>, born': seq<Bat>)
    requires i < |ys| && i < |draws| && plan == SpawnPlan(ys, draws, count, i) && born == Births(draws, plan)
    ensures plan' == SpawnPlan(ys, draws, count, i + 1) && born' == Births(draws, plan')
    ensures born' == born + if Wraps(ys[i]) && Spawns(draws[i].roll, count + |born|) then [Newborn(draws[i])] else []
  {
    var b := Wraps(ys[i]) && Spawns(draws[i].roll, count + Count(plan));
    plan' := plan + [b];
    assert plan'[..i] == plan;
    born' := Births(draws, plan');
  }

  class Game {
    var player: Player
    var walls: seq<Wall>
    var enemies: seq<Enemy>
    var particles: seq<Particle>
    var score: int
    /** The high score kept in the persisted record. */
    var best: int

    ghost predicate Valid()
      reads this, player, walls, enemies, particles
    {
      player.Valid() &&
      Distinct(walls) && (forall w :: w in walls ==> w.Valid()) &&
      Distinct(enemies) && (forall e :: e in enemies ==> e.Valid() && e.Synced()) &&
      Distinct(particles)
    }

    /** The particles the lifespan bookkeeping removes this tick. */
    ghost function Expired(ps: seq<Particle>, offSurface: Particle -> bool): set<Particle>
      reads ps
    {
      set p | p in ps && Expires(p.lifespan, offSurface(p))
    }

    /** The enemies the enemy pass removes this tick. */
    ghost function Doomed(es: seq<Enemy>, offSurface: Enemy -> bool): set<Enemy>
      reads es
    {
      set e | e in es && Gone(e.State(), offSurface(e))
    }

    /** The world before the first tick: two walls per row, tiled down the
        screen, and the player at mid-width on the stable altitude. `hscore`
        is the persisted high score. */
    constructor (hscore: int)
      ensures Valid()
      ensures |walls| == 2 * (SurfaceHeight / TileSize + 1)
      ensures forall i :: 0 <= i < |walls| ==>
                walls[i].x == (if i % 2 == 0 then 0 else SurfaceWidth) && walls[i].y == TileSize * (i / 2)
      ensures player.State() == Flight(SurfaceWidth as real / 2.0, StableAltitude as real, 0.0, 0.0, 0.0, Right)
      ensures !player.dead && player.sprite == Idle
      ensures player.attackRect == Some(Place(SurfaceWidth as real / 2.0, StableAltitude as real, AttackHitbox))
      ensures enemies == [] && particles == [] && score == 0 && best == hscore
      ensures fresh(player) && forall i :: 0 <= i < |walls| ==> fresh(walls[i])
    {
      var rows: seq<Wall> := [];
      for i := 0 to SurfaceHeight / TileSize + 1
        invariant |rows| == 2 * i
        invariant Distinct(rows)
        invariant forall j :: 0 <= j < |rows| ==> fresh(rows[j]) && rows[j].Valid()
        invariant forall j :: 0 <= j < |rows| ==>
                    rows[j].x == (if j % 2 == 0 then 0 else SurfaceWidth) && rows[j].y == TileSize * (j / 2)
      {
        var wall := new Wall(0, TileSize * i);
        var wall2 := new Wall(SurfaceWidth, TileSize * i);
        rows := rows + [wall, wall2];
      }
      walls := rows;
      player := new Player(SurfaceWidth as real / 2.0, StableAltitude as real);
      enemies, particles := [], [];
      score, best := 0, hscore;
    }

    /** The input handling of a tick for a living player. */
    method UpdatePlayer(keys: Keys)
      requires player.Valid()
      modifies player
      ensures player.Valid()
      ensures player.State() == Steer(old(player.State()), keys)
      ensures player.dead == old(player.dead)
      ensures player.sprite == if keys.down then Dive else Idle
      ensures player.attackRect == if keys.down then Some(Place(old(player.x), old(player.y), AttackHitbox)) else None
    {
      ghost var f := player.State();
      if keys.left {
        player.AccelerateHorizontally(Left);
      }
      ghost var a := player.State();
      assert a == if keys.left then HorizontalThrust(f, Left) else f;
      if keys.right {
        player.AccelerateHorizontally(Right);
      }
      ghost var b := player.State();
      assert b == if keys.right then HorizontalThrust(a, Right) else a;
      if keys.down {
        player.AccelerateVertically(Down);
        player.sprite := Dive;
        player.attackRect := Some(Place(player.x, player.y, AttackHitbox));
      } else {
        player.AccelerateVertically(Up);
        player.sprite := Idle;
        player.attackRect := None;
      }
      ghost var c := player.State();
      assert c == VerticalThrust(b, if keys.down then Down else Up);
      if (!keys.right && !keys.left) || (keys.right && keys.left) {
        Glide();
      }
      ghost var d := player.State();
      assert d == if keys.left == keys.right then Drag(c) else c;
      player.MoveAndCollide();
      player.hitboxRect := Place(player.x, player.y, PlayerHitbox);
    }

    /** The drag applied while the side keys cancel out. */
    method Glide()
      modifies player`hspd, player`angle
      ensures player.State() == Drag(old(player.State()))
    {
      if player.hspd != 0.0 {
        player.hspd := Numeric.Approach(player.hspd, 0.0, Resistance);
      }
      if player.angle != 0.0 {
        player.angle := Numeric.Approach(player.angle, 0.0, RotationSpd);
      }
    }

    /** Every wall moves once, in list order; each may append one enemy.
        `spawnedAt` says which walls spawned one: those that wrapped with a
        roll under the threshold for the enemies alive at that moment,
        counting the ones spawned earlier in the pass. The enemies are
        appended in wall order, each built from its wall's draw. */
    method MoveWalls(draws: seq<SpawnDraw>) returns (ghost spawnedAt: seq<bool>)
      requires Distinct(walls) && (forall w :: w in walls ==> w.Valid())
      requires Distinct(enemies) && (forall e :: e in enemies ==> e.Valid() && e.Synced())
      requires |draws| == |walls| && (forall d :: d in draws ==> DrawInRange(d))
      modifies this`enemies, walls
      ensures forall i :: 0 <= i < |walls| ==> walls[i].Valid() && walls[i].y == Scroll(old(walls[i].y))
      ensures spawnedAt == SpawnPlan(old(Heights(walls)), draws, |old(enemies)|, |walls|)
      ensures |enemies| == |old(enemies)| + Count(spawnedAt)
      ensures enemies[..|old(enemies)|] == old(enemies)
      ensures forall j :: |old(enemies)| <= j < |enemies| ==>
                fresh(enemies[j]) && enemies[j].State() == Births(draws, spawnedAt)[j - |old(enemies)|]
      ensures Distinct(enemies) && (forall e :: e in enemies ==> e.Valid() && e.Synced())
      ensures forall w :: w in walls ==> w.Valid()
      ensures forall j :: 0 <= j < |old(enemies)| ==> enemies[j].State() == old(enemies[j].State())
    {
      ghost var ys := Heights(walls);
      forall j | 0 <= j < |walls|
        ensures ys[j] == walls[j].y
      {
        HeightAt(walls, j);
      }
      ghost var k := |enemies|;
      ghost var born, added;
      spawnedAt, born, added := WallPass(draws, ys);
      assert enemies[..k] == old(enemies);
      forall j | k <= j < |enemies|
        ensures fresh(enemies[j]) && enemies[j].State() == born[j - k]
      {
        assert enemies[j] == added[j - k] && added[j - k] in added;
      }
    }

    /** The wall pass's loop over the walls, at heights `ys`: `added` are the
        enemies it appends, whose states are `born`. */
    method WallPass(draws: seq<SpawnDraw>, ghost ys: seq<int>)
      returns (ghost spawnedAt: seq<bool>, ghost born: seq<Bat>, ghost added: seq<Enemy>)
      requires Distinct(walls) && |ys| == |walls| && forall j :: 0 <= j < |walls| ==> walls[j].Valid() && walls[j].y == ys[j]
      requires Distinct(enemies) && (forall e :: e in enemies ==> e.Valid() && e.Synced())
      requires |draws| == |walls| && (forall d :: d in draws ==> DrawInRange(d))
      modifies this`enemies, walls
      ensures forall j :: 0 <= j < |walls| ==> walls[j].Valid() && walls[j].y == Scroll(ys[j])
      ensures spawnedAt == SpawnPlan(ys, draws, |old(enemies)|, |walls|) && born == Births(draws, spawnedAt)
      ensures enemies == old(enemies) + added && |added| == |born|
      ensures forall j :: 0 <= j < |added| ==> added[j].State() == born[j]
      ensures forall a :: a in added ==> fresh(a)
      ensures Distinct(enemies) && (forall e :: e in enemies ==> e.Valid() && e.Synced())
    {
      ghost var k := |enemies|;
      born, added, spawnedAt := [], [], [];
      for i := 0 to |walls|
        invariant forall j :: 0 <= j < i ==> walls[j].Valid() && walls[j].y == Scroll(ys[j])
        invariant forall j :: i <= j < |walls| ==> walls[j].Valid() && walls[j].y == ys[j]
        invariant spawnedAt == SpawnPlan(ys, draws, k, i) && born == Births(draws, spawnedAt)
        invariant enemies == old(enemies) + added && |added| == |born|
        invariant forall j :: 0 <= j < |added| ==> added[j].State() == born[j]
        invariant forall a :: a in added ==> fresh(a)
        invariant Distinct(enemies) && (forall e :: e in enemies ==> e.Valid() && e.Synced())
      {
        assert draws[i] in draws;
        spawnedAt, born, added := WallStep(i, draws, ys, k, old(enemies), spawnedAt, born, added);
        forall j | 0 <= j < |walls| && j != i
          ensures walls[j] != walls[i]
        {
        }
      }
    }

    /** Wall `i`'s move within the wall pass: the walls before it have made
        their moves, spawning `added`, whose states are `born`. */
    method WallStep(i: nat, draws: seq<SpawnDraw>, ghost ys: seq<int>, ghost k: nat, ghost base: seq<Enemy>,
                    ghost plan: seq<bool>, ghost born: seq<Bat>, ghost added: seq<Enemy>)
      returns (ghost plan': seq<bool>, ghost born': seq<Bat>, ghost added': seq<Enemy>)
      requires i < |walls| == |ys| && i < |draws| && DrawInRange(draws[i])
      requires walls[i].Valid() && walls[i].y == ys[i]
      requires plan == SpawnPlan(ys, draws, k, i) && born == Births(draws, plan)
      requires enemies == base + added && |base| == k && |added| == |born|
      requires forall j :: 0 <= j < |added| ==> added[j].State() == born[j]
      requires Distinct(enemies) && (forall e :: e in enemies ==> e.Valid() && e.Synced())
      modifies this`enemies, walls[i]
      ensures walls[i].Valid() && walls[i].y == Scroll(ys[i])
      ensures plan' == SpawnPlan(ys, draws, k, i + 1) && born' == Births(draws, plan')
      ensures enemies == base + added' && |added'| == |born'|
      ensures forall j :: 0 <= j < |added'| ==> added'[j].State() == born'[j]
      ensures forall a :: a in added' ==> a in added || fresh(a)
      ensures Distinct(enemies) && (forall e :: e in enemies ==> e.Valid() && e.Synced())
    {
      var prior := enemies;
      enemies := walls[i].Move(enemies, draws[i]);
      plan', born' := PlanNext(ys, draws, k, i, plan, born);
      if enemies != prior {
        var e := enemies[|prior|];
        added' := added + [e];
        assert enemies == prior + [e] == base + added';
        assert forall j :: 0 <= j < |prior| ==> prior[j] != e;
      } else {
        added' := added;
      }
    }

    /** The particle pass: lifespan bookkeeping and removal, then the move,
        which a particle removed this tick still makes. */
    method UpdateParticles(offSurface: Particle -> bool)
      requires Distinct(particles)
      modifies this`particles, particles
      ensures particles == Sweep(old(particles), old(Expired(particles, offSurface)))
      ensures Distinct(particles)
      ensures forall p :: p in old(particles) ==>
                p.State() == Drift(old(p.State()), p.resistance, p.gravity, p.rotation) &&
                p.lifespan == Aged(old(p.lifespan))
    {
      var snap := particles;
      ghost var gone := Expired(particles, offSurface);
      ghost var start := Motes(snap);
      forall j | 0 <= j < |snap|
        ensures start[j] == (snap[j].State(), snap[j].lifespan)
        ensures snap[j] in gone <==> Expires(start[j].1, offSurface(snap[j]))
      {
        MoteAt(snap, j);
        assert snap[j] in particles;
      }
      ParticlePass(offSurface, snap, gone, start);
      SweepDistinct(snap, gone);
      forall p | p in snap
        ensures p.State() == Drift(old(p.State()), p.resistance, p.gravity, p.rotation)
        ensures p.lifespan == Aged(old(p.lifespan))
      {
        var j :| 0 <= j < |snap| && snap[j] == p;
        MoteAt(snap, j);
      }
    }

    /** The loop of the particle pass over the snapshot `snap`, whose
        (state, lifespan) pairs were `start` and of which it removes `gone`. */
    method ParticlePass(offSurface: Particle -> bool, snap: seq<Particle>, ghost gone: set<Particle>,
                        ghost start: seq<(Mote, int)>)
      requires particles == snap && Distinct(snap) && |start| == |snap| && Motes(snap) == start
      requires forall j :: 0 <= j < |snap| ==> (snap[j] in gone <==> Expires(start[j].1, offSurface(snap[j])))
      modifies this`particles, snap
      ensures particles == Sweep(snap, gone) && Motes(snap) == Aging(snap, start, |snap|)
    {
      for i := 0 to |snap|
        invariant particles == Pending(snap, i, gone) && Motes(snap) == Aging(snap, start, i)
      {
        ParticleStep(snap, i, gone, offSurface(snap[i]), start);
      }
      PendingDone(snap, gone);
    }

    /** One iteration of the particle pass, seen from the pass: the particle
        at position `i` of the snapshot `snap`, whose (state, lifespan) pairs
        were `start`, ages and every other one stays as it was. */
    method ParticleStep(snap: seq<Particle>, i: nat, ghost gone: set<Particle>, offSurface: bool,
                ghost start: seq<(Mote, int)>)
      requires Distinct(snap) && i < |snap| == |start| && particles == Pending(snap, i, gone)
      requires snap[i] in gone <==> Expires(start[i].1, offSurface)
      requires Motes(snap) == Aging(snap, start, i)
      modifies this`particles, snap
      ensures particles == Pending(snap, i + 1, gone)
      ensures Motes(snap) == Aging(snap, start, i + 1)
    {
      ghost var before := Motes(snap);
      forall j | 0 <= j < |snap|
        ensures before[j] == (snap[j].State(), snap[j].lifespan)
      {
        MoteAt(snap, j);
      }
      AgeParticle(snap[i], offSurface, snap, i, gone);
      forall j | 0 <= j < |snap|
        ensures Motes(snap)[j] == Aging(snap, start, i + 1)[j]
      {
        MoteAt(snap, j);
        assert j != i ==> snap[j] != snap[i];
      }
    }

    /** One iteration of the particle pass: count the lifespan down, or remove
        the particle once it has run out (or, for an unlimited one, left the
        surface); the particle moves either way. `p` is entry `i` of the
        snapshot `snap`, of which the pass removes `gone`. */
    method AgeParticle(p: Particle, offSurface: bool, ghost snap: seq<Particle>, ghost i: nat, ghost gone: set<Particle>)
      requires Distinct(snap) && i < |snap| && p == snap[i] && particles == Pending(snap, i, gone)
      requires p in gone <==> Expires(p.lifespan, offSurface)
      modifies this`particles, p
      ensures particles == Pending(snap, i + 1, gone)
      ensures p.State() == Drift(old(p.State()), p.resistance, p.gravity, p.rotation)
      ensures p.lifespan == Aged(old(p.lifespan))
    {
      PendingHolds(snap, i, gone);
      if p.lifespan > 0 {
        p.lifespan := p.lifespan - 1;
      } else if p.lifespan == 0 || (offSurface && p.lifespan < 0) {
        particles := RemoveFirst(particles, p);
      }
      p.Move();
    }

    /** The body-hit consequences after the death flag: two death particles,
        one per death sprite, each followed by the high-score update. */
    method Shatter(debris: seq<DebrisDraw>)
      requires |debris| == 2
      modifies this`particles, this`best
      ensures DebrisAppended(old(particles), particles, debris, player.x, player.y)
      ensures fresh(particles[|old(particles)|]) && fresh(particles[|old(particles)| + 1])
      ensures best == if score > old(best) then score else old(best)
    {
      ghost var n := |particles|;
      for i := 0 to 2
        invariant |particles| == n + i && particles[..n] == old(particles)
        invariant i >= 1 ==>
                    fresh(particles[n]) && particles[n] !in old(particles) &&
                    IsDebris(particles[n], 0, debris[0], player.x, player.y)
        invariant i == 2 ==>
                    fresh(particles[n + 1]) && particles[n + 1] !in old(particles) &&
                    particles[n] != particles[n + 1] &&
                    IsDebris(particles[n + 1], 1, debris[1], player.x, player.y)
        invariant best == if i == 0 then old(best) else if score > old(best) then score else old(best)
      {
        var part := new Particle(player.x, player.y, 0.2 * debris[i].h as real, 0.5 * debris[i].v as real,
                                 i, -1, -1, 0.0, Gravity, debris[i].rot as real);
        ghost var before := particles;
        particles := particles + [part];
        assert particles[..n] == before[..n];
        assert particles[n + i] == part;
        if score > best {
          best := score;
        }
      }
    }

    /** What one iteration of the enemy pass does to enemy `e`, whose state
        was `b0`, and to the player side, which was `s`: `slain` says whether
        the attack hit it. The enemy is ticked
        and, if slain, killed; a kill bounces the player up and scores 100; an
        enemy alive before the tick that overlaps the living player's body
        kills the player (even one slain in the same iteration), which leaves
        the two death particles and records the high score. Nothing else of
        the player changes. */
    ghost predicate Encounter(e: Enemy, b0: Bat, s: Standing, slain: bool, debris: seq<DebrisDraw>)
      reads this, e, player, particles
    {
      slain == (!s.dead && AttackHits(b0, s.attack)) &&
      e.State() == Fate(b0, slain) &&
      score == s.score + (if slain then 100 else 0) &&
      player.State() == s.flight.(vspd := s.flight.vspd - if slain then 6.0 else 0.0) &&
      player.sprite == s.sprite && player.hitboxRect == s.hitbox && player.attackRect == s.attack &&
      player.dead == (s.dead || Touches(b0, s.hitbox)) &&
      if player.dead && !s.dead then
        DebrisAppended(s.particles, particles, debris, player.x, player.y) &&
        best == (if score > s.best then score else s.best)
      else
        particles == s.particles && best == s.best
    }

    /** The player side of the game, as `Standing`. */
    ghost function Now(): (r: Standing)
      reads this, player
      ensures r.flight == player.State() && r.particles == particles
    {
      Standing(player.State(), player.dead, player.sprite, player.hitboxRect, player.attackRect,
               score, best, particles)
    }

    /** The player side after `kills` attack kills of an enemy pass that
        started from `s0`: each kill scored 100 and bounced the player up;
        otherwise only a death can have happened, which left the death
        particles and recorded the high score. */
    ghost predicate Settled(s0: Standing, kills: nat, debris: seq<DebrisDraw>)
      reads this, player, particles
    {
      player.Valid() &&
      score == s0.score + 100 * kills &&
      player.State() == s0.flight.(vspd := s0.flight.vspd - 6.0 * kills as real) &&
      player.sprite == s0.sprite && player.hitboxRect == s0.hitbox && player.attackRect == s0.attack &&
      (s0.dead ==> kills == 0 && player.dead) &&
      if player.dead && !s0.dead then
        DebrisAppended(s0.particles, particles, debris, player.x, player.y) &&
        best == (if score > s0.best then score else s0.best)
      else
        particles == s0.particles && best == s0.best
    }

    /** One iteration of the enemy pass, seen from the pass: `TickEnemy` on
        the enemy at position `i` of the snapshot leaves every other enemy of
        the snapshot as it was. */
    method Visit(e: Enemy, offSurface: bool, debris: seq<DebrisDraw>,
                 ghost snap: seq<Enemy>, ghost i: nat, ghost doomed: set<Enemy>,
                 ghost s0: Standing, ghost kills: nat) returns (slain: bool)
      requires Distinct(snap) && i < |snap| && e == snap[i] && enemies == Pending(snap, i, doomed)
      requires e in doomed <==> Gone(e.State(), offSurface)
      requires e.Valid() && Settled(s0, kills, debris)
      requires |debris| == 2
      modifies this`enemies, this`particles, this`score, this`best, e, player
      ensures e.Synced() && e.State() == Fate(old(e.State()), slain) && (slain ==> !old(e.dead))
      ensures slain == (!old(player.dead) && AttackHits(old(e.State()), s0.attack))
      ensures player.dead == (old(player.dead) || Touches(old(e.State()), s0.hitbox))
      ensures enemies == Pending(snap, i + 1, doomed)
      ensures Views(snap) == old(Views(snap))[i := (e.State(), e.hitboxRect)]
      ensures Settled(s0, kills + if slain then 1 else 0, debris)
      ensures !(player.dead && !old(player.dead)) ==> particles == old(particles)
      ensures player.dead && !old(player.dead) ==>
                |particles| == |old(particles)| + 2 && particles[..|old(particles)|] == old(particles) &&
                fresh(particles[|old(particles)|]) && fresh(particles[|old(particles)| + 1])
    {
      ghost var before := Views(snap);
      forall j | 0 <= j < |snap|
        ensures before[j] == (snap[j].State(), snap[j].hitboxRect)
      {
        ViewAt(snap, j);
      }
      slain := TickEnemy(e, offSurface, debris, snap, i, doomed, Now());
      forall j | 0 <= j < |snap|
        ensures Views(snap)[j] == before[i := (e.State(), e.hitboxRect)][j]
      {
        ViewAt(snap, j);
        assert j != i ==> snap[j] != e;
      }
    }

    /** One iteration of the enemy pass: move; for an enemy alive at that
        point, `LiveEnemyTurn`; for a corpse, removal once off the surface. `s` is the
        player side before it. */
    method TickEnemy(e: Enemy, offSurface: bool, debris: seq<DebrisDraw>,
                     ghost snap: seq<Enemy>, ghost i: nat, ghost doomed: set<Enemy>, ghost s: Standing)
      returns (slain: bool)
      requires Distinct(snap) && i < |snap| && e == snap[i] && enemies == Pending(snap, i, doomed)
      requires e in doomed <==> Gone(e.State(), offSurface)
      requires e.Valid() && player.Valid() && Now() == s
      requires |debris| == 2
      modifies this`enemies, this`particles, this`score, this`best, e, player
      ensures e.Valid() && e.Synced() && player.Valid()
      ensures enemies == Pending(snap, i + 1, doomed)
      ensures Encounter(e, old(e.State()), s, slain, debris)
      ensures !(player.dead && !old(player.dead)) ==> particles == old(particles)
      ensures player.dead && !old(player.dead) ==>
                |particles| == |old(particles)| + 2 && particles[..|old(particles)|] == old(particles) &&
                fresh(particles[|old(particles)|]) && fresh(particles[|old(particles)| + 1])
    {
      ghost var b0 := e.State();
      e.MoveAndCollide();
      if !e.dead {
        slain := LiveEnemyTurn(e, debris, snap, i, doomed, b0, s);
      } else {
        slain := false;
        e.hitboxRect := Place(e.x, e.y, EnemyHitbox);
        Sift(e, offSurface, snap, i, doomed);
      }
    }

    /** The rest of the iteration for an enemy still alive after its move,
        from state `b0` before it: the removal at the top edge (which does not
        stop the rest of the iteration), the animation, the attack test and
        the body test (a plain `if`, so an enemy just killed can still kill
        the player). */
    method LiveEnemyTurn(e: Enemy, debris: seq<DebrisDraw>, ghost snap: seq<Enemy>, ghost i: nat,
                 ghost doomed: set<Enemy>, ghost b0: Bat, ghost s: Standing) returns (slain: bool)
      requires Distinct(snap) && i < |snap| && e == snap[i] && enemies == Pending(snap, i, doomed)
      requires WellFormed(b0) && !b0.dead && e.State() == Patrol(b0)
      requires e in doomed <==> e.y <= -TileSize as real
      requires player.Valid() && Now() == s && |debris| == 2
      modifies this`enemies, this`particles, this`score, this`best, e, player
      ensures e.Valid() && e.Synced() && player.Valid()
      ensures enemies == Pending(snap, i + 1, doomed)
      ensures Encounter(e, b0, s, slain, debris)
      ensures !(player.dead && !old(player.dead)) ==> particles == old(particles)
      ensures player.dead && !old(player.dead) ==>
                |particles| == |old(particles)| + 2 && particles[..|old(particles)|] == old(particles) &&
                fresh(particles[|old(particles)|]) && fresh(particles[|old(particles)| + 1])
    {
      Sift(e, e.y <= -TileSize as real, snap, i, doomed);
      slain := AnimateAndCollide(e, debris, b0, s);
    }

    /** The animation, the hitbox update, the attack test and the body test
        for an enemy alive after its move from `b0`. */
    method AnimateAndCollide(e: Enemy, debris: seq<DebrisDraw>, ghost b0: Bat, ghost s: Standing) returns (slain: bool)
      requires WellFormed(b0) && !b0.dead && e.State() == Patrol(b0)
      requires player.Valid() && Now() == s && |debris| == 2
      modifies this`particles, this`score, this`best, e, player
      ensures e.Valid() && e.Synced() && player.Valid()
      ensures Encounter(e, b0, s, slain, debris)
      ensures !(player.dead && !old(player.dead)) ==> particles == old(particles)
      ensures player.dead && !old(player.dead) ==>
                |particles| == |old(particles)| + 2 && particles[..|old(particles)|] == old(particles) &&
                fresh(particles[|old(particles)|]) && fresh(particles[|old(particles)| + 1])
    {
      e.Animate();
      e.hitboxRect := Place(e.x, e.y, EnemyHitbox);
      slain := Strike(e);
      BodyHit(e, debris);
    }

    /** `enemies.remove(e)` when `remove` holds, for the enemy `e` at
        position `i` of the pass's snapshot. */
    method Sift(e: Enemy, remove: bool, ghost snap: seq<Enemy>, ghost i: nat, ghost doomed: set<Enemy>)
      requires Distinct(snap) && i < |snap| && e == snap[i] && enemies == Pending(snap, i, doomed)
      requires remove <==> e in doomed
      modifies this`enemies
      ensures enemies == Pending(snap, i + 1, doomed)
    {
      PendingHolds(snap, i, doomed);
      if remove {
        enemies := RemoveFirst(enemies, e);
      }
    }

    /** The attack test: a living player diving with its attack box over the
        enemy kills it, doubles its fall, bounces the player up and scores. */
    method Strike(e: Enemy) returns (slain: bool)
      modifies e`dead, e`vspd, player`vspd, this`score
      ensures slain == (!player.dead && player.attackRect.Some? && Collide(e.hitboxRect, player.attackRect.value))
      ensures e.State() == if slain then Kill(old(e.State())) else old(e.State())
      ensures player.State() == old(player.State()).(vspd := old(player.vspd) - if slain then 6.0 else 0.0)
      ensures score == old(score) + (if slain then 100 else 0)
    {
      slain := false;
      if !player.dead && player.attackRect.Some? {
        if Collide(e.hitboxRect, player.attackRect.value) {
          e.dead := true;
          e.vspd := e.vspd * 2.0;
          player.vspd := player.vspd - 6.0;
          score := score + 100;
          slain := true;
        }
      }
    }

    /** The body test, a plain `if` after the attack test: the enemy's box over
        the living player's body box kills the player, scatters the two death
        particles and updates the high score. */
    method BodyHit(e: Enemy, debris: seq<DebrisDraw>)
      requires |debris| == 2
      modifies player`dead, this`particles, this`best
      ensures player.dead == (old(player.dead) || Collide(e.hitboxRect, player.hitboxRect))
      ensures player.dead && !old(player.dead) ==>
                DebrisAppended(old(particles), particles, debris, player.x, player.y) &&
                fresh(particles[|old(particles)|]) && fresh(particles[|old(particles)| + 1]) &&
                best == if score > old(best) then score else old(best)
      ensures !(player.dead && !old(player.dead)) ==> particles == old(particles) && best == old(best)
    {
      if Collide(e.hitboxRect, player.hitboxRect) && !player.dead {
        player.dead := true;
        Shatter(debris);
      }
    }

    /** The enemy pass over a snapshot of the list: every enemy is ticked,
        including one removed earlier in the same iteration; the enemies
        killed by the attack are returned. */
    method UpdateEnemies(offSurface: Enemy -> bool, debris: seq<DebrisDraw>, ghost pass: seq<Enemy>, ghost before: seq<Bat>)
      returns (ghost doomed: set<Enemy>, ghost killed: set<Enemy>)
      requires player.Valid()
      requires Distinct(enemies) && (forall e :: e in enemies ==> e.Valid())
      requires pass == enemies && |before| == |pass| && forall j :: 0 <= j < |pass| ==> before[j] == pass[j].State()
      requires |debris| == 2
      modifies this`enemies, this`particles, this`score, this`best, player, enemies
      ensures enemies == Sweep(pass, doomed)
      ensures forall j :: 0 <= j < |pass| ==>
                pass[j].Valid() && pass[j].Synced() &&
                (pass[j] in doomed <==> Gone(before[j], offSurface(pass[j]))) &&
                pass[j].State() == Fate(before[j], pass[j] in killed) &&
                (pass[j] in killed ==> !before[j].dead)
      ensures forall j :: 0 <= j < |pass| ==>
                (pass[j] in killed <==>
                 !old(player.dead) && !Struck(before, old(player.hitboxRect), j) && AttackHits(before[j], old(player.attackRect)))
      ensures player.dead == (old(player.dead) || Struck(before, old(player.hitboxRect), |pass|))
      ensures forall e :: e in killed ==> e in pass
      ensures Settled(old(Now()), |killed|, debris)
      ensures player.dead && !old(player.dead) ==> fresh(particles[|old(particles)|]) && fresh(particles[|old(particles)| + 1])
    {
      var snap := enemies;
      doomed := Doomed(enemies, offSurface);
      ghost var start := Views(snap);
      forall j | 0 <= j < |snap|
        ensures WellFormed(start[j].0) && start[j].0 == before[j]
        ensures snap[j] in doomed <==> Gone(start[j].0, offSurface(snap[j]))
      {
        ViewAt(snap, j);
        assert snap[j] in enemies;
      }
      ghost var alive := seq(|snap|, j requires 0 <= j < |snap| => !start[j].0.dead);
      ghost var s0 := Now();
      ghost var slainAt, kills := EnemyPass(offSurface, debris, snap, doomed, start, before, alive, s0);
      killed := Chosen(snap, slainAt);
      KilledExactly(snap, before, s0.dead, s0.hitbox, s0.attack);
      ChosenCount(snap, slainAt);
      ChosenWithin(snap, slainAt);
      PendingDone(snap, doomed);
      PassOutcome(snap, start, slainAt, alive, before);
    }

    /** One iteration of the main loop, without its event handling and
        drawing: a living player scores a point and steers; the walls move and
        may spawn enemies; the particle pass leaves `kept`; the enemy pass runs
        over `pass`, the enemy list as the walls left it, whose states were
        `before`, removes `doomed` and kills `killed`. A player already dead
        only watches. */
    method Advance(keys: Keys, draws: seq<SpawnDraw>, offSurfaceP: Particle -> bool,
                   offSurfaceE: Enemy -> bool, debris: seq<DebrisDraw>)
      returns (ghost kept: seq<Particle>, ghost pass: seq<Enemy>, ghost before: seq<Bat>, ghost spawnedAt: seq<bool>, ghost ys: seq<int>, ghost k0: nat,
               ghost doomed: set<Enemy>, ghost killed: set<Enemy>)
      requires Valid()
      requires |draws| == |walls| && (forall d :: d in draws ==> DrawInRange(d))
      requires |debris| == 2 && DebrisInRange(debris[0]) && DebrisInRange(debris[1])
      modifies this`score, this`best, this`enemies, this`particles, player, walls, enemies, particles
      ensures Valid()
      ensures walls == old(walls)
      ensures ys == old(Heights(walls)) && k0 == |old(enemies)| && Grown(ys, draws, k0, spawnedAt, before)
      ensures |pass| == |before| && pass[..k0] == old(enemies)
      ensures forall j :: 0 <= j < k0 ==> before[j] == old(enemies[j].State())
      ensures forall j :: k0 <= j < |pass| ==> fresh(pass[j])
      ensures enemies == Sweep(pass, doomed)
      ensures forall j :: 0 <= j < |pass| ==>
                (pass[j] in doomed <==> Gone(before[j], offSurfaceE(pass[j]))) &&
                pass[j].State() == Fate(before[j], pass[j] in killed) &&
                (pass[j] in killed ==> !before[j].dead)
      ensures forall j :: 0 <= j < |pass| ==>
                (pass[j] in killed <==>
                 !old(player.dead) && !Struck(before, player.hitboxRect, j) && AttackHits(before[j], player.attackRect))
      ensures player.dead == (old(player.dead) || Struck(before, player.hitboxRect, |pass|))
      ensures player.sprite == if old(player.dead) then old(player.sprite) else if keys.down then Dive else Idle
      ensures player.attackRect == if old(player.dead) then old(player.attackRect)
                                   else if keys.down then Some(Place(old(player.x), old(player.y), AttackHitbox)) else None
      ensures forall e :: e in killed ==> e in pass
      ensures EnemiesOldOrNew(old(enemies), enemies)
      ensures ParticlesOldOrNew(old(particles), particles)
      ensures kept == Sweep(old(particles), old(Expired(particles, offSurfaceP)))
      ensures score == old(score) + (if old(player.dead) then 0 else 1) + 100 * |killed|
      ensures old(player.dead) ==> killed == {} && player.dead && player.State() == old(player.State())
      ensures !old(player.dead) ==>
                var f := Steer(old(player.State()), keys);
                player.State() == f.(vspd := f.vspd - 6.0 * |killed| as real)
      ensures player.dead && !old(player.dead) ==>
                DebrisAppended(kept, particles, debris, player.x, player.y) &&
                best == (if score > old(best) then score else old(best))
      ensures !(player.dead && !old(player.dead)) ==> particles == kept && best == old(best)
    {
      kept, pass, before, spawnedAt, ys, k0 := Prepare(keys, draws, offSurfaceP);
      ghost var dead0 := player.dead;
      doomed, killed := Resolve(offSurfaceE, debris, pass, before);
      SurvivorsAreOldOrNew(old(enemies), pass, k0, enemies);
      ghost var died := player.dead && !dead0;
      ParticlesAreOldOrNew(old(particles), kept, particles, died);
    }

    /** The part of a tick before the enemy pass: the player's input handling
        and point while alive, the walls, the particle pass. */
    method Prepare(keys: Keys, draws: seq<SpawnDraw>, offSurfaceP: Particle -> bool)
      returns (ghost kept: seq<Particle>, ghost pass: seq<Enemy>, ghost before: seq<Bat>, ghost spawnedAt: seq<bool>,
               ghost ys: seq<int>, ghost k0: nat)
      requires Valid()
      requires |draws| == |walls| && (forall d :: d in draws ==> DrawInRange(d))
      modifies this`score, this`enemies, this`particles, player, walls, particles
      ensures Valid() && particles == kept && enemies == pass && best == old(best) && walls == old(walls)
      ensures ys == old(Heights(walls)) && k0 == |old(enemies)| && Grown(ys, draws, k0, spawnedAt, before)
      ensures |pass| == |before| && pass[..k0] == old(enemies)
      ensures forall j :: 0 <= j < k0 ==> before[j] == old(enemies[j].State())
      ensures forall j :: 0 <= j < |pass| ==> before[j] == pass[j].State()
      ensures forall j :: k0 <= j < |pass| ==> fresh(pass[j])
      ensures forall p :: p in particles ==> p in old(particles)
      ensures kept == Sweep(old(particles), old(Expired(particles, offSurfaceP)))
      ensures score == old(score) + (if old(player.dead) then 0 else 1)
      ensures player.dead == old(player.dead)
      ensures player.State() == if old(player.dead) then old(player.State()) else Steer(old(player.State()), keys)
      ensures player.sprite == if old(player.dead) then old(player.sprite) else if keys.down then Dive else Idle
      ensures player.attackRect == if old(player.dead) then old(player.attackRect)
                                   else if keys.down then Some(Place(old(player.x), old(player.y), AttackHitbox)) else None
    {
      PlayerTurn(keys);
      kept, pass, before, spawnedAt, ys, k0 := WallsAndParticles(draws, offSurfaceP);
    }

    /** The player's part of a tick: while alive, a point and the input
        handling. */
    method PlayerTurn(keys: Keys)
      requires player.Valid()
      modifies this`score, player
      ensures player.Valid() && player.dead == old(player.dead)
      ensures score == old(score) + (if old(player.dead) then 0 else 1)
      ensures player.State() == if old(player.dead) then old(player.State()) else Steer(old(player.State()), keys)
      ensures player.sprite == if old(player.dead) then old(player.sprite) else if keys.down then Dive else Idle
      ensures player.attackRect == if old(player.dead) then old(player.attackRect)
                                   else if keys.down then Some(Place(old(player.x), old(player.y), AttackHitbox)) else None
    {
      if !player.dead {
        score := score + 1;
        UpdatePlayer(keys);
      }
    }

    /** The wall pass, with the enemy list it leaves and that list's states. */
    method WallPhase(draws: seq<SpawnDraw>)
      returns (ghost pass: seq<Enemy>, ghost before: seq<Bat>, ghost spawnedAt: seq<bool>, ghost ys: seq<int>, ghost k0: nat)
      requires Distinct(walls) && (forall w :: w in walls ==> w.Valid())
      requires Distinct(enemies) && (forall e :: e in enemies ==> e.Valid() && e.Synced())
      requires |draws| == |walls| && (forall d :: d in draws ==> DrawInRange(d))
      modifies this`enemies, walls
      ensures Distinct(walls) && (forall w :: w in walls ==> w.Valid())
      ensures Distinct(enemies) && (forall e :: e in enemies ==> e.Valid() && e.Synced())
      ensures enemies == pass
      ensures ys == old(Heights(walls)) && k0 == |old(enemies)| && Grown(ys, draws, k0, spawnedAt, before)
      ensures |pass| == |before| && pass[..k0] == old(enemies)
      ensures forall j :: 0 <= j < k0 ==> before[j] == old(enemies[j].State())
      ensures forall j :: 0 <= j < |pass| ==> before[j] == pass[j].State()
      ensures forall j :: k0 <= j < |pass| ==> fresh(pass[j])
    {
      ys, k0 := Heights(walls), |enemies|;
      spawnedAt := MoveWalls(draws);
      pass := enemies;
      before := seq(|pass|, j requires 0 <= j < |pass| reads pass => pass[j].State());
    }

    /** The walls' and the particles' part of a tick. */
    method WallsAndParticles(draws: seq<SpawnDraw>, offSurfaceP: Particle -> bool)
      returns (ghost kept: seq<Particle>, ghost pass: seq<Enemy>, ghost before: seq<Bat>, ghost spawnedAt: seq<bool>,
               ghost ys: seq<int>, ghost k0: nat)
      requires Valid()
      requires |draws| == |walls| && (forall d :: d in draws ==> DrawInRange(d))
      modifies this`enemies, this`particles, walls, particles
      ensures Valid() && particles == kept && enemies == pass
      ensures ys == old(Heights(walls)) && k0 == |old(enemies)| && Grown(ys, draws, k0, spawnedAt, before)
      ensures |pass| == |before| && pass[..k0] == old(enemies)
      ensures forall j :: 0 <= j < k0 ==> before[j] == old(enemies[j].State())
      ensures forall j :: 0 <= j < |pass| ==> before[j] == pass[j].State()
      ensures forall j :: k0 <= j < |pass| ==> fresh(pass[j])
      ensures forall p :: p in particles ==> p in old(particles)
      ensures kept == Sweep(old(particles), old(Expired(particles, offSurfaceP)))
    {
      pass, before, spawnedAt, ys, k0 := WallPhase(draws);
      ghost var ps := particles;
      UpdateParticles(offSurfaceP);
      kept := particles;
      SweepMembers(ps, old(Expired(particles, offSurfaceP)));
    }

    /** The enemy pass over `pass`, the enemy list, whose states are
        `before`, with the list invariants it keeps: the survivors and the
        particle list, with any death particles, stay free of repeats.
        `doomed` are the enemies it removes. */
    method Resolve(offSurface: Enemy -> bool, debris: seq<DebrisDraw>, ghost pass: seq<Enemy>, ghost before: seq<Bat>)
      returns (ghost doomed: set<Enemy>, ghost killed: set<Enemy>)
      requires Valid() && |debris| == 2
      requires pass == enemies && |before| == |pass| && forall j :: 0 <= j < |pass| ==> before[j] == pass[j].State()
      modifies this`enemies, this`particles, this`score, this`best, player, enemies
      ensures Valid() && walls == old(walls)
      ensures enemies == Sweep(pass, doomed)
      ensures forall j :: 0 <= j < |pass| ==>
                (pass[j] in doomed <==> Gone(before[j], offSurface(pass[j]))) &&
                pass[j].State() == Fate(before[j], pass[j] in killed) &&
                (pass[j] in killed ==> !before[j].dead)
      ensures forall j :: 0 <= j < |pass| ==>
                (pass[j] in killed <==>
                 !old(player.dead) && !Struck(before, player.hitboxRect, j) && AttackHits(before[j], player.attackRect))
      ensures player.dead == (old(player.dead) || Struck(before, player.hitboxRect, |pass|))
      ensures player.sprite == old(player.sprite) && player.hitboxRect == old(player.hitboxRect) &&
              player.attackRect == old(player.attackRect)
      ensures forall e :: e in killed ==> e in pass
      ensures forall e :: e in enemies ==> e in pass
      ensures score == old(score) + 100 * |killed|
      ensures old(player.dead) ==> killed == {} && player.dead && player.State() == old(player.State())
      ensures !old(player.dead) ==>
                player.State() == old(player.State()).(vspd := old(player.vspd) - 6.0 * |killed| as real)
      ensures player.dead && !old(player.dead) ==>
                DebrisAppended(old(particles), particles, debris, player.x, player.y) &&
                best == (if score > old(best) then score else old(best))
      ensures !(player.dead && !old(player.dead)) ==> particles == old(particles) && best == old(best)
      ensures player.dead && !old(player.dead) ==> fresh(particles[|old(particles)|]) && fresh(particles[|old(particles)| + 1])
    {
      ghost var kept := particles;
      doomed, killed := UpdateEnemies(offSurface, debris, pass, before);
      SweepDistinct(pass, doomed);
      SweepMembers(pass, doomed);
      if player.dead && !old(player.dead) {
        DebrisAppendedDistinct(kept, particles, debris, player.x, player.y);
      }
    }

    /** The enemy pass over the snapshot `snap`, whose states were `before`,
        partway: it has visited the first `|slainAt|` enemies, which the attack
        slew where `slainAt` says, `kills` times in all; the player is dead
        if it was at the start or one of them landed on its body. */
    ghost predicate Midway(snap: seq<Enemy>, doomed: set<Enemy>, start: seq<(Bat, Rect)>, before: seq<Bat>,
                           alive: seq<bool>, s0: Standing, slainAt: seq<bool>, kills: nat, debris: seq<DebrisDraw>)
      reads this, player, particles, snap
    {
      |slainAt| <= |snap| == |start| == |before| &&
      enemies == Pending(snap, |slainAt|, doomed) && Views(snap) == Outcome(start, slainAt) &&
      slainAt == Verdicts(before, s0.dead, s0.hitbox, s0.attack, |slainAt|) &&
      player.dead == (s0.dead || Struck(before, s0.hitbox, |slainAt|)) &&
      Tally(alive, slainAt, kills) && Settled(s0, kills, debris)
    }

    /** The loop of the enemy pass over the snapshot `snap`, whose enemies
        had the (state, hitbox) pairs `start` and of which the pass removes
        `doomed`; `slainAt` says which ones the attack slew. */
    method EnemyPass(offSurface: Enemy -> bool, debris: seq<DebrisDraw>, snap: seq<Enemy>,
                     ghost doomed: set<Enemy>, ghost start: seq<(Bat, Rect)>, ghost before: seq<Bat>,
                     ghost alive: seq<bool>, ghost s0: Standing)
      returns (ghost slainAt: seq<bool>, ghost kills: nat)
      requires enemies == snap && Distinct(snap) && Views(snap) == start
      requires |before| == |alive| == |snap| && Poised(snap, start, before, alive, doomed, offSurface)
      requires Settled(s0, 0, debris) && player.dead == s0.dead && |debris| == 2
      modifies this`enemies, this`particles, this`score, this`best, player, snap
      ensures |slainAt| == |snap| && Midway(snap, doomed, start, before, alive, s0, slainAt, kills, debris)
      ensures player.dead && !old(player.dead) ==> fresh(particles[|old(particles)|]) && fresh(particles[|old(particles)| + 1])
    {
      slainAt, kills := [], 0;
      for i := 0 to |snap|
        invariant |slainAt| == i && Midway(snap, doomed, start, before, alive, s0, slainAt, kills, debris)
        invariant player.dead && !s0.dead ==>
                    fresh(particles[|s0.particles|]) && fresh(particles[|s0.particles| + 1])
      {
        var slain := Step(offSurface, debris, snap, i, doomed, start, before, alive, s0, slainAt, kills);
        slainAt := slainAt + [slain];
        kills := kills + if slain then 1 else 0;
      }
    }

    /** One iteration of `EnemyPass`, on the enemy at position
        `i == |slainAt|` of the snapshot. */
    method Step(offSurface: Enemy -> bool, debris: seq<DebrisDraw>, snap: seq<Enemy>, i: nat,
                ghost doomed: set<Enemy>, ghost start: seq<(Bat, Rect)>, ghost before: seq<Bat>,
                ghost alive: seq<bool>, ghost s0: Standing, ghost slainAt: seq<bool>, ghost kills: nat)
      returns (slain: bool)
      requires Distinct(snap) && |debris| == 2 && i == |slainAt| < |snap| == |start| == |before| == |alive|
      requires Poised(snap, start, before, alive, doomed, offSurface)
      requires Midway(snap, doomed, start, before, alive, s0, slainAt, kills, debris)
      modifies this`enemies, this`particles, this`score, this`best, player, snap
      ensures Midway(snap, doomed, start, before, alive, s0, slainAt + [slain], kills + if slain then 1 else 0, debris)
      ensures !(player.dead && !old(player.dead)) ==> particles == old(particles)
      ensures player.dead && !old(player.dead) ==>
                |particles| == |old(particles)| + 2 && particles[..|old(particles)|] == old(particles) &&
                fresh(particles[|old(particles)|]) && fresh(particles[|old(particles)| + 1])
    {
      var enemy := snap[i];
      ViewAt(snap, i);
      OutcomeAt(start, slainAt, i);
      assert enemy.State() == before[i];
      ghost var dead := player.dead;
      slain := Visit(enemy, offSurface(enemy), debris, snap, i, doomed, s0, kills);
      VerdictNext(before, s0.dead, s0.hitbox, s0.attack, slainAt, dead, slain, player.dead);
      OutcomeStep(start, slainAt, slain);
      TallyStep(alive, slainAt, kills, slain);
      assert Views(snap) == Outcome(start, slainAt + [slain]);
      assert Settled(s0, kills + if slain then 1 else 0, debris);
    }
  }

  /** What one main-loop iteration takes from outside the simulation: the
      keys held, the wall pass's draws, the death particles' draws, and the
      surface tests as they answer on this tick's frame. */
  datatype TickInput = TickInput(keys: Keys, draws: seq<SpawnDraw>, debris: seq<DebrisDraw>,
                                 offSurfaceP: Particle -> bool, offSurfaceE: Enemy -> bool)

  /** Whether a tick's draws fit a world of `n` walls and lie in the ranges
      the random calls produce. */
  predicate Playable(t: TickInput, n: nat) {
    |t.draws| == n && (forall d :: d in t.draws ==> DrawInRange(d)) &&
    |t.debris| == 2 && DebrisInRange(t.debris[0]) && DebrisInRange(t.debris[1])
  }

  /** `main`: the initial world, then one iteration of the main loop per
      entry of `ticks`. Every tick keeps the world invariant; the wall count
      stays 32; the score and the high score never fall below their start. */
  method Play(hscore: int, ticks: seq<TickInput>)
    returns (g: Game)
    requires forall t :: t in ticks ==> Playable(t, 2 * (SurfaceHeight / TileSize + 1))
    ensures fresh(g) && g.Valid()
    ensures |g.walls| == 2 * (SurfaceHeight / TileSize + 1)
    ensures g.score >= 0 && g.best >= hscore
  {
    g := new Game(hscore);
    for k := 0 to |ticks|
      invariant fresh(g) && fresh(g.player) && g.Valid()
      invariant |g.walls| == 2 * (SurfaceHeight / TileSize + 1)
      invariant forall i :: 0 <= i < |g.walls| ==> fresh(g.walls[i])
      invariant forall i :: 0 <= i < |g.enemies| ==> fresh(g.enemies[i])
      invariant forall i :: 0 <= i < |g.particles| ==> fresh(g.particles[i])
      invariant g.score >= 0 && g.best >= hscore
    {
      var t := ticks[k];
      assert t in ticks;
      ghost var kept, pass, before, spawnedAt, ys, k0, doomed, killed :=
        g.Advance(t.keys, t.draws, t.offSurfaceP, t.offSurfaceE, t.debris);
    }
  }
}

/** The eye-bat: patrols side to side while alive, falls as a corpse once
    killed, and cycles its animation frames. */
module Enemies {
  import opened Config
  import opened Geometry

  /** Frames of the eye-bat animation. */
  const EnemyFrames: int := 5
  /** Ticks each frame is shown. */
  const AnimSpeed: int := 6
  const EnemyHitbox: Box := Box(-6.0, -8.0, 13.0, 17.0)

  /** The state of one enemy. */
  datatype Bat = Bat(x: real, y: real, hspd: real, vspd: real, facing: int,
                     dead: bool, frame: int, clock: int)

  /** What holds of every enemy from construction on: it moves at unit speed
      the way it faces, shows a real frame, keeps its clock below the frame
      period, and, while alive, is carried by the scroll. */
  predicate WellFormed(b: Bat) {
    IsDirection(b.facing) && b.hspd == b.facing as real &&
    0 <= b.frame < EnemyFrames && 0 <= b.clock < AnimSpeed &&
    (!b.dead ==> b.vspd == ScrollSpeed as real)
  }

  /** The horizontal edge `move_and_collide` predicts, on the side the enemy faces. */
  function BatLeadingEdge(b: Bat): real {
    b.x + b.hspd + EnemyHitbox.w / 2.0 * b.facing as real
  }

  /** An alive enemy turns round when its predicted edge leaves the margins. */
  predicate Bounces(b: Bat) {
    !b.dead && OutsideMargins(BatLeadingEdge(b))
  }

  /** `Enemy.move_and_collide`. */
  function Patrol(b: Bat): (r: Bat)
    ensures r.dead == b.dead && r.frame == b.frame && r.clock == b.clock
    ensures Bounces(b) ==> r.hspd == -b.hspd && r.facing == -b.facing
    ensures !Bounces(b) ==> r.hspd == b.hspd && r.facing == b.facing
    ensures !b.dead ==> r.vspd == b.vspd && r.y == b.y - b.vspd
    ensures b.dead ==> r.vspd == b.vspd - Gravity && r.y == b.y - r.vspd
    ensures r.x == b.x + r.hspd
    ensures WellFormed(b) ==> WellFormed(r)
  {
    var turned := if Bounces(b) then b.(hspd := b.hspd * -1.0, facing := b.facing * -1) else b;
    var fallen := if b.dead then turned.(vspd := turned.vspd - Gravity) else turned;
    fallen.(x := fallen.x + fallen.hspd, y := fallen.y - fallen.vspd)
  }

  /** `Enemy.animate`: the clock counts down; on a call that finds it at or
      below zero it is reloaded and the next frame, wrapping to the first, is
      shown. */
  function NextFrame(b: Bat): (r: Bat)
    ensures r.(frame := b.frame, clock := b.clock) == b
    ensures b.clock <= 0 ==> r.clock == AnimSpeed - 1
    ensures b.clock <= 0 && 0 <= b.frame < EnemyFrames ==> r.frame == (b.frame + 1) % EnemyFrames
    ensures b.clock > 0 ==> r.clock == b.clock - 1 && r.frame == b.frame
    ensures 0 <= b.frame < EnemyFrames ==> 0 <= r.frame < EnemyFrames
    ensures b.clock <= AnimSpeed ==> 0 <= r.clock < AnimSpeed
  {
    var reloaded :=
      if b.clock <= 0 then
        b.(clock := AnimSpeed, frame := if b.frame + 1 > EnemyFrames - 1 then 0 else b.frame + 1)
      else b;
    reloaded.(clock := reloaded.clock - 1)
  }

  /** `k` successive calls of `animate`. */
  function Animated(b: Bat, k: nat): Bat
    decreases k
  {
    if k == 0 then b else Animated(NextFrame(b), k - 1)
  }

  lemma {:induction false} AnimatedSplit(b: Bat, m: nat, n: nat)
    ensures Animated(b, m + n) == Animated(Animated(b, m), n)
    decreases m
  {
    if m > 0 {
      AnimatedSplit(NextFrame(b), m - 1, n);
    }
  }

  /** From a clock at zero, one frame period of calls shows the next frame and
      leaves the clock at zero again. */
  lemma OnePeriod(b: Bat)
    requires b.clock == 0 && 0 <= b.frame < EnemyFrames
    ensures Animated(b, AnimSpeed) == b.(frame := (b.frame + 1) % EnemyFrames)
  {
    var b6 := NextFrame(NextFrame(NextFrame(NextFrame(NextFrame(NextFrame(b))))));
    assert b6 == b.(frame := (b.frame + 1) % EnemyFrames);
  }

  /** The frame advances exactly once every `AnimSpeed` ticks, cycling through
      all the frames. */
  lemma {:induction false} FrameRate(b: Bat, k: nat)
    requires b.clock == 0 && 0 <= b.frame < EnemyFrames
    ensures Animated(b, AnimSpeed * k) == b.(frame := (b.frame + k) % EnemyFrames)
  {
    if k > 0 {
      FrameRate(b, k - 1);
      var c := b.(frame := (b.frame + k - 1) % EnemyFrames);
      AnimatedSplit(b, AnimSpeed * (k - 1), AnimSpeed);
      OnePeriod(c);
      assert (c.frame + 1) % EnemyFrames == (b.frame + k) % EnemyFrames;
    }
  }

  /** One pass of the main loop's enemy update before hit resolution: move,
      then, for an enemy still alive, animate. */
  function Tick(b: Bat): (r: Bat)
    ensures r.dead == b.dead
    ensures !b.dead ==> r.vspd == b.vspd && r.y == b.y - b.vspd
    ensures b.dead ==> r.vspd == b.vspd - Gravity && r.frame == b.frame && r.clock == b.clock
    ensures WellFormed(b) ==> WellFormed(r)
  {
    var moved := Patrol(b);
    if moved.dead then moved else NextFrame(moved)
  }

  /** The attack kill: the enemy becomes a corpse whose fall starts at twice
      its speed. */
  function Kill(b: Bat): (r: Bat)
    ensures r.dead && !Bounces(r)
    ensures WellFormed(b) && !b.dead ==> WellFormed(r) && r.vspd == 2.0 * ScrollSpeed as real
  {
    b.(dead := true, vspd := b.vspd * 2.0)
  }

  /** An enemy's state after its iteration of the enemy pass: ticked, then
      turned into a corpse if the attack hit it. */
  function Fate(b: Bat, slain: bool): (r: Bat)
    ensures r.dead == (b.dead || slain)
    ensures WellFormed(b) && (slain ==> !b.dead) ==> WellFormed(r)
  {
    if slain then Kill(Tick(b)) else Tick(b)
  }

  /** Whether the main loop drops the enemy this tick: an alive enemy once it
      has scrolled to the top edge, a corpse once it is off the surface. */
  predicate Gone(b: Bat, offSurface: bool): (r: bool)
    ensures b.dead ==> (r <==> offSurface)
    ensures WellFormed(b) && !b.dead ==> (r <==> b.y - ScrollSpeed as real <= -TileSize as real)
  {
    if b.dead then offSurface else Patrol(b).y <= -TileSize as real
  }

  function HitRect(b: Bat): Rect {
    Place(b.x, b.y, EnemyHitbox)
  }

  /** What the enemy pass can observe of a list of enemies: each one's
      state and its last computed hitbox, in order. */
  ghost function Views(es: seq<Enemy>): (r: seq<(Bat, Rect)>)
    reads es
    ensures |r| == |es|
  {
    if es == [] then [] else Views(es[..|es| - 1]) + [(es[|es| - 1].State(), es[|es| - 1].hitboxRect)]
  }

  /** Entry `j` of the views is enemy `j`'s state and hitbox. */
  lemma {:induction false} ViewAt(es: seq<Enemy>, j: nat)
    requires j < |es|
    ensures Views(es)[j] == (es[j].State(), es[j].hitboxRect)
  {
    if j < |es| - 1 {
      ViewAt(es[..|es| - 1], j);
    }
  }

  class Enemy {
    var x: real
    var y: real
    var hspd: real
    var vspd: real
    var facing: int
    var dead: bool
    var frame: int
    var animClock: int
    var hitboxRect: Rect

    function State(): Bat
      reads this
    {
      Bat(x, y, hspd, vspd, facing, dead, frame, animClock)
    }

    ghost predicate Valid()
      reads this
    {
      WellFormed(State())
    }

    /** The hitbox rectangle has been recomputed since the last move. */
    ghost predicate Synced()
      reads this
    {
      hitboxRect == HitRect(State())
    }

    /** `frame0` and `facing0` are the constructor's random draws. */
    constructor (x0: real, y0: real, frame0: int, facing0: int)
      requires 0 <= frame0 < EnemyFrames && IsDirection(facing0)
      ensures State() == Bat(x0, y0, facing0 as real, ScrollSpeed as real, facing0, false, frame0, 0)
      ensures Valid() && Synced()
    {
      x, y := x0, y0;
      dead := false;
      vspd := ScrollSpeed as real;
      frame := frame0;
      facing := facing0;
      hspd := 1.0 * facing0 as real;
      animClock := 0;
      hitboxRect := Place(x0, y0, EnemyHitbox);
    }

    method MoveAndCollide()
      modifies this`x, this`y, this`hspd, this`vspd, this`facing
      ensures State() == Patrol(old(State()))
    {
      if !dead {
        var predicted := x + hspd + EnemyHitbox.w / 2.0 * facing as real;
        if OutsideMargins(predicted) {
          hspd := hspd * -1.0;
          facing := facing * -1;
        }
      } else {
        vspd := vspd - Gravity;
      }
      x := x + hspd;
      y := y - vspd;
    }

    method Animate()
      modifies this`frame, this`animClock
      ensures State() == NextFrame(old(State()))
    {
      if animClock <= 0 {
        animClock := AnimSpeed;
        if frame + 1 > EnemyFrames - 1 {
          frame := 0;
        } else {
          frame := frame + 1;
        }
      }
      animClock := animClock - 1;
    }
  }
}

/** The controllable character: approach-based steering and the
    clamp-by-zeroing-velocity move. */
module Players {
  import opened Config
  import opened Numeric
  import opened Geometry

  const MaxVspd: real := 1.0
  const MaxHspd: real := 2.0
  const BuildupH: real := 0.2
  const BuildupV: real := 0.5
  const Resistance: real := 0.075
  const MaxAngle: real := 35.0
  const RotationSpd: real := 1.5
  const PlayerHitbox: Box := Box(-4.0, -2.0, 9.0, 9.0)
  const AttackHitbox: Box := Box(-1.0, 21.0, 3.0, 3.0)

  /** Which sprite is shown: gliding, or diving with the attack hitbox out. */
  datatype Sprite = Idle | Dive

  /** Position, velocity, lean and facing of the player. */
  datatype Flight = Flight(x: real, y: real, hspd: real, vspd: real, angle: real, facing: int)

  /** Lowest edge the player's centre line may be predicted to reach. */
  function Floor(): real {
    SurfaceHeight as real - PlayerHitbox.h
  }

  predicate OutsideAltitudes(edge: real) {
    edge > Floor() || edge < StableAltitude as real
  }

  /** The horizontal edge `move_and_collide` predicts, on the side the player faces. */
  function PlayerLeadingEdge(f: Flight): real {
    f.x + f.hspd + PlayerHitbox.w / 2.0 * f.facing as real
  }

  /** The vertical edge `move_and_collide` predicts. */
  function FootEdge(f: Flight): real {
    f.y + f.vspd + PlayerHitbox.h / 2.0
  }

  /** The positions the clamp lets the player reach: the margins widened by
      half the hitbox, since the prediction adds half the hitbox. */
  predicate InBand(f: Flight) {
    TileSize as real - PlayerHitbox.w / 2.0 <= f.x <= (SurfaceWidth - TileSize) as real + PlayerHitbox.w / 2.0 &&
    StableAltitude as real - PlayerHitbox.h / 2.0 <= f.y <= Floor() - PlayerHitbox.h / 2.0
  }

  /** What every tick keeps true of the player. */
  predicate Sound(f: Flight) {
    IsDirection(f.facing) && Abs(f.hspd) <= MaxHspd && Abs(f.angle) <= MaxAngle && InBand(f)
  }

  /** The horizontal speed `accelerate_horizontally` aims for: halved while descending. */
  function TopSpeed(f: Flight): real {
    if f.vspd > 0.0 then MaxHspd / 2.0 else MaxHspd
  }

  /** `accelerate_horizontally`. */
  function HorizontalThrust(f: Flight, direction: int): (r: Flight)
    requires IsDirection(direction)
    ensures r.facing == direction
    ensures r.x == f.x && r.y == f.y && r.vspd == f.vspd
    ensures Between(r.hspd, f.hspd, TopSpeed(f) * direction as real) && Abs(r.hspd - f.hspd) <= BuildupH
    ensures f.vspd > 0.0 ==> r.angle == f.angle
    ensures f.vspd <= 0.0 ==>
              Between(r.angle, f.angle, -MaxAngle * direction as real) && Abs(r.angle - f.angle) <= RotationSpd
    ensures Abs(f.hspd) <= MaxHspd ==> Abs(r.hspd) <= MaxHspd
    ensures Abs(f.angle) <= MaxAngle ==> Abs(r.angle) <= MaxAngle
    ensures Sound(f) ==> Sound(r)
  {
    if f.vspd > 0.0 then
      f.(hspd := Approach(f.hspd, MaxHspd / 2.0 * direction as real, BuildupH), facing := direction)
    else
      f.(hspd := Approach(f.hspd, MaxHspd * direction as real, BuildupH),
         angle := Approach(f.angle, MaxAngle * direction as real * -1.0, RotationSpd),
         facing := direction)
  }

  /** `accelerate_vertically`: anything but `Down` is the upward draft. */
  function VerticalThrust(f: Flight, direction: int): (r: Flight)
    ensures r.x == f.x && r.y == f.y && r.hspd == f.hspd && r.facing == f.facing
    ensures direction == Down ==>
              r.angle == 0.0 && Between(r.vspd, f.vspd, MaxVspd) && Abs(r.vspd - f.vspd) <= BuildupV
    ensures direction != Down ==>
              r.angle == f.angle && Between(r.vspd, f.vspd, -(MaxVspd + DraftStrength as real))
              && Abs(r.vspd - f.vspd) <= BuildupV * DraftStrength as real
    ensures Sound(f) ==> Sound(r)
  {
    if direction == Down then
      f.(angle := 0.0, vspd := Approach(f.vspd, MaxVspd, BuildupV))
    else
      f.(vspd := Approach(f.vspd, -(MaxVspd + DraftStrength as real), BuildupV * DraftStrength as real))
  }

  /** The decay the main loop applies when neither or both side keys are held. */
  function Drag(f: Flight): (r: Flight)
    ensures r.x == f.x && r.y == f.y && r.vspd == f.vspd && r.facing == f.facing
    ensures Between(r.hspd, f.hspd, 0.0) && Abs(r.hspd - f.hspd) <= Resistance
    ensures Between(r.angle, f.angle, 0.0) && Abs(r.angle - f.angle) <= RotationSpd
    ensures Sound(f) ==> Sound(r)
  {
    f.(hspd := if f.hspd != 0.0 then Approach(f.hspd, 0.0, Resistance) else f.hspd,
       angle := if f.angle != 0.0 then Approach(f.angle, 0.0, RotationSpd) else f.angle)
  }

  /** `move_and_collide`: per axis, a velocity whose predicted edge would leave
      the playfield is zeroed instead of applied. */
  function Confine(f: Flight): (r: Flight)
    ensures r.angle == f.angle && r.facing == f.facing
    ensures f.hspd != 0.0 && OutsideMargins(PlayerLeadingEdge(f)) ==> r.hspd == 0.0 && r.x == f.x
    ensures !(f.hspd != 0.0 && OutsideMargins(PlayerLeadingEdge(f))) ==> r.hspd == f.hspd && r.x == f.x + f.hspd
    ensures f.vspd != 0.0 && OutsideAltitudes(FootEdge(f)) ==> r.vspd == 0.0 && r.y == f.y
    ensures !(f.vspd != 0.0 && OutsideAltitudes(FootEdge(f))) ==> r.vspd == f.vspd && r.y == f.y + f.vspd
    // the edges of a motion that was applied are inside the bounds afterwards
    ensures r.hspd != 0.0 ==> !OutsideMargins(r.x + PlayerHitbox.w / 2.0 * r.facing as real)
    ensures r.vspd != 0.0 ==> !OutsideAltitudes(r.y + PlayerHitbox.h / 2.0)
    ensures Sound(f) ==> Sound(r)
  {
    var g := if f.hspd != 0.0 then
               (var h := if OutsideMargins(PlayerLeadingEdge(f)) then 0.0 else f.hspd;
                f.(hspd := h, x := f.x + h))
             else f;
    if g.vspd != 0.0 then
      (var v := if OutsideAltitudes(FootEdge(g)) then 0.0 else g.vspd;
       g.(vspd := v, y := g.y + v))
    else g
  }

  class Player {
    var x: real
    var y: real
    var hspd: real
    var vspd: real
    var angle: real
    var facing: int
    var dead: bool
    var sprite: Sprite
    var hitboxRect: Rect
    /** Present only while the dive key is held. */
    var attackRect: Option<Rect>

    function State(): Flight
      reads this
    {
      Flight(x, y, hspd, vspd, angle, facing)
    }

    ghost predicate Valid()
      reads this
    {
      Sound(State()) && hitboxRect == Place(x, y, PlayerHitbox)
    }

    constructor (x0: real, y0: real)
      ensures State() == Flight(x0, y0, 0.0, 0.0, 0.0, Right)
      ensures !dead && sprite == Idle
      ensures hitboxRect == Place(x0, y0, PlayerHitbox)
      ensures attackRect == Some(Place(x0, y0, AttackHitbox))
    {
      x, y := x0, y0;
      hspd, vspd, angle := 0.0, 0.0, 0.0;
      facing := Right;
      dead := false;
      sprite := Idle;
      hitboxRect := Place(x0, y0, PlayerHitbox);
      attackRect := Some(Place(x0, y0, AttackHitbox));
    }

    method AccelerateHorizontally(direction: int)
      requires IsDirection(direction)
      modifies this`hspd, this`angle, this`facing
      ensures State() == HorizontalThrust(old(State()), direction)
    {
      if vspd > 0.0 {
        hspd := Approach(hspd, MaxHspd / 2.0 * direction as real, BuildupH);
      } else {
        hspd := Approach(hspd, MaxHspd * direction as real, BuildupH);
        angle := Approach(angle, MaxAngle * direction as real * -1.0, RotationSpd);
      }
      facing := direction;
    }

    method AccelerateVertically(direction: int)
      modifies this`vspd, this`angle
      ensures State() == VerticalThrust(old(State()), direction)
    {
      if direction == Down {
        angle := 0.0;
        vspd := Approach(vspd, MaxVspd, BuildupV);
      } else {
        vspd := Approach(vspd, -(MaxVspd + DraftStrength as real), BuildupV * DraftStrength as real);
      }
    }

    method MoveAndCollide()
      modifies this`x, this`y, this`hspd, this`vspd
      ensures State() == Confine(old(State()))
    {
      if hspd != 0.0 {
        var predicted := x + hspd + PlayerHitbox.w / 2.0 * facing as real;
        if OutsideMargins(predicted) {
          hspd := 0.0;
        }
        x := x + hspd;
      }
      if vspd != 0.0 {
        var predicted := y + vspd + PlayerHitbox.h / 2.0;
        if OutsideAltitudes(predicted) {
          vspd := 0.0;
        }
        y := y + vspd;
      }
    }
  }
}

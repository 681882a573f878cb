/** Debris: independent kinematics with drag, gravity and spin; the main loop
    counts its lifespan down and removes it. */
module Particles {
  import opened Numeric

  /** The moving part of a particle's state. */
  datatype Mote = Mote(x: real, y: real, hspd: real, vspd: real, angle: real)

  /** `Particle.move`: position integrates the velocity of the start of the
      tick; then drag pulls the horizontal speed toward zero, gravity adds to
      the vertical speed, and the particle spins. */
  function Drift(m: Mote, resistance: real, gravity: real, rotation: real): (r: Mote)
    requires resistance >= 0.0
    ensures r.x == m.x + m.hspd && r.y == m.y + m.vspd
    ensures r.vspd == m.vspd + gravity && r.angle == m.angle + rotation
    ensures Between(r.hspd, m.hspd, 0.0) && Abs(r.hspd - m.hspd) <= resistance
    ensures resistance == 0.0 ==> r.hspd == m.hspd
  {
    var moved := m.(x := m.x + m.hspd, y := m.y + m.vspd);
    moved.(hspd := Approach(moved.hspd, 0.0, resistance),
           vspd := moved.vspd + gravity,
           angle := moved.angle + rotation)
  }

  /** `k` ticks of drift. */
  function Drifted(m: Mote, resistance: real, gravity: real, rotation: real, k: nat): Mote
    requires resistance >= 0.0
    decreases k
  {
    if k == 0 then m else Drifted(Drift(m, resistance, gravity, rotation), resistance, gravity, rotation, k - 1)
  }

  /** Over any number of ticks, drag never reverses the horizontal speed nor
      makes it grow, gravity adds exactly once per tick, and the spin is
      exactly once per tick. */
  lemma {:induction false} DriftedBounds(m: Mote, resistance: real, gravity: real, rotation: real, k: nat)
    requires resistance >= 0.0
    ensures var r := Drifted(m, resistance, gravity, rotation, k);
            Between(r.hspd, m.hspd, 0.0) &&
            r.vspd == m.vspd + k as real * gravity &&
            r.angle == m.angle + k as real * rotation
    decreases k
  {
    if k > 0 {
      var n := Drift(m, resistance, gravity, rotation);
      DriftedBounds(n, resistance, gravity, rotation, k - 1);
      var r := Drifted(n, resistance, gravity, rotation, k - 1);
      assert r.vspd == m.vspd + gravity + (k - 1) as real * gravity;
      assert r.angle == m.angle + rotation + (k - 1) as real * rotation;
    }
  }

  /** The main loop's lifespan bookkeeping: a positive lifespan drops by one;
      zero or negative ones are left alone. */
  function Aged(lifespan: int): (r: int)
    ensures lifespan > 0 ==> r == lifespan - 1 && r >= 0
    ensures lifespan <= 0 ==> r == lifespan
  {
    if lifespan > 0 then lifespan - 1 else lifespan
  }

  /** Whether the main loop removes the particle this tick: a lifespan at zero,
      or an unlimited (negative) lifespan once the particle is off the surface. */
  predicate Expires(lifespan: int, offSurface: bool): (r: bool)
    ensures lifespan > 0 ==> !r
    ensures lifespan == 0 ==> r
    ensures lifespan < 0 ==> (r <==> offSurface)
  {
    lifespan == 0 || (offSurface && lifespan < 0)
  }

  /** A particle with lifespan `n >= 0` is removed on tick `n + 1` and not before. */
  lemma {:induction false} LifespanRunsOut(lifespan: int, k: nat, offSurface: bool)
    requires lifespan >= 0
    ensures AgedTimes(lifespan, k) == if k <= lifespan then lifespan - k else 0
    ensures Expires(AgedTimes(lifespan, k), offSurface) <==> k >= lifespan
    decreases k
  {
    if k > 0 {
      LifespanRunsOut(lifespan, k - 1, offSurface);
    }
  }

  function AgedTimes(lifespan: int, k: nat): int
    decreases k
  {
    if k == 0 then lifespan else Aged(AgedTimes(lifespan, k - 1))
  }

  class Particle {
    var x: real
    var y: real
    var hspd: real
    var vspd: real
    var angle: real
    var lifespan: int
    const rotation: real
    const gravity: real
    const resistance: NonNegReal
    /** Which sprite, and `-1` or the fixed frame of a multi-frame sprite. */
    const sprite: nat
    const frame: int

    function State(): Mote
      reads this
    {
      Mote(x, y, hspd, vspd, angle)
    }

    constructor (x0: real, y0: real, hspd0: real, vspd0: real, sprite0: nat, frame0: int,
                 lifespan0: int, resistance0: NonNegReal, gravity0: real, rotation0: real)
      ensures State() == Mote(x0, y0, hspd0, vspd0, 0.0)
      ensures sprite == sprite0 && frame == frame0 && lifespan == lifespan0
      ensures resistance == resistance0 && gravity == gravity0 && rotation == rotation0
    {
      x, y := x0, y0;
      angle := 0.0;
      hspd, vspd := hspd0, vspd0;
      rotation := rotation0;
      lifespan := lifespan0;
      gravity := gravity0;
      resistance := resistance0;
      sprite := sprite0;
      frame := frame0;
    }

    method Move()
      modifies this`x, this`y, this`hspd, this`vspd, this`angle
      ensures State() == Drift(old(State()), resistance, gravity, rotation)
    {
      x := x + hspd;
      y := y + vspd;
      hspd := Approach(hspd, 0.0, resistance);
      vspd := vspd + gravity;
      angle := angle + rotation;
    }
  }

  /** One tick of the particle pass on a particle whose (state, lifespan)
      pair was `v`: it drifts and its lifespan is counted down. */
  function Ticked(p: Particle, v: (Mote, int)): (Mote, int) {
    (Drift(v.0, p.resistance, p.gravity, p.rotation), Aged(v.1))
  }

  /** What the particle pass can observe of a list of particles: each
      one's state and lifespan, in order. */
  ghost function Motes(ps: seq<Particle>): (r: seq<(Mote, int)>)
    reads ps
    ensures |r| == |ps|
  {
    if ps == [] then [] else Motes(ps[..|ps| - 1]) + [(ps[|ps| - 1].State(), ps[|ps| - 1].lifespan)]
  }

  lemma {:induction false} MoteAt(ps: seq<Particle>, j: nat)
    requires j < |ps|
    ensures Motes(ps)[j] == (ps[j].State(), ps[j].lifespan)
  {
    if j < |ps| - 1 {
      MoteAt(ps[..|ps| - 1], j);
    }
  }

  /** The (state, lifespan) pairs of a snapshot of particles after the
      particle pass has visited the first `i` of them, from the pairs
      `start` they had before it. */
  ghost function Aging(snap: seq<Particle>, start: seq<(Mote, int)>, i: nat): (r: seq<(Mote, int)>)
    requires i <= |snap| == |start|
    ensures |r| == |start|
  {
    seq(|start|, j requires 0 <= j < |start| => if j < i then Ticked(snap[j], start[j]) else start[j])
  }
}

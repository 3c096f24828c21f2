/**
 The particle record and the external constants the simulation consumes.
 Positions, velocities and accelerations are exact reals. The force
 coefficient `(1 - cutoff/r) / r^2 / mass` is left uninterpreted: it is the
 `law` field of `Physics`, a function of the clamped squared distance.
 */
module Particles {

  /** `particle_t`: position, velocity and acceleration. */
  datatype Particle = Particle(x: real, y: real, vx: real, vy: real, ax: real, ay: real)

  /**
   The constants `cutoff`, `min_r`, `mass` and `dt`, and the coefficient law
   `law(r2)` used for a squared distance `r2` already clamped below by `min_r^2`.
   */
  datatype Physics = Physics(cutoff: real, minR: real, mass: real, dt: real, law: real -> real)

  /** All external constants are strictly positive. */
  predicate ValidPhysics(ph: Physics)
  {
    ph.cutoff > 0.0 && ph.minR > 0.0 && ph.mass > 0.0 && ph.dt > 0.0
  }

  /** The particle lies in the closed domain [0, size] x [0, size]. */
  predicate InDomain(p: Particle, size: real)
  {
    0.0 <= p.x <= size && 0.0 <= p.y <= size
  }

  /** Every particle of `ps` lies in the domain. */
  predicate AllInDomain(ps: seq<Particle>, size: real)
  {
    forall k :: 0 <= k < |ps| ==> InDomain(ps[k], size)
  }

  /** The particle with its acceleration set to zero (`ax = ay = 0`). */
  function ZeroAccel(p: Particle): (r: Particle)
    ensures r.ax == 0.0 && r.ay == 0.0
    ensures r.x == p.x && r.y == p.y && r.vx == p.vx && r.vy == p.vy
  {
    p.(ax := 0.0, ay := 0.0)
  }

  /** Positions and velocities of two particle sequences agree element by element. */
  predicate SameKinematics(ps: seq<Particle>, qs: seq<Particle>)
  {
    |ps| == |qs| &&
    forall k :: 0 <= k < |ps| ==>
      ps[k].x == qs[k].x && ps[k].y == qs[k].y && ps[k].vx == qs[k].vx && ps[k].vy == qs[k].vy
  }

  /** Every particle with its acceleration set to zero: the "Reset accelerations" loop. */
  function ZeroAll(ps: seq<Particle>): seq<Particle>
  {
    seq(|ps|, k requires 0 <= k < |ps| => ZeroAccel(ps[k]))
  }
}

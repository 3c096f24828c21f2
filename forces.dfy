/**
 The short-range force kernel `apply_force` in its two forms: the symmetric
 one of the half-neighbourhood variants (adds +f to the first particle and
 -f to the second) and the asymmetric one of the 3x3-scan variants (updates
 only the first particle). Both return early when the squared distance
 exceeds cutoff^2.
 */
module Forces {
  import opened Particles

  /** `r2 = dx * dx + dy * dy` with `(dx, dy) = q - p`. */
  function Dist2(p: Particle, q: Particle): (r2: real)
    ensures r2 >= 0.0
  {
    (q.x - p.x) * (q.x - p.x) + (q.y - p.y) * (q.y - p.y)
  }

  /** The pair interacts unless `r2 > cutoff * cutoff`. */
  predicate Interacts(ph: Physics, p: Particle, q: Particle)
  {
    Dist2(p, q) <= ph.cutoff * ph.cutoff
  }

  /** `fmax(r2, min_r * min_r)`. */
  function ClampR2(ph: Physics, r2: real): (c: real)
    ensures c >= r2 && c >= ph.minR * ph.minR
    ensures c == r2 || c == ph.minR * ph.minR
  {
    if r2 >= ph.minR * ph.minR then r2 else ph.minR * ph.minR
  }

  /** The force `(coef * dx, coef * dy)` that p receives from q. */
  function Force(ph: Physics, p: Particle, q: Particle): (real, real)
  {
    var coef := ph.law(ClampR2(ph, Dist2(p, q)));
    (coef * (q.x - p.x), coef * (q.y - p.y))
  }

  /** Adds a force to the acceleration of a particle. */
  function Accelerate(p: Particle, fx: real, fy: real): (r: Particle)
    ensures r.ax == p.ax + fx && r.ay == p.ay + fy
    ensures r.x == p.x && r.y == p.y && r.vx == p.vx && r.vy == p.vy
  {
    p.(ax := p.ax + fx, ay := p.ay + fy)
  }

  /**
   The symmetric `apply_force(parts[i], parts[j])`: when the pair interacts,
   parts[i] gains f and then parts[j] loses f.
   */
  function SymmetricKick(ph: Physics, ps: seq<Particle>, i: int, j: int): (r: seq<Particle>)
    requires 0 <= i < |ps| && 0 <= j < |ps|
    ensures |r| == |ps|
  {
    if !Interacts(ph, ps[i], ps[j]) then ps
    else
      var f := Force(ph, ps[i], ps[j]);
      var ps1 := ps[i := Accelerate(ps[i], f.0, f.1)];
      ps1[j := Accelerate(ps1[j], -f.0, -f.1)]
  }

  /** The asymmetric `apply_force(parts[i], parts[k])`: only parts[i] changes. */
  function AsymmetricKick(ph: Physics, ps: seq<Particle>, i: int, k: int): (r: seq<Particle>)
    requires 0 <= i < |ps| && 0 <= k < |ps|
    ensures |r| == |ps|
  {
    if !Interacts(ph, ps[i], ps[k]) then ps
    else
      var f := Force(ph, ps[i], ps[k]);
      ps[i := Accelerate(ps[i], f.0, f.1)]
  }

  // ---------------------------------------------------------------------
  // The force law

  /** The squared distance does not depend on the order of the pair. */
  lemma Dist2Symmetric(p: Particle, q: Particle)
    ensures Dist2(p, q) == Dist2(q, p)
  {
    assert (p.x - q.x) * (p.x - q.x) == (q.x - p.x) * (q.x - p.x);
    assert (p.y - q.y) * (p.y - q.y) == (q.y - p.y) * (q.y - p.y);
  }

  /** Newton's third law for the kernel: q receives from p exactly the negation of what p receives from q. */
  lemma ForceAntisymmetric(ph: Physics, p: Particle, q: Particle)
    ensures Interacts(ph, p, q) <==> Interacts(ph, q, p)
    ensures Force(ph, q, p).0 == -Force(ph, p, q).0
    ensures Force(ph, q, p).1 == -Force(ph, p, q).1
  {
    Dist2Symmetric(p, q);
    var coef := ph.law(ClampR2(ph, Dist2(p, q)));
    assert coef * (p.x - q.x) == -(coef * (q.x - p.x));
    assert coef * (p.y - q.y) == -(coef * (q.y - p.y));
  }

  /** A particle at the same position exerts exactly zero force (the clamp avoids the singularity). */
  lemma CoincidentForceZero(ph: Physics, p: Particle, q: Particle)
    requires p.x == q.x && p.y == q.y
    ensures Dist2(p, q) == 0.0
    ensures Force(ph, p, q).0 == 0.0 && Force(ph, p, q).1 == 0.0
  {
  }

  // ---------------------------------------------------------------------
  // Total acceleration

  /** Sum of the x (horizontal) or y accelerations over a sequence of particles. */
  function AccelSum(ps: seq<Particle>, horizontal: bool): real
  {
    if ps == [] then 0.0
    else (if horizontal then ps[0].ax else ps[0].ay) + AccelSum(ps[1..], horizontal)
  }

  /** Replacing one particle changes the acceleration sum by the difference of its accelerations. */
  lemma {:induction false} AccelSumUpdate(ps: seq<Particle>, i: int, p: Particle, horizontal: bool)
    requires 0 <= i < |ps|
    ensures AccelSum(ps[i := p], horizontal) ==
            AccelSum(ps, horizontal) - (if horizontal then ps[i].ax else ps[i].ay)
                                     + (if horizontal then p.ax else p.ay)
  {
    if i == 0 {
      assert ps[i := p][1..] == ps[1..];
    } else {
      assert ps[i := p][1..] == ps[1..][i - 1 := p];
      AccelSumUpdate(ps[1..], i - 1, p, horizontal);
    }
  }

  /** The symmetric kernel conserves the total acceleration (momentum, the mass being uniform). */
  lemma SymmetricKickConserves(ph: Physics, ps: seq<Particle>, i: int, j: int, horizontal: bool)
    requires 0 <= i < |ps| && 0 <= j < |ps|
    ensures AccelSum(SymmetricKick(ph, ps, i, j), horizontal) == AccelSum(ps, horizontal)
  {
    if Interacts(ph, ps[i], ps[j]) {
      var f := Force(ph, ps[i], ps[j]);
      var ps1 := ps[i := Accelerate(ps[i], f.0, f.1)];
      AccelSumUpdate(ps, i, Accelerate(ps[i], f.0, f.1), horizontal);
      AccelSumUpdate(ps1, j, Accelerate(ps1[j], -f.0, -f.1), horizontal);
    }
  }

  /**
   The symmetric kernel for two distinct particles: beyond the cutoff nothing
   changes; otherwise parts[i] gains the force f, parts[j] loses it (so its
   change is the exact negation of parts[i]'s), and no other particle,
   position or velocity changes.
   */
  lemma SymmetricKickEffect(ph: Physics, ps: seq<Particle>, i: int, j: int)
    requires 0 <= i < |ps| && 0 <= j < |ps| && i != j
    ensures var r := SymmetricKick(ph, ps, i, j);
      && |r| == |ps|
      && SameKinematics(r, ps)
      && (forall k :: 0 <= k < |ps| && k != i && k != j ==> r[k] == ps[k])
      && (!Interacts(ph, ps[i], ps[j]) ==> r == ps)
      && r[j].ax - ps[j].ax == -(r[i].ax - ps[i].ax)
      && r[j].ay - ps[j].ay == -(r[i].ay - ps[i].ay)
      && (Interacts(ph, ps[i], ps[j]) ==>
            && r[i].ax == ps[i].ax + Force(ph, ps[i], ps[j]).0
            && r[i].ay == ps[i].ay + Force(ph, ps[i], ps[j]).1
            && r[j].ax == ps[j].ax - Force(ph, ps[i], ps[j]).0
            && r[j].ay == ps[j].ay - Force(ph, ps[i], ps[j]).1)
  {
  }

  /** The symmetric kernel, also on a pair that is one particle, changes accelerations only. */
  lemma SymmetricKickKinematics(ph: Physics, ps: seq<Particle>, i: int, j: int)
    requires 0 <= i < |ps| && 0 <= j < |ps|
    ensures SameKinematics(SymmetricKick(ph, ps, i, j), ps)
  {
  }

  /** The asymmetric kernel changes only the acceleration of its subject, and only within the cutoff. */
  lemma AsymmetricKickEffect(ph: Physics, ps: seq<Particle>, i: int, k: int)
    requires 0 <= i < |ps| && 0 <= k < |ps|
    ensures var r := AsymmetricKick(ph, ps, i, k);
      && |r| == |ps|
      && SameKinematics(r, ps)
      && (forall m :: 0 <= m < |ps| && m != i ==> r[m] == ps[m])
      && (!Interacts(ph, ps[i], ps[k]) ==> r == ps)
      && (Interacts(ph, ps[i], ps[k]) ==>
            r[i].ax == ps[i].ax + Force(ph, ps[i], ps[k]).0 &&
            r[i].ay == ps[i].ay + Force(ph, ps[i], ps[k]).1)
  {
  }

  /** The self-call `apply_force(parts[i], parts[i])` of the 3x3 scan adds exactly zero. */
  lemma SelfKickNoOp(ph: Physics, ps: seq<Particle>, i: int)
    requires 0 <= i < |ps|
    ensures AsymmetricKick(ph, ps, i, i) == ps
  {
    CoincidentForceZero(ph, ps[i], ps[i]);
    if Interacts(ph, ps[i], ps[i]) {
      assert Accelerate(ps[i], 0.0, 0.0) == ps[i];
    }
  }

  // ---------------------------------------------------------------------
  // The kernel as it runs on the particle array

  /** Symmetric `apply_force(parts[i], parts[j])` (openmp_v3, serial_optimized_v2). */
  method ApplySymmetricForce(ph: Physics, parts: array<Particle>, i: int, j: int)
    requires 0 <= i < parts.Length && 0 <= j < parts.Length
    modifies parts
    ensures parts[..] == SymmetricKick(ph, old(parts[..]), i, j)
    ensures !Interacts(ph, old(parts[i]), old(parts[j])) ==> parts[..] == old(parts[..])
  {
    var p1, p2 := parts[i], parts[j];
    if Dist2(p1, p2) > ph.cutoff * ph.cutoff {
      return;
    }
    var f := Force(ph, p1, p2);
    var fx, fy := f.0, f.1;
    ghost var ps := parts[..];
    parts[i] := parts[i].(ax := parts[i].ax + fx, ay := parts[i].ay + fy);
    ghost var ps1 := parts[..];
    assert ps1 == ps[i := Accelerate(ps[i], fx, fy)];
    parts[j] := parts[j].(ax := parts[j].ax - fx, ay := parts[j].ay - fy);
    assert parts[..] == ps1[j := Accelerate(ps1[j], -fx, -fy)];
  }

  /** Asymmetric `apply_force(parts[i], parts[k])` (serial_optimized, openmp_critical). */
  method ApplyAsymmetricForce(ph: Physics, parts: array<Particle>, i: int, k: int)
    requires 0 <= i < parts.Length && 0 <= k < parts.Length
    modifies parts
    ensures parts[..] == AsymmetricKick(ph, old(parts[..]), i, k)
    ensures !Interacts(ph, old(parts[i]), old(parts[k])) ==> parts[..] == old(parts[..])
  {
    var p, q := parts[i], parts[k];
    if Dist2(p, q) > ph.cutoff * ph.cutoff {
      return;
    }
    var f := Force(ph, p, q);
    ghost var ps := parts[..];
    parts[i] := parts[i].(ax := parts[i].ax + f.0, ay := parts[i].ay + f.1);
    assert parts[..] == ps[i := Accelerate(ps[i], f.0, f.1)];
  }
}

/**
 `move`: the semi-implicit Euler step (velocity from acceleration, then
 position from velocity) followed by the two wall-reflection loops, which
 mirror a coordinate about the wall it has crossed and negate the matching
 velocity component until the coordinate is back in [0, size].
 */
module Integrator {
  import opened Particles
  import opened RealArith

  /** How far x lies outside [0, size] (zero inside). */
  function Excess(x: real, size: real): (e: real)
    ensures e >= 0.0
    ensures e == 0.0 <==> 0.0 <= x <= size
  {
    if x < 0.0 then -x else if x > size then x - size else 0.0
  }

  /** Termination measure of the reflection loop: zero inside, otherwise the wall crossings still to undo. */
  function Rounds(x: real, size: real): nat
    requires size > 0.0
  {
    if 0.0 <= x <= size then 0 else (Excess(x, size) / size).Floor + 1
  }

  /** One iteration of the loop: `x < 0 ? -x : 2 * size - x`. */
  function Mirror(x: real, size: real): real
  {
    if x < 0.0 then -x else 2.0 * size - x
  }

  /** Each reflection of an outside coordinate removes one `size` from its excess, so the loop terminates. */
  lemma MirrorShrinksRounds(x: real, size: real)
    requires size > 0.0 && (x < 0.0 || x > size)
    ensures Rounds(Mirror(x, size), size) < Rounds(x, size)
  {
    var x' := Mirror(x, size);
    var e := Excess(x, size);
    if !(0.0 <= x' <= size) {
      assert Excess(x', size) == e - size;
      DivShift(e, size);
      assert (e / size - 1.0).Floor == (e / size).Floor - 1;
    }
  }

  /** The reflection loop as a function: the coordinate and velocity component it leaves. */
  function Reflect(x: real, v: real, size: real): (real, real)
    requires size > 0.0
    decreases Rounds(x, size)
  {
    if 0.0 <= x <= size then (x, v)
    else
      MirrorShrinksRounds(x, size);
      Reflect(Mirror(x, size), -v, size)
  }

  /** k times w, built by repeated addition so that the solver reasons about it linearly. */
  function Multiple(k: int, w: real): real
    decreases if k >= 0 then k else -k
  {
    if k == 0 then 0.0 else if k > 0 then Multiple(k - 1, w) + w else Multiple(k + 1, w) - w
  }

  lemma MultipleStep(k: int, w: real)
    ensures Multiple(k + 1, w) == Multiple(k, w) + w
  {
  }

  /** Multiple is the product k * w. */
  lemma {:induction false} MultipleIsProduct(k: int, w: real)
    ensures Multiple(k, w) == k as real * w
    decreases if k >= 0 then k else -k
  {
    if k > 0 {
      MultipleIsProduct(k - 1, w);
      assert (k - 1) as real * w + w == k as real * w;
    } else if k < 0 {
      MultipleIsProduct(k + 1, w);
      assert (k + 1) as real * w - w == k as real * w;
    }
  }

  lemma {:induction false} MultipleAdd(a: int, b: int, w: real)
    ensures Multiple(a + b, w) == Multiple(a, w) + Multiple(b, w)
    decreases if b >= 0 then b else -b
  {
    if b > 0 {
      MultipleAdd(a, b - 1, w);
      MultipleStep(a + b - 1, w);
      MultipleStep(b - 1, w);
    } else if b < 0 {
      MultipleAdd(a, b + 1, w);
      MultipleStep(a + b, w);
      MultipleStep(b, w);
    }
  }

  /** A non-zero multiple of a positive w is at least w away from zero. */
  lemma {:induction false} MultipleBound(k: int, w: real)
    requires w > 0.0
    ensures k >= 1 ==> Multiple(k, w) >= w
    ensures k <= -1 ==> Multiple(k, w) <= -w
    decreases if k >= 0 then k else -k
  {
    if k > 1 {
      MultipleBound(k - 1, w);
    } else if k < -1 {
      MultipleBound(k + 1, w);
    }
  }

  /**
   The images of x under the reflection group of the walls at 0 and size:
   `x + 2 k size` (even number of reflections) and `2 k size - x` (odd).
   */
  function Image(x: real, k: int, flipped: bool, size: real): real
  {
    (if flipped then -x else x) + Multiple(k, 2.0 * size)
  }

  /** x' is an image of x, and v' is v negated exactly when the image is odd. */
  ghost predicate MirrorImageOf(x': real, v': real, x: real, v: real, size: real)
  {
    exists k: int, flipped: bool ::
      x' == Image(x, k, flipped, size) && v' == (if flipped then -v else v)
  }

  /** The reflection loop always ends inside the domain. */
  lemma {:induction false} ReflectInDomain(x: real, v: real, size: real)
    requires size > 0.0
    ensures 0.0 <= Reflect(x, v, size).0 <= size
    decreases Rounds(x, size)
  {
    if !(0.0 <= x <= size) {
      MirrorShrinksRounds(x, size);
      ReflectInDomain(Mirror(x, size), -v, size);
    }
  }

  /** What the loop leaves is a mirror image of the start, with the velocity flipped once per reflection. */
  lemma {:induction false} ReflectIsImage(x: real, v: real, size: real) returns (k: int, flipped: bool)
    requires size > 0.0
    ensures Reflect(x, v, size).0 == Image(x, k, flipped, size)
    ensures Reflect(x, v, size).1 == (if flipped then -v else v)
    decreases Rounds(x, size)
  {
    if 0.0 <= x <= size {
      k, flipped := 0, false;
    } else {
      MirrorShrinksRounds(x, size);
      var k', f' := ReflectIsImage(Mirror(x, size), -v, size);
      flipped := !f';
      if x < 0.0 {
        k := k';
      } else if f' {
        k := k' - 1;
        MultipleStep(k, 2.0 * size);
      } else {
        k := k' + 1;
        MultipleStep(k', 2.0 * size);
      }
    }
  }

  /**
   At most one point of [0, size] is a mirror image of x: together with
   ReflectInDomain and ReflectIsImage this determines the loop's final coordinate.
   */
  lemma ImageInDomainUnique(x: real, size: real, k1: int, f1: bool, k2: int, f2: bool)
    requires size > 0.0
    requires 0.0 <= Image(x, k1, f1, size) <= size
    requires 0.0 <= Image(x, k2, f2, size) <= size
    ensures Image(x, k1, f1, size) == Image(x, k2, f2, size)
  {
    var w := 2.0 * size;
    if f1 == f2 {
      // the images differ by the multiple (k1 - k2) of 2 size, so it is zero
      MultipleAdd(k1 - k2, k2, w);
      MultipleBound(k1 - k2, w);
    } else {
      // the images add up to the multiple (k1 + k2) of 2 size, so both are 0 or both are size
      MultipleAdd(k1, k2, w);
      MultipleAdd(k1 + k2 - 1, 1, w);
      MultipleBound(k1 + k2 - 1, w);
      MultipleBound(k1 + k2, w);
      MultipleStep(0, w);
    }
  }

  /** A coordinate already inside is left alone: the loop body never runs. */
  lemma ReflectInside(x: real, v: real, size: real)
    requires size > 0.0 && 0.0 <= x <= size
    ensures Reflect(x, v, size) == (x, v)
  {
  }

  /** A coordinate just past the far wall comes back as `2 size - x` with the velocity negated. */
  lemma ReflectPastFarWall(x: real, v: real, size: real)
    requires size > 0.0 && size < x <= 2.0 * size
    ensures Reflect(x, v, size) == (2.0 * size - x, -v)
  {
    assert Mirror(x, size) == 2.0 * size - x;
  }

  /** A coordinate that crossed the domain twice needs two reflections and keeps its velocity. */
  lemma ReflectTwoWidths(x: real, v: real, size: real)
    requires size > 0.0 && 2.0 * size < x <= 3.0 * size
    ensures Reflect(x, v, size) == (x - 2.0 * size, v)
  {
    assert Reflect(x, v, size) == Reflect(2.0 * size - x, -v, size);
    assert Reflect(2.0 * size - x, -v, size) == Reflect(x - 2.0 * size, v, size);
  }

  /** The wall loop `while (x < 0 || x > size) { x = ...; v = -v; }`. */
  method Bounce(x0: real, v0: real, size: real) returns (x: real, v: real)
    requires size > 0.0
    ensures (x, v) == Reflect(x0, v0, size)
    ensures 0.0 <= x <= size
    ensures MirrorImageOf(x, v, x0, v0, size)
  {
    x, v := x0, v0;
    while x < 0.0 || x > size
      invariant Reflect(x, v, size) == Reflect(x0, v0, size)
      decreases Rounds(x, size)
    {
      MirrorShrinksRounds(x, size);
      x := if x < 0.0 then -x else 2.0 * size - x;
      v := -v;
    }
    var k, flipped := ReflectIsImage(x0, v0, size);
    assert x == Image(x0, k, flipped, size);
  }

  /** The semi-implicit Euler step of `move`: velocity from acceleration, then position from the new velocity. */
  function Drift(ph: Physics, p: Particle): Particle
  {
    var vx := p.vx + p.ax * ph.dt;
    var vy := p.vy + p.ay * ph.dt;
    Particle(p.x + vx * ph.dt, p.y + vy * ph.dt, vx, vy, p.ax, p.ay)
  }

  /** The particle after `move`: the Euler step, then the reflection of x and of y. */
  function Moved(ph: Physics, p: Particle, size: real): Particle
    requires size > 0.0
  {
    var q := Drift(ph, p);
    var rx := Reflect(q.x, q.vx, size);
    var ry := Reflect(q.y, q.vy, size);
    Particle(rx.0, ry.0, rx.1, ry.1, q.ax, q.ay)
  }

  /** `move` always leaves the particle in the domain and does not touch its acceleration. */
  lemma MovedInDomain(ph: Physics, p: Particle, size: real)
    requires size > 0.0
    ensures InDomain(Moved(ph, p, size), size)
    ensures Moved(ph, p, size).ax == p.ax && Moved(ph, p, size).ay == p.ay
  {
    var q := Drift(ph, p);
    ReflectInDomain(q.x, q.vx, size);
    ReflectInDomain(q.y, q.vy, size);
  }

  /** `move(parts[i], size)`. */
  method Move(ph: Physics, parts: array<Particle>, i: int, size: real)
    requires 0 <= i < parts.Length && size > 0.0
    modifies parts
    ensures parts[..] == old(parts[..])[i := Moved(ph, old(parts[i]), size)]
    ensures InDomain(parts[i], size)
  {
    var p := parts[i];
    var q := Drift(ph, p);
    var x, vx := Bounce(q.x, q.vx, size);
    var y, vy := Bounce(q.y, q.vy, size);
    parts[i] := Particle(x, y, vx, vy, p.ax, p.ay);
  }

  /** The final loop of `simulate_one_step`: `move` every particle. */
  method MoveAll(ph: Physics, parts: array<Particle>, size: real)
    requires size > 0.0
    modifies parts
    ensures parts[..] == MovedAll(ph, old(parts[..]), size)
    ensures AllInDomain(parts[..], size)
  {
    for i := 0 to parts.Length
      invariant forall k :: 0 <= k < i ==> parts[k] == Moved(ph, old(parts[k]), size)
      invariant forall k :: i <= k < parts.Length ==> parts[k] == old(parts[k])
      invariant forall k :: 0 <= k < i ==> InDomain(parts[k], size)
    {
      Move(ph, parts, i, size);
    }
  }

  /** Every particle after `move`: the "Move particles" loop. */
  function MovedAll(ph: Physics, ps: seq<Particle>, size: real): seq<Particle>
    requires size > 0.0
  {
    seq(|ps|, k requires 0 <= k < |ps| => Moved(ph, ps[k], size))
  }
}

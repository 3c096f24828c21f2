/**
 The accelerations the half-neighbourhood force phase computes. Along a run
 of slot pairs, particle i collects one pull from the other particle of every
 kick that names i and one other particle. With the cells holding exactly
 their particles, the visited slot pairs name every interacting pair once,
 so each particle ends with the brute-force sum of the forces of all
 particles within the cutoff: the same acceleration the 3x3 scan computes.
 */
module HalfForces {
  import opened Particles
  import opened Forces
  import opened Geometry
  import opened Cells
  import opened Binning
  import opened HalfTraversal
  import opened FixedCoverage
  import opened Scan

  /** The x (horizontal) or y acceleration of a particle. */
  function Accel(p: Particle, horizontal: bool): real
  {
    if horizontal then p.ax else p.ay
  }

  /** The particle that a kick on (a, b) pulls particle i towards: the other one, when i is exactly one of a and b. */
  function Other(a: int, b: int, i: int): seq<int>
  {
    if a == i && b != i then [b] else if b == i && a != i then [a] else []
  }

  /** The other particle of slot pair s for particle i, when s resolves and names i and another particle. */
  function SlotOther(cs: seq<Cell>, n: int, i: int, s: SlotPair): seq<int>
  {
    if Resolvable(cs, n, s) then Other(cs[s.c1].particles[s.k1], cs[s.c2].particles[s.k2], i) else []
  }

  /** The partners of particle i along a run of slot pairs, one per kick that pulls i, in order. */
  function SlotPartners(cs: seq<Cell>, n: int, i: int, slots: seq<SlotPair>): seq<int>
    decreases |slots|
  {
    if slots == [] then []
    else SlotPartners(cs, n, i, slots[..|slots| - 1]) + SlotOther(cs, n, i, slots[|slots| - 1])
  }

  /** Summing the force over two lists in turn is summing it over their concatenation. */
  lemma {:induction false} ForceSumAppend(ph: Physics, ps: seq<Particle>, i: int, xs: seq<int>, ys: seq<int>, horizontal: bool)
    ensures ForceSum(ph, ps, i, xs + ys, horizontal) == ForceSum(ph, ps, i, xs, horizontal) + ForceSum(ph, ps, i, ys, horizontal)
    decreases |ys|
  {
    if ys == [] {
      assert xs + ys == xs;
    } else {
      var init := ys[..|ys| - 1];
      assert (xs + ys)[..|xs + ys| - 1] == xs + init;
      ForceSumAppend(ph, ps, i, xs, init, horizontal);
    }
  }

  /**
   One symmetric kick on (a, b) adds to particle i the pull of the other
   particle when i is exactly one of a and b, and nothing otherwise: a gains
   the force of b, b the force of a (Newton's third law makes it the negation),
   and a kick of a particle with itself adds f and takes it away again.
   */
  lemma SymmetricKickShare(ph: Physics, ps: seq<Particle>, a: int, b: int, i: int, horizontal: bool)
    requires 0 <= a < |ps| && 0 <= b < |ps| && 0 <= i < |ps|
    ensures Accel(SymmetricKick(ph, ps, a, b)[i], horizontal) ==
            Accel(ps[i], horizontal) + ForceSum(ph, ps, i, Other(a, b, i), horizontal)
  {
    ForceAntisymmetric(ph, ps[a], ps[b]);
    if a != b {
      SymmetricKickEffect(ph, ps, a, b);
    }
    var o := Other(a, b, i);
    if o != [] {
      assert o[..0] == [];
    }
  }

  /**
   Along any run of slot pairs, the acceleration of particle i grows by the
   summed force of its slot partners, the positions being those of the start.
   */
  lemma {:induction false} SlotKicksShare(ph: Physics, ps: seq<Particle>, cs: seq<Cell>, slots: seq<SlotPair>, i: int, horizontal: bool)
    requires 0 <= i < |ps|
    ensures Accel(SlotKicks(ph, ps, cs, slots)[i], horizontal) ==
            Accel(ps[i], horizontal) + ForceSum(ph, ps, i, SlotPartners(cs, |ps|, i, slots), horizontal)
    decreases |slots|
  {
    if slots != [] {
      var init := slots[..|slots| - 1];
      var s := slots[|slots| - 1];
      SlotKicksShare(ph, ps, cs, init, i, horizontal);
      var before := SlotKicks(ph, ps, cs, init);
      var pre := SlotPartners(cs, |ps|, i, init);
      if Resolvable(cs, |ps|, s) {
        var a, b := cs[s.c1].particles[s.k1], cs[s.c2].particles[s.k2];
        SymmetricKickShare(ph, before, a, b, i, horizontal);
        SlotKicksKinematics(ph, ps, cs, init);
        ForceSumPositions(ph, before, ps, i, Other(a, b, i), horizontal);
        ForceSumAppend(ph, ps, i, pre, Other(a, b, i), horizontal);
      } else {
        assert SlotKicks(ph, ps, cs, slots) == before;
        assert SlotPartners(cs, |ps|, i, slots) == pre + [] == pre;
      }
    }
  }

  /** A live slot pair: both slots lie in the live prefix of valid cells. */
  predicate Live(cs: seq<Cell>, s: SlotPair)
  {
    0 <= s.c1 < |cs| && 0 <= s.k1 < cs[s.c1].size && 0 <= s.c2 < |cs| && 0 <= s.k2 < cs[s.c2].size
  }

  /**
   With exact cells, a live slot pair pulls particle i towards another
   particle k exactly when it is the slot pair of i and k in one of its two
   orders.
   */
  lemma SlotOtherCount(cs: seq<Cell>, ps: seq<Particle>, cellSize: real, nx: int, s: SlotPair, i: int, k: int)
    requires cellSize > 0.0 && CellsOk(cs) && Exact(cs, ps, cellSize, nx)
    requires 0 <= i < |ps| && 0 <= k < |ps| && i != k
    requires 0 <= CellOf(ps[i], cellSize, nx) < |cs| && 0 <= CellOf(ps[k], cellSize, nx) < |cs|
    requires Live(cs, s)
    ensures var ci, ck := CellOf(ps[i], cellSize, nx), CellOf(ps[k], cellSize, nx);
      var ki, kk := SlotIndex(cs, ps, cellSize, nx, i), SlotIndex(cs, ps, cellSize, nx, k);
      multiset(SlotOther(cs, |ps|, i, s))[k] ==
        (if s == SlotPair(ci, ki, ck, kk) then 1 else 0) + (if s == SlotPair(ck, kk, ci, ki) then 1 else 0)
  {
    var a, b := cs[s.c1].particles[s.k1], cs[s.c2].particles[s.k2];
    SlotUnique(cs, ps, cellSize, nx, a, s.c1, s.k1);
    SlotUnique(cs, ps, cellSize, nx, b, s.c2, s.k2);
    assert Resolvable(cs, |ps|, s);
  }

  /**
   With exact cells, along live slot pairs, particle i is pulled towards
   another particle k as often as the slot pair of i and k is visited, in
   either order.
   */
  lemma {:induction false} SlotPartnersCount(cs: seq<Cell>, ps: seq<Particle>, cellSize: real, nx: int,
                                             slots: seq<SlotPair>, i: int, k: int)
    requires cellSize > 0.0 && CellsOk(cs) && Exact(cs, ps, cellSize, nx)
    requires 0 <= i < |ps| && 0 <= k < |ps| && i != k
    requires 0 <= CellOf(ps[i], cellSize, nx) < |cs| && 0 <= CellOf(ps[k], cellSize, nx) < |cs|
    requires forall s :: s in slots ==> Live(cs, s)
    ensures var ci, ck := CellOf(ps[i], cellSize, nx), CellOf(ps[k], cellSize, nx);
      var ki, kk := SlotIndex(cs, ps, cellSize, nx, i), SlotIndex(cs, ps, cellSize, nx, k);
      multiset(SlotPartners(cs, |ps|, i, slots))[k] ==
        multiset(slots)[SlotPair(ci, ki, ck, kk)] + multiset(slots)[SlotPair(ck, kk, ci, ki)]
    decreases |slots|
  {
    if slots != [] {
      var init, s := slots[..|slots| - 1], slots[|slots| - 1];
      assert slots == init + [s];
      assert multiset(slots) == multiset(init) + multiset{s};
      assert s in slots && forall t :: t in init ==> t in slots;
      SlotPartnersCount(cs, ps, cellSize, nx, init, i, k);
      SlotOtherCount(cs, ps, cellSize, nx, s, i, k);
      var pre, one := SlotPartners(cs, |ps|, i, init), SlotOther(cs, |ps|, i, s);
      assert multiset(pre + one) == multiset(pre) + multiset(one);
    }
  }

  /**
   The half-neighbourhood force phase computes the exact force: in the
   domain, with cell side at least the cutoff, the built lists and no
   particle dropped, every particle ends the phase, from zeroed
   accelerations, with the brute-force sum of the forces of all particles.
   */
  lemma HalfForcesExact(ph: Physics, cs: seq<Cell>, nbrs: seq<seq<int>>, ps: seq<Particle>,
                        size: real, cellSize: real, i: int, horizontal: bool)
    requires 0.0 < ph.cutoff <= cellSize && size >= 0.0 && AllInDomain(ps, size)
    requires var n := GridDim(size, cellSize);
      && HalfLists(nbrs, n, n) && |cs| == CellCount(n, n) && CellsOk(cs) && Exact(cs, ps, cellSize, n)
    requires 0 <= i < |ps|
    ensures NeighborsOk(cs, nbrs)
    ensures Accel(SlotKicks(ph, ZeroAll(ps), cs, StepSlots(cs, nbrs, |cs|))[i], horizontal) ==
            BruteForce(ph, ps, i, |ps|, horizontal)
  {
    var n := GridDim(size, cellSize);
    HalfStepSlots(cs, nbrs, n, n);
    var S := StepSlots(cs, nbrs, |cs|);
    var z := ZeroAll(ps);
    var ks := SlotPartners(cs, |ps|, i, S);
    SlotKicksShare(ph, z, cs, S, i, horizontal);
    assert SameKinematics(z, ps);
    ForceSumPositions(ph, z, ps, i, ks, horizontal);
    forall k | 0 <= k < |ps| && k != i && Interacts(ph, ps[i], ps[k]) ensures multiset(ks)[k] == 1 {
      InteractingPairOnce(ph, cs, nbrs, ps, size, cellSize, i, k);
      SlotPartnersCount(cs, ps, cellSize, n, S, i, k);
    }
    ForceSumCounts(ph, ps, i, ks, horizontal);
    CountSumBrute(ph, ps, i, ks, |ps|, horizontal);
  }

  /**
   The same for the cells the fixed grid fills: when no cell receives more
   particles than it holds, the force phase leaves every particle with its
   brute-force acceleration on both axes.
   */
  lemma ForcePhaseExact(ph: Physics, cs: seq<Cell>, nbrs: seq<seq<int>>, ps: seq<Particle>,
                        size: real, cellSize: real, cap: nat)
    requires 0.0 < ph.cutoff <= cellSize && size >= 0.0 && AllInDomain(ps, size)
    requires var n := GridDim(size, cellSize);
      && HalfLists(nbrs, n, n) && |cs| == CellCount(n, n) && CellsOk(cs)
      && (forall c :: 0 <= c < |cs| ==> Members(cs[c]) == Clip(Bucket(ps, cellSize, n, c, |ps|), cap))
      && (forall c :: 0 <= c < |cs| ==> |Bucket(ps, cellSize, n, c, |ps|)| <= cap)
    ensures NeighborsOk(cs, nbrs)
    ensures var r := SlotKicks(ph, ZeroAll(ps), cs, StepSlots(cs, nbrs, |cs|));
      forall i :: 0 <= i < |ps| ==>
        r[i].ax == BruteForce(ph, ps, i, |ps|, true) && r[i].ay == BruteForce(ph, ps, i, |ps|, false)
  {
    var n := GridDim(size, cellSize);
    NoOverflowExact(cs, ps, cellSize, n, cap);
    HalfListsOk(cs, nbrs, n, n);
    forall i | 0 <= i < |ps|
      ensures SlotKicks(ph, ZeroAll(ps), cs, StepSlots(cs, nbrs, |cs|))[i].ax == BruteForce(ph, ps, i, |ps|, true)
      ensures SlotKicks(ph, ZeroAll(ps), cs, StepSlots(cs, nbrs, |cs|))[i].ay == BruteForce(ph, ps, i, |ps|, false)
    {
      HalfForcesExact(ph, cs, nbrs, ps, size, cellSize, i, true);
      HalfForcesExact(ph, cs, nbrs, ps, size, cellSize, i, false);
    }
  }
}

/**
 The force phase of the half-neighbourhood variants as a sequence of slot
 pairs. A slot is (cell, index into the cell's live prefix); for every cell i
 and every j of i's neighbour list, the loops visit the slot pairs
 ((i, idx1), (j, idx2)) with idx1 < size(i) and idx2 < size(j), where idx2
 starts after idx1 when j == i and at 0 otherwise. The symmetric kernel is
 applied pair by pair in that order.
 */
module HalfTraversal {
  import opened Particles
  import opened Forces
  import opened Geometry
  import opened Cells
  import opened SeqFacts
  import opened Neighbors

  /** One `apply_force(parts[c1.particles[k1]], parts[c2.particles[k2]])` call, by slots. */
  datatype SlotPair = SlotPair(c1: int, k1: int, c2: int, k2: int)

  /** First idx2 of the inner loop: `idx1 + 1` in the same cell, 0 across cells. */
  function First(c1: int, k1: int, c2: int): int
  {
    if c1 == c2 then k1 + 1 else 0
  }

  /** The inner loop: idx2 from lo up to hi - 1 for a fixed idx1 = k1. */
  function Row(c1: int, k1: int, c2: int, lo: int, hi: int): seq<SlotPair>
    decreases hi - lo
  {
    if hi <= lo then [] else Row(c1, k1, c2, lo, hi - 1) + [SlotPair(c1, k1, c2, hi - 1)]
  }

  /** Both loops for cell pair (c1, c2): idx1 below m, then the inner loop up to n2. */
  function Block(c1: int, c2: int, n2: int, m: int): seq<SlotPair>
    decreases m
  {
    if m <= 0 then [] else Block(c1, c2, n2, m - 1) + Row(c1, m - 1, c2, First(c1, m - 1, c2), n2)
  }

  /** Every recorded cell is well formed. */
  predicate CellsOk(cs: seq<Cell>)
  {
    forall c :: 0 <= c < |cs| ==> WellFormed(cs[c])
  }

  /** One neighbour list per cell, each entry a valid cell index. */
  predicate NeighborsOk(cs: seq<Cell>, nbrs: seq<seq<int>>)
  {
    |nbrs| == |cs| && forall c, j :: 0 <= c < |nbrs| && j in nbrs[c] ==> 0 <= j < |cs|
  }

  /** The pairs visited for cell c1 and the first m entries of its neighbour list. */
  function Visits(cs: seq<Cell>, c1: int, list: seq<int>, m: int): seq<SlotPair>
    requires 0 <= c1 < |cs| && 0 <= m <= |list|
    requires forall j :: j in list ==> 0 <= j < |cs|
  {
    if m == 0 then []
    else
      var c2 := list[m - 1];
      assert c2 in list;
      Visits(cs, c1, list, m - 1) + Block(c1, c2, cs[c2].size, cs[c1].size)
  }

  /** The pairs visited for the cells below m: the whole force phase when m is the cell count. */
  function StepSlots(cs: seq<Cell>, nbrs: seq<seq<int>>, m: int): seq<SlotPair>
    requires NeighborsOk(cs, nbrs) && 0 <= m <= |cs|
  {
    if m == 0 then [] else StepSlots(cs, nbrs, m - 1) + Visits(cs, m - 1, nbrs[m - 1], |nbrs[m - 1]|)
  }

  /** One more slot at the end of a row, after an earlier prefix of the visiting order. */
  lemma RowSnoc(prior: seq<SlotPair>, c1: int, k1: int, c2: int, lo: int, k2: int)
    requires lo <= k2
    ensures prior + Row(c1, k1, c2, lo, k2 + 1) == (prior + Row(c1, k1, c2, lo, k2)) + [SlotPair(c1, k1, c2, k2)]
  {
    assert Row(c1, k1, c2, lo, k2 + 1) == Row(c1, k1, c2, lo, k2) + [SlotPair(c1, k1, c2, k2)];
  }

  /** One more list entry of a cell, after an earlier prefix of the visiting order. */
  lemma VisitsSnoc(prior: seq<SlotPair>, cs: seq<Cell>, c1: int, list: seq<int>, m: int)
    requires 0 <= c1 < |cs| && 0 <= m < |list| && forall j :: j in list ==> 0 <= j < |cs|
    requires 0 <= list[m] < |cs|
    ensures prior + Visits(cs, c1, list, m + 1) ==
            (prior + Visits(cs, c1, list, m)) + Block(c1, list[m], cs[list[m]].size, cs[c1].size)
  {
  }

  // ---------------------------------------------------------------------
  // Which pairs are visited, and that none is visited twice

  lemma {:induction false} RowSpec(c1: int, k1: int, c2: int, lo: int, hi: int)
    ensures Distinct(Row(c1, k1, c2, lo, hi))
    ensures forall s :: s in Row(c1, k1, c2, lo, hi) <==> s.c1 == c1 && s.k1 == k1 && s.c2 == c2 && lo <= s.k2 < hi
    decreases hi - lo
  {
    if hi > lo {
      RowSpec(c1, k1, c2, lo, hi - 1);
      DistinctConcat(Row(c1, k1, c2, lo, hi - 1), [SlotPair(c1, k1, c2, hi - 1)]);
    }
  }

  lemma {:induction false} BlockSpec(c1: int, c2: int, n2: int, m: int)
    ensures Distinct(Block(c1, c2, n2, m))
    ensures forall s :: s in Block(c1, c2, n2, m) <==>
      s.c1 == c1 && s.c2 == c2 && 0 <= s.k1 < m && First(c1, s.k1, c2) <= s.k2 < n2
    decreases m
  {
    if m > 0 {
      BlockSpec(c1, c2, n2, m - 1);
      RowSpec(c1, m - 1, c2, First(c1, m - 1, c2), n2);
      DistinctConcat(Block(c1, c2, n2, m - 1), Row(c1, m - 1, c2, First(c1, m - 1, c2), n2));
    }
  }

  lemma {:induction false} VisitsSpec(cs: seq<Cell>, c1: int, list: seq<int>, m: int)
    requires 0 <= c1 < |cs| && 0 <= m <= |list|
    requires forall j :: j in list ==> 0 <= j < |cs|
    requires Distinct(list)
    ensures Distinct(Visits(cs, c1, list, m))
    ensures forall s :: s in Visits(cs, c1, list, m) <==>
      && s.c1 == c1 && s.c2 in list[..m] && 0 <= s.c2 < |cs|
      && 0 <= s.k1 < cs[c1].size && First(c1, s.k1, s.c2) <= s.k2 < cs[s.c2].size
  {
    if m > 0 {
      VisitsSpec(cs, c1, list, m - 1);
      var c2 := list[m - 1];
      assert c2 in list;
      BlockSpec(c1, c2, cs[c2].size, cs[c1].size);
      assert list[..m] == list[..m - 1] + [c2];
      assert c2 !in list[..m - 1] by {
        forall a | 0 <= a < m - 1 ensures list[a] != c2 { }
      }
      DistinctConcat(Visits(cs, c1, list, m - 1), Block(c1, c2, cs[c2].size, cs[c1].size));
    }
  }

  lemma {:induction false} StepSlotsSpec(cs: seq<Cell>, nbrs: seq<seq<int>>, m: int)
    requires NeighborsOk(cs, nbrs) && 0 <= m <= |cs|
    requires forall c :: 0 <= c < |nbrs| ==> Distinct(nbrs[c])
    ensures Distinct(StepSlots(cs, nbrs, m))
    ensures forall s :: s in StepSlots(cs, nbrs, m) <==>
      && 0 <= s.c1 < m && s.c2 in nbrs[s.c1]
      && 0 <= s.k1 < cs[s.c1].size && First(s.c1, s.k1, s.c2) <= s.k2 < cs[s.c2].size
  {
    if m > 0 {
      StepSlotsSpec(cs, nbrs, m - 1);
      var list := nbrs[m - 1];
      VisitsSpec(cs, m - 1, list, |list|);
      assert list[..|list|] == list;
      DistinctConcat(StepSlots(cs, nbrs, m - 1), Visits(cs, m - 1, list, |list|));
    }
  }

  /** The neighbour lists that `init_simulation` builds for an nx-by-ny grid. */
  predicate HalfLists(nbrs: seq<seq<int>>, nx: int, ny: int)
    requires nx > 0
  {
    |nbrs| == CellCount(nx, ny) && forall c :: 0 <= c < |nbrs| ==> nbrs[c] == HalfList(nx, ny, c)
  }

  lemma HalfListsOk(cs: seq<Cell>, nbrs: seq<seq<int>>, nx: int, ny: int)
    requires nx > 0 && HalfLists(nbrs, nx, ny) && |cs| == CellCount(nx, ny)
    ensures NeighborsOk(cs, nbrs)
    ensures forall c :: 0 <= c < |nbrs| ==> Distinct(nbrs[c])
  {
    forall c, j | 0 <= c < |nbrs| && j in nbrs[c] ensures 0 <= j < |cs| {
      HalfListInGrid(nx, ny, c, j);
    }
    forall c | 0 <= c < |nbrs| ensures Distinct(nbrs[c]) {
      HalfListSpec(nx, ny, c);
    }
  }

  /**
   With the half-neighbourhood lists, the force phase visits exactly the slot
   pairs of occupied slots in equal or adjacent cells c1 <= c2, the second slot
   after the first in the same cell, and none of them twice.
   */
  lemma HalfStepSlots(cs: seq<Cell>, nbrs: seq<seq<int>>, nx: int, ny: int)
    requires nx > 0 && HalfLists(nbrs, nx, ny) && |cs| == CellCount(nx, ny)
    ensures NeighborsOk(cs, nbrs)
    ensures Distinct(StepSlots(cs, nbrs, |cs|))
    ensures forall s :: s in StepSlots(cs, nbrs, |cs|) <==>
      && InHalfNeighborhood(nx, ny, s.c1, s.c2)
      && 0 <= s.k1 < cs[s.c1].size && First(s.c1, s.k1, s.c2) <= s.k2 < cs[s.c2].size
  {
    HalfListsOk(cs, nbrs, nx, ny);
    StepSlotsSpec(cs, nbrs, |cs|);
    forall s ensures s in StepSlots(cs, nbrs, |cs|) <==>
      && InHalfNeighborhood(nx, ny, s.c1, s.c2)
      && 0 <= s.k1 < cs[s.c1].size && First(s.c1, s.k1, s.c2) <= s.k2 < cs[s.c2].size
    {
      if 0 <= s.c1 < |cs| {
        HalfListSpec(nx, ny, s.c1);
      }
    }
  }

  /** No slot is ever paired with itself. */
  lemma NoSelfPair(cs: seq<Cell>, nbrs: seq<seq<int>>, nx: int, ny: int, c: int, k: int)
    requires nx > 0 && HalfLists(nbrs, nx, ny) && |cs| == CellCount(nx, ny)
    ensures NeighborsOk(cs, nbrs)
    ensures SlotPair(c, k, c, k) !in StepSlots(cs, nbrs, |cs|)
  {
    HalfStepSlots(cs, nbrs, nx, ny);
  }

  /**
   Each unordered pair of distinct occupied slots in equal or adjacent cells
   is visited exactly once, in exactly one of its two orders.
   */
  lemma EachSlotPairOnce(cs: seq<Cell>, nbrs: seq<seq<int>>, nx: int, ny: int, a: int, ka: int, b: int, kb: int)
    requires nx > 0 && HalfLists(nbrs, nx, ny) && |cs| == CellCount(nx, ny)
    requires SameOrAdjacent(nx, ny, a, b) && (a, ka) != (b, kb)
    requires 0 <= ka < cs[a].size && 0 <= kb < cs[b].size
    ensures NeighborsOk(cs, nbrs)
    ensures var steps := multiset(StepSlots(cs, nbrs, |cs|));
      steps[SlotPair(a, ka, b, kb)] + steps[SlotPair(b, kb, a, ka)] == 1
  {
    HalfStepSlots(cs, nbrs, nx, ny);
    var S := StepSlots(cs, nbrs, |cs|);
    var p, q := SlotPair(a, ka, b, kb), SlotPair(b, kb, a, ka);
    DistinctOccursOnce(S, p);
    DistinctOccursOnce(S, q);
    if a < b || (a == b && ka < kb) {
      assert p in S;
      assert q !in S;
    } else {
      assert q in S;
      assert p !in S;
    }
  }

  // ---------------------------------------------------------------------
  // Applying the kernel along the visited pairs

  /** The slot pair names two recorded slots whose particle indices are below n. */
  predicate Resolvable(cs: seq<Cell>, n: int, s: SlotPair)
  {
    && 0 <= s.c1 < |cs| && 0 <= s.k1 < |cs[s.c1].particles|
    && 0 <= s.c2 < |cs| && 0 <= s.k2 < |cs[s.c2].particles|
    && 0 <= cs[s.c1].particles[s.k1] < n && 0 <= cs[s.c2].particles[s.k2] < n
  }

  /**
   The symmetric kernel applied along the slot pairs, in order. A pair that
   does not resolve to two particle indices would leave the particles alone;
   StepSlotsResolvable shows the force phase never meets one.
   */
  function SlotKicks(ph: Physics, ps: seq<Particle>, cs: seq<Cell>, slots: seq<SlotPair>): (r: seq<Particle>)
    ensures |r| == |ps|
    decreases |slots|
  {
    if slots == [] then ps
    else
      var s := slots[|slots| - 1];
      var before := SlotKicks(ph, ps, cs, slots[..|slots| - 1]);
      if Resolvable(cs, |before|, s) then
        SymmetricKick(ph, before, cs[s.c1].particles[s.k1], cs[s.c2].particles[s.k2])
      else before
  }

  /** Applying two runs of pairs one after the other is applying their concatenation. */
  lemma {:induction false} SlotKicksAppend(ph: Physics, ps: seq<Particle>, cs: seq<Cell>, a: seq<SlotPair>, b: seq<SlotPair>)
    ensures SlotKicks(ph, ps, cs, a + b) == SlotKicks(ph, SlotKicks(ph, ps, cs, a), cs, b)
    decreases |b|
  {
    if b != [] {
      var b' := b[..|b| - 1];
      assert (a + b)[..|a + b| - 1] == a + b';
      SlotKicksAppend(ph, ps, cs, a, b');
    } else {
      assert a + b == a;
    }
  }

  /** Applying one more pair after a run of pairs. */
  lemma SlotKicksSnoc(ph: Physics, ps: seq<Particle>, cs: seq<Cell>, a: seq<SlotPair>, s: SlotPair)
    requires Resolvable(cs, |ps|, s)
    ensures var before := SlotKicks(ph, ps, cs, a);
      SlotKicks(ph, ps, cs, a + [s]) ==
      SymmetricKick(ph, before, cs[s.c1].particles[s.k1], cs[s.c2].particles[s.k2])
  {
    assert (a + [s])[..|a + [s]| - 1] == a;
  }

  /** The force phase conserves the total acceleration: every kick is symmetric. */
  lemma {:induction false} SlotKicksConserve(ph: Physics, ps: seq<Particle>, cs: seq<Cell>, slots: seq<SlotPair>, horizontal: bool)
    ensures AccelSum(SlotKicks(ph, ps, cs, slots), horizontal) == AccelSum(ps, horizontal)
    decreases |slots|
  {
    if slots != [] {
      var s := slots[|slots| - 1];
      SlotKicksConserve(ph, ps, cs, slots[..|slots| - 1], horizontal);
      var before := SlotKicks(ph, ps, cs, slots[..|slots| - 1]);
      if Resolvable(cs, |before|, s) {
        SymmetricKickConserves(ph, before, cs[s.c1].particles[s.k1], cs[s.c2].particles[s.k2], horizontal);
      }
    }
  }

  /** The force phase changes accelerations only: positions and velocities are kept. */
  lemma {:induction false} SlotKicksKinematics(ph: Physics, ps: seq<Particle>, cs: seq<Cell>, slots: seq<SlotPair>)
    ensures SameKinematics(SlotKicks(ph, ps, cs, slots), ps)
    decreases |slots|
  {
    if slots != [] {
      var s := slots[|slots| - 1];
      SlotKicksKinematics(ph, ps, cs, slots[..|slots| - 1]);
      var before := SlotKicks(ph, ps, cs, slots[..|slots| - 1]);
      if Resolvable(cs, |before|, s) {
        SymmetricKickKinematics(ph, before, cs[s.c1].particles[s.k1], cs[s.c2].particles[s.k2]);
      }
    }
  }

  /** Every slot of a visited pair is a live slot holding a particle index below n. */
  lemma StepSlotsResolvable(cs: seq<Cell>, nbrs: seq<seq<int>>, nx: int, ny: int, n: int)
    requires nx > 0 && HalfLists(nbrs, nx, ny) && |cs| == CellCount(nx, ny)
    requires CellsOk(cs) && IdsBelow(cs, n)
    ensures NeighborsOk(cs, nbrs)
    ensures forall s :: s in StepSlots(cs, nbrs, |cs|) ==> Resolvable(cs, n, s)
  {
    HalfStepSlots(cs, nbrs, nx, ny);
  }

  /** Every slot pair of the loops for (c1, c2) is resolvable when the cells' live members are below n. */
  lemma BlockResolvable(cs: seq<Cell>, c1: int, c2: int, n: int, s: SlotPair)
    requires 0 <= c1 < |cs| && 0 <= c2 < |cs| && CellsOk(cs) && IdsBelow(cs, n)
    requires s in Block(c1, c2, cs[c2].size, cs[c1].size)
    ensures Resolvable(cs, n, s)
  {
    BlockSpec(c1, c2, cs[c2].size, cs[c1].size);
  }
}

/**
 What the half-neighbourhood force phase means for particles rather than
 slots. While no cell overflows, a particle sits in exactly one live slot,
 and every pair of distinct particles within the cutoff meets in exactly one
 visited slot pair, in one of its two orders. Once a cell does overflow, the
 first particle that did not fit is in no cell at all, so none of its
 interactions are computed.
 */
module FixedCoverage {
  import opened Particles
  import opened Forces
  import opened Geometry
  import opened Cells
  import opened SeqFacts
  import opened Binning
  import opened HalfTraversal

  /** The cells hold exactly their particles: population as the fixed grid leaves it, when nothing was dropped. */
  predicate Exact(cs: seq<Cell>, ps: seq<Particle>, cellSize: real, nx: int)
    requires cellSize > 0.0 && CellsOk(cs)
  {
    forall c :: 0 <= c < |cs| ==> Members(cs[c]) == Bucket(ps, cellSize, nx, c, |ps|)
  }

  /** Without overflow, the clipped population of the fixed grid is the exact one. */
  lemma NoOverflowExact(cs: seq<Cell>, ps: seq<Particle>, cellSize: real, nx: int, cap: nat)
    requires cellSize > 0.0 && CellsOk(cs)
    requires forall c :: 0 <= c < |cs| ==> Members(cs[c]) == Clip(Bucket(ps, cellSize, nx, c, |ps|), cap)
    requires forall c :: 0 <= c < |cs| ==> |Bucket(ps, cellSize, nx, c, |ps|)| <= cap
    ensures Exact(cs, ps, cellSize, nx)
  {
  }

  /** The live slot of particle k: its cell, and its position among that cell's members. */
  function SlotIndex(cs: seq<Cell>, ps: seq<Particle>, cellSize: real, nx: int, k: int): (r: int)
    requires cellSize > 0.0 && CellsOk(cs) && Exact(cs, ps, cellSize, nx)
    requires 0 <= k < |ps| && 0 <= CellOf(ps[k], cellSize, nx) < |cs|
    ensures var c := CellOf(ps[k], cellSize, nx);
      0 <= r < cs[c].size && cs[c].particles[r] == k
  {
    var c := CellOf(ps[k], cellSize, nx);
    BucketMembers(ps, cellSize, nx, c, |ps|);
    IndexOf(Members(cs[c]), k)
  }

  /** A particle occupies no live slot other than its own. */
  lemma SlotUnique(cs: seq<Cell>, ps: seq<Particle>, cellSize: real, nx: int, k: int, c: int, j: int)
    requires cellSize > 0.0 && CellsOk(cs) && Exact(cs, ps, cellSize, nx)
    requires 0 <= c < |cs| && 0 <= j < cs[c].size && cs[c].particles[j] == k
    ensures 0 <= k < |ps| && c == CellOf(ps[k], cellSize, nx)
    ensures j == SlotIndex(cs, ps, cellSize, nx, k)
  {
    var m := Members(cs[c]);
    assert m[j] == k && k in m;
    BucketMembers(ps, cellSize, nx, c, |ps|);
    BucketIncreasing(ps, cellSize, nx, c, |ps|);
    var r := SlotIndex(cs, ps, cellSize, nx, k);
    assert m[r] == k;
  }

  /**
   Every pair of distinct particles within the cutoff is handed to the
   symmetric kernel exactly once: of the two orders of their slot pair,
   exactly one is visited, and a particle has no other slot.
   */
  lemma InteractingPairOnce(ph: Physics, cs: seq<Cell>, nbrs: seq<seq<int>>, ps: seq<Particle>,
                            size: real, cellSize: real, a: int, b: int)
    requires 0.0 < ph.cutoff <= cellSize && size >= 0.0 && AllInDomain(ps, size)
    requires var n := GridDim(size, cellSize);
      && HalfLists(nbrs, n, n) && |cs| == CellCount(n, n) && CellsOk(cs) && Exact(cs, ps, cellSize, n)
    requires 0 <= a < |ps| && 0 <= b < |ps| && a != b && Interacts(ph, ps[a], ps[b])
    ensures var n := GridDim(size, cellSize);
      var ca, cb := CellOf(ps[a], cellSize, n), CellOf(ps[b], cellSize, n);
      && 0 <= ca < |cs| && 0 <= cb < |cs|
      && NeighborsOk(cs, nbrs)
      && var ka, kb := SlotIndex(cs, ps, cellSize, n, a), SlotIndex(cs, ps, cellSize, n, b);
         var steps := multiset(StepSlots(cs, nbrs, |cs|));
         steps[SlotPair(ca, ka, cb, kb)] + steps[SlotPair(cb, kb, ca, ka)] == 1
  {
    var n := GridDim(size, cellSize);
    InteractingCellsAdjacent(ph, ps, size, cellSize, a, b);
    var ca, cb := CellOf(ps[a], cellSize, n), CellOf(ps[b], cellSize, n);
    var ka, kb := SlotIndex(cs, ps, cellSize, n, a), SlotIndex(cs, ps, cellSize, n, b);
    assert cs[ca].particles[ka] == a && cs[cb].particles[kb] == b;
    EachSlotPairOnce(cs, nbrs, n, n, ca, ka, cb, kb);
  }

  /** Two particles of the domain within the cutoff are binned into equal or adjacent cells. */
  lemma InteractingCellsAdjacent(ph: Physics, ps: seq<Particle>, size: real, cellSize: real, a: int, b: int)
    requires 0.0 < ph.cutoff <= cellSize && size >= 0.0 && AllInDomain(ps, size)
    requires 0 <= a < |ps| && 0 <= b < |ps| && Interacts(ph, ps[a], ps[b])
    ensures var n := GridDim(size, cellSize);
      SameOrAdjacent(n, n, CellOf(ps[a], cellSize, n), CellOf(ps[b], cellSize, n))
  {
    var p, q := ps[a], ps[b];
    assert InDomain(p, size) && InDomain(q, size);
    InteractingPositionsAdjacent(p.x, p.y, q.x, q.y, size, cellSize, ph.cutoff);
  }

  /**
   A fixed-capacity cell that received more than `cap` particles drops the
   first one that did not fit: it is in no cell's live members.
   */
  lemma OverflowDrops(cs: seq<Cell>, ps: seq<Particle>, cellSize: real, nx: int, cap: nat, c: int, d: int)
    requires cellSize > 0.0 && CellsOk(cs)
    requires forall e :: 0 <= e < |cs| ==> Members(cs[e]) == Clip(Bucket(ps, cellSize, nx, e, |ps|), cap)
    requires 0 <= c < |cs| && |Bucket(ps, cellSize, nx, c, |ps|)| > cap && 0 <= d < |cs|
    ensures Bucket(ps, cellSize, nx, c, |ps|)[cap] !in Members(cs[d])
  {
    var b := Bucket(ps, cellSize, nx, c, |ps|);
    var lost := b[cap];
    BucketMembers(ps, cellSize, nx, c, |ps|);
    BucketIncreasing(ps, cellSize, nx, c, |ps|);
    assert lost in b;
    if d == c {
      assert Members(cs[c]) == b[..cap];
      forall j | 0 <= j < cap ensures b[..cap][j] != lost {
        assert b[..cap][j] == b[j];
      }
    } else {
      var bd := Bucket(ps, cellSize, nx, d, |ps|);
      BucketMembers(ps, cellSize, nx, d, |ps|);
      var m := Members(cs[d]);
      assert m == bd[..|m|];
      forall j | 0 <= j < |m| ensures m[j] != lost {
        assert m[j] == bd[j] && bd[j] in bd;
      }
    }
  }
}

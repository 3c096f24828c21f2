/**
 `cell_t`: backing slots of particle indices plus a live count `size`; the
 live members of a cell are its first `size` slots. Two representations share
 this shape: a fixed array of MAX_PER_CELL slots that drops insertions into a
 full cell, and a growable vector whose slots are reused from step to step,
 appended to when the live count reaches the vector's length, and never shrunk.
 */
module Cells {

  datatype Cell = Cell(particles: seq<int>, size: int)

  /** The live count lies within the backing slots. */
  predicate WellFormed(c: Cell)
  {
    0 <= c.size <= |c.particles|
  }

  /** The particle indices currently recorded in the cell. */
  function Members(c: Cell): seq<int>
    requires WellFormed(c)
  {
    c.particles[..c.size]
  }

  /** A fixed-capacity cell: exactly `cap` slots and at most `cap` live members. */
  predicate FixedCell(c: Cell, cap: nat)
  {
    |c.particles| == cap && 0 <= c.size <= cap
  }

  /** `grid.cells[i].size = 0`: forget the members, keep the backing storage. */
  function Reset(c: Cell): (r: Cell)
    ensures WellFormed(r) && Members(r) == []
    ensures r.particles == c.particles
  {
    c.(size := 0)
  }

  /**
   Fixed-capacity `add_to_cell`: below capacity the index goes into slot
   `size` and the live count grows by one; a full cell is left unchanged.
   */
  function AddFixed(c: Cell, pid: int, cap: nat): (r: Cell)
    requires FixedCell(c, cap)
    ensures FixedCell(r, cap)
    ensures c.size < cap ==> r.size == c.size + 1 && Members(r) == Members(c) + [pid]
    ensures c.size < cap ==> forall k :: 0 <= k < cap && k != c.size ==> r.particles[k] == c.particles[k]
    ensures c.size >= cap ==> r == c
  {
    if c.size < cap then Cell(c.particles[c.size := pid], c.size + 1) else c
  }

  /**
   Growable `add_to_cell`: the index always becomes the last live member;
   the backing vector gains one slot exactly when every slot was live, and
   slots beyond the live prefix are otherwise untouched.
   */
  function AddGrowable(c: Cell, pid: int): (r: Cell)
    requires WellFormed(c)
    ensures WellFormed(r)
    ensures r.size == c.size + 1 && Members(r) == Members(c) + [pid]
    ensures |r.particles| == if c.size == |c.particles| then |c.particles| + 1 else |c.particles|
    ensures forall k :: c.size < k < |c.particles| ==> r.particles[k] == c.particles[k]
  {
    if c.size < |c.particles| then Cell(c.particles[c.size := pid], c.size + 1)
    else Cell(c.particles + [pid], c.size + 1)
  }

  /** The first `cap` elements of s (all of s when it is shorter): what a fixed cell keeps of a sequence of insertions. */
  function Clip(s: seq<int>, cap: nat): (r: seq<int>)
    ensures |r| <= cap && |r| <= |s|
    ensures |s| <= cap ==> r == s
    ensures r == s[..|r|]
  {
    if |s| <= cap then s else s[..cap]
  }

  /** Inserting into a fixed cell whose members are the clipped prefix keeps them the clipped prefix. */
  lemma AddFixedClips(c: Cell, pid: int, cap: nat, inserted: seq<int>)
    requires FixedCell(c, cap) && Members(c) == Clip(inserted, cap)
    ensures Members(AddFixed(c, pid, cap)) == Clip(inserted + [pid], cap)
  {
    if |inserted| < cap {
      assert c.size == |inserted|;
    } else {
      assert c.size == cap;
      assert (inserted + [pid])[..cap] == inserted[..cap];
    }
  }

  /** Every live member of every cell is a particle index below n. */
  predicate IdsBelow(cs: seq<Cell>, n: int)
  {
    forall c, k :: 0 <= c < |cs| && 0 <= k < cs[c].size && k < |cs[c].particles| ==> 0 <= cs[c].particles[k] < n
  }
}

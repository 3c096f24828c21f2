/**
 The grid of the half-neighbourhood variants (openmp_v3.cpp with
 MAX_PER_CELL 24, serial_optimized_v2.cpp with MAX_PER_CELL 8): fixed-capacity
 cells, the neighbour lists precomputed by `init_simulation`, and
 `simulate_one_step` as its sequence of loops (reset cells, add particles to
 cells, reset accelerations, apply forces along the half neighbourhood, move).
 The OpenMP loops of openmp_v3 run here in sequential order.
 */
module FixedGrid {
  import opened Particles
  import opened Forces
  import opened Geometry
  import opened Cells
  import opened Neighbors
  import opened Binning
  import opened HalfTraversal
  import opened Integrator
  import opened Scan
  import opened HalfForces

  /** Which of the two source files the grid stands for. */
  datatype Variant = OpenMPv3 | SerialV2

  /** `MAX_PER_CELL`. */
  function MaxPerCell(v: Variant): nat
  {
    match v
    case OpenMPv3 => 24
    case SerialV2 => 8
  }

  /**
   `grid.cell_size`: 5 cutoffs for more than 300000 particles and 2.5 otherwise
   in openmp_v3, always 2.5 in serial_optimized_v2. It is never below the
   cutoff, which is what makes a 3x3 block of cells cover the interaction range.
   */
  function CellSizeFor(v: Variant, cutoff: real, numParts: int): (cs: real)
    requires cutoff > 0.0
    ensures cs >= cutoff
    ensures v == SerialV2 || numParts <= 300000 ==> cs == 2.5 * cutoff
    ensures v == OpenMPv3 && numParts > 300000 ==> cs == 5.0 * cutoff
  {
    match v
    case OpenMPv3 => if numParts > 300000 then cutoff * 5.0 else cutoff * 2.5
    case SerialV2 => cutoff * 2.5
  }

  /** The `cy`/`cx` loops of `init_simulation` that fill `neighbors_for_cell`. */
  method BuildNeighbors(nx: int, ny: int) returns (nb: array<seq<int>>)
    requires nx > 0 && ny > 0
    ensures fresh(nb)
    ensures HalfLists(nb[..], nx, ny)
  {
    nb := new seq<int>[CellCount(nx, ny)];
    ghost var filled := 0;
    for cy := 0 to ny
      invariant filled == Mul(cy, nx)
      invariant forall c :: 0 <= c < nb.Length && c < filled ==> nb[c] == HalfList(nx, ny, c)
    {
      for cx := 0 to nx
        invariant forall c :: 0 <= c < nb.Length && c < filled + cx ==> nb[c] == HalfList(nx, ny, c)
      {
        var i := CellIndex(cx, cy, nx);
        CellIndexInRange(cx, cy, nx, ny);
        assert i == filled + cx;
        var list := CollectNeighbors(nx, ny, cx, cy);
        nb[i] := list;
      }
      filled := filled + nx;
    }
    MulIsProduct(ny, nx);
  }

  /** The "Reset accelerations" loop: `parts[i].ax = 0.0; parts[i].ay = 0.0;` for every particle. */
  method ResetAccelerations(parts: array<Particle>)
    modifies parts
    ensures parts[..] == ZeroAll(old(parts[..]))
  {
    for i := 0 to parts.Length
      invariant forall k :: 0 <= k < i ==> parts[k] == ZeroAccel(old(parts[k]))
      invariant forall k :: i <= k < parts.Length ==> parts[k] == old(parts[k])
    {
      parts[i] := parts[i].(ax := 0.0, ay := 0.0);
    }
  }

  /** After population every live member is a particle index, so the force loops stay inside `parts`. */
  lemma PopulatedIdsBelow(cs: seq<Cell>, ps: seq<Particle>, cellSize: real, nx: int, cap: nat)
    requires cellSize > 0.0 && CellsOk(cs)
    requires forall c :: 0 <= c < |cs| ==> Members(cs[c]) == Clip(Bucket(ps, cellSize, nx, c, |ps|), cap)
    ensures IdsBelow(cs, |ps|)
  {
    forall c, k | 0 <= c < |cs| && 0 <= k < cs[c].size && k < |cs[c].particles|
      ensures 0 <= cs[c].particles[k] < |ps|
    {
      var b := Bucket(ps, cellSize, nx, c, |ps|);
      BucketMembers(ps, cellSize, nx, c, |ps|);
      assert cs[c].particles[k] == Members(cs[c])[k] == b[k];
      assert b[k] in b;
    }
  }

  // ---------------------------------------------------------------------
  // The force phase. It reads the cells and the neighbour lists and does not
  // change them, so they are passed as their contents.

  /** One iteration of the loop over the cells: every entry of cell i's neighbour list, in order. */
  method ApplyCell(ph: Physics, parts: array<Particle>, cs: seq<Cell>, nbrs: seq<seq<int>>, i: int,
                   ghost ps0: seq<Particle>)
    requires CellsOk(cs) && NeighborsOk(cs, nbrs) && IdsBelow(cs, parts.Length) && 0 <= i < |cs|
    requires parts[..] == SlotKicks(ph, ps0, cs, StepSlots(cs, nbrs, i))
    modifies parts
    ensures parts[..] == SlotKicks(ph, ps0, cs, StepSlots(cs, nbrs, i + 1))
  {
    ghost var prior := StepSlots(cs, nbrs, i);
    var list := nbrs[i];
    assert forall j :: j in list ==> 0 <= j < |cs|;
    assert prior + Visits(cs, i, list, 0) == prior;
    for n := 0 to |list|
      invariant parts[..] == SlotKicks(ph, ps0, cs, prior + Visits(cs, i, list, n))
    {
      ApplyNeighbor(ph, parts, cs, i, list, n, ps0, prior);
    }
  }

  /** One iteration of `for (int j : neighbors_for_cell[i])`: the loops for entry n of cell i's list. */
  method ApplyNeighbor(ph: Physics, parts: array<Particle>, cs: seq<Cell>, i: int, list: seq<int>, n: int,
                       ghost ps0: seq<Particle>, ghost prior: seq<SlotPair>)
    requires CellsOk(cs) && IdsBelow(cs, parts.Length) && 0 <= i < |cs|
    requires 0 <= n < |list| && forall j :: j in list ==> 0 <= j < |cs|
    requires parts[..] == SlotKicks(ph, ps0, cs, prior + Visits(cs, i, list, n))
    modifies parts
    ensures parts[..] == SlotKicks(ph, ps0, cs, prior + Visits(cs, i, list, n + 1))
  {
    var j := list[n];
    assert j in list;
    ghost var done := prior + Visits(cs, i, list, n);
    ApplyCellPair(ph, parts, cs, i, j);
    SlotKicksAppend(ph, ps0, cs, done, Block(i, j, cs[j].size, cs[i].size));
    VisitsSnoc(prior, cs, i, list, n);
  }

  /**
   The loops for one entry j of cell i's list: the pairs idx1 < idx2 of cell i
   when j == i, every slot of i against every slot of j otherwise.
   */
  method ApplyCellPair(ph: Physics, parts: array<Particle>, cs: seq<Cell>, i: int, j: int)
    requires CellsOk(cs) && 0 <= i < |cs| && 0 <= j < |cs| && IdsBelow(cs, parts.Length)
    modifies parts
    ensures parts[..] == SlotKicks(ph, old(parts[..]), cs, Block(i, j, cs[j].size, cs[i].size))
  {
    if j == i {
      ApplySameCell(ph, parts, cs, i);
    } else {
      ApplyCrossCells(ph, parts, cs, i, j);
    }
  }

  /** The same-cell branch: every pair idx1 < idx2 of cell i. */
  method ApplySameCell(ph: Physics, parts: array<Particle>, cs: seq<Cell>, i: int)
    requires CellsOk(cs) && 0 <= i < |cs| && IdsBelow(cs, parts.Length)
    modifies parts
    ensures parts[..] == SlotKicks(ph, old(parts[..]), cs, Block(i, i, cs[i].size, cs[i].size))
  {
    ghost var ps0 := parts[..];
    var c1 := cs[i];
    for idx1 := 0 to c1.size
      invariant parts[..] == SlotKicks(ph, ps0, cs, Block(i, i, c1.size, idx1))
    {
      ApplyRow(ph, parts, cs, i, idx1, i, idx1 + 1, ps0, Block(i, i, c1.size, idx1));
      assert First(i, idx1, i) == idx1 + 1;
    }
  }

  /** The cross-cell branch: every slot of cell i against every slot of cell j. */
  method ApplyCrossCells(ph: Physics, parts: array<Particle>, cs: seq<Cell>, i: int, j: int)
    requires CellsOk(cs) && 0 <= i < |cs| && 0 <= j < |cs| && i != j && IdsBelow(cs, parts.Length)
    modifies parts
    ensures parts[..] == SlotKicks(ph, old(parts[..]), cs, Block(i, j, cs[j].size, cs[i].size))
  {
    ghost var ps0 := parts[..];
    var c1, c2 := cs[i], cs[j];
    for idx1 := 0 to c1.size
      invariant parts[..] == SlotKicks(ph, ps0, cs, Block(i, j, c2.size, idx1))
    {
      ApplyRow(ph, parts, cs, i, idx1, j, 0, ps0, Block(i, j, c2.size, idx1));
      assert First(i, idx1, j) == 0;
    }
  }

  /** Slot k1 of cell i and the live slots of cell j are recorded and hold particle indices below n. */
  predicate RowResolvable(cs: seq<Cell>, n: int, i: int, k1: int, j: int)
  {
    && 0 <= i < |cs| && 0 <= j < |cs| && WellFormed(cs[i]) && WellFormed(cs[j])
    && 0 <= k1 < cs[i].size && IdsBelow(cs, n)
  }

  lemma RowSlotResolvable(cs: seq<Cell>, n: int, i: int, k1: int, j: int, k2: int)
    requires RowResolvable(cs, n, i, k1, j) && 0 <= k2 < cs[j].size
    ensures Resolvable(cs, n, SlotPair(i, k1, j, k2))
  {
  }

  /** The inner `idx2` loop for slot k1 of cell i against the slots lo, lo + 1, ... of cell j. */
  method ApplyRow(ph: Physics, parts: array<Particle>, cs: seq<Cell>, i: int, k1: int, j: int, lo: int,
                  ghost ps0: seq<Particle>, ghost prior: seq<SlotPair>)
    requires RowResolvable(cs, parts.Length, i, k1, j) && 0 <= lo <= cs[j].size && |ps0| == parts.Length
    requires parts[..] == SlotKicks(ph, ps0, cs, prior)
    modifies parts
    ensures parts[..] == SlotKicks(ph, ps0, cs, prior + Row(i, k1, j, lo, cs[j].size))
  {
    assert prior + Row(i, k1, j, lo, lo) == prior;
    for idx2 := lo to cs[j].size
      invariant parts[..] == SlotKicks(ph, ps0, cs, prior + Row(i, k1, j, lo, idx2))
    {
      ghost var done := prior + Row(i, k1, j, lo, idx2);
      RowSlotResolvable(cs, parts.Length, i, k1, j, idx2);
      ApplySlot(ph, parts, cs, i, k1, j, idx2, ps0, done);
      RowSnoc(prior, i, k1, j, lo, idx2);
    }
  }

  /** `apply_force(parts[c1.particles[idx1]], parts[c2.particles[idx2]])` for one slot pair. */
  method ApplySlot(ph: Physics, parts: array<Particle>, cs: seq<Cell>, i: int, k1: int, j: int, k2: int,
                   ghost ps0: seq<Particle>, ghost done: seq<SlotPair>)
    requires Resolvable(cs, parts.Length, SlotPair(i, k1, j, k2)) && |ps0| == parts.Length
    requires parts[..] == SlotKicks(ph, ps0, cs, done)
    modifies parts
    ensures parts[..] == SlotKicks(ph, ps0, cs, done + [SlotPair(i, k1, j, k2)])
  {
    SlotKicksSnoc(ph, ps0, cs, done, SlotPair(i, k1, j, k2));
    ApplySymmetricForce(ph, parts, cs[i].particles[k1], cs[j].particles[k2]);
  }

  class Grid {
    const variant: Variant
    /** `MAX_PER_CELL`. */
    const cap: nat
    const cellSize: real
    const nx: int
    const ny: int
    /** `grid.cells`: one fixed-capacity cell per grid cell, row-major. */
    const cells: array<Cell>
    /** `neighbors_for_cell`. */
    const neighbors: array<seq<int>>

    ghost predicate Valid()
      reads this, cells, neighbors
    {
      && cap == MaxPerCell(variant) && cellSize > 0.0 && nx > 0 && ny == nx
      && cells.Length == CellCount(nx, ny)
      && (forall c :: 0 <= c < cells.Length ==> FixedCell(cells[c], cap))
      && HalfLists(neighbors[..], nx, ny)
      && NeighborsOk(cells[..], neighbors[..])
    }

    /** The live members of every cell, as a sequence over the cells. */
    ghost predicate AllEmpty()
      reads this, cells
    {
      forall c :: 0 <= c < cells.Length ==> WellFormed(cells[c]) && Members(cells[c]) == []
    }

    /**
     `init_simulation`: cell side from the variant, `nx = ny = (int)(size / cell_size) + 1`,
     every cell empty, and every cell's half-neighbourhood list.
     */
    constructor (variant: Variant, cutoff: real, size: real, numParts: int)
      requires cutoff > 0.0 && size >= 0.0
      ensures Valid() && fresh(cells) && fresh(neighbors)
      ensures this.variant == variant && cellSize == CellSizeFor(variant, cutoff, numParts)
      ensures nx == GridDim(size, cellSize) && ny == nx
      ensures AllEmpty()
    {
      this.variant := variant;
      var k := MaxPerCell(variant);
      cap := k;
      var side := CellSizeFor(variant, cutoff, numParts);
      cellSize := side;
      var n := GridDim(size, side);
      nx, ny := n, n;
      cells := new Cell[CellCount(n, n)](_ => Cell(seq(k, _ => 0), 0));
      var nb := BuildNeighbors(n, n);
      neighbors := nb;
      new;
      forall c, j | 0 <= c < neighbors.Length && j in neighbors[c] ensures 0 <= j < cells.Length {
        HalfListInGrid(nx, ny, c, j);
      }
      ResetCells();
    }

    /** The "Reset cells" loop: `grid.cells[i].size = 0` for every cell. */
    method ResetCells()
      requires Valid()
      modifies cells
      ensures Valid()
      ensures forall c :: 0 <= c < cells.Length ==> cells[c] == Reset(old(cells[c]))
      ensures AllEmpty()
    {
      for i := 0 to cells.Length
        invariant forall c :: 0 <= c < i ==> cells[c] == Reset(old(cells[c]))
        invariant forall c :: i <= c < cells.Length ==> cells[c] == old(cells[c])
      {
        cells[i] := cells[i].(size := 0);
      }
    }

    /** `add_to_cell(pid, p)`: the fixed-capacity insertion into the cell of p's position; no other cell changes. */
    method AddToCell(pid: int, p: Particle)
      requires Valid() && 0 <= CellOf(p, cellSize, nx) < cells.Length
      modifies cells
      ensures Valid()
      ensures var c := CellOf(p, cellSize, nx);
        cells[..] == old(cells[..])[c := AddFixed(old(cells[c]), pid, cap)]
    {
      var cx := Trunc(p.x / cellSize);
      var cy := Trunc(p.y / cellSize);
      var cidx := CellIndex(cx, cy, nx);
      var c := cells[cidx];
      if c.size < cap {
        cells[cidx] := Cell(c.particles[c.size := pid], c.size + 1);
      }
    }

    /**
     The "Add particles to cells" loop: after it, each cell holds the indices of
     the particles in it, in index order, cut off at MAX_PER_CELL.
     */
    method Populate(parts: array<Particle>)
      requires Valid() && AllEmpty()
      requires forall k :: 0 <= k < parts.Length ==> 0 <= CellOf(parts[k], cellSize, nx) < cells.Length
      modifies cells
      ensures Valid()
      ensures forall c :: 0 <= c < cells.Length ==>
        Members(cells[c]) == Clip(Bucket(parts[..], cellSize, nx, c, parts.Length), cap)
    {
      for i := 0 to parts.Length
        invariant Valid()
        invariant forall c :: 0 <= c < cells.Length ==>
          Members(cells[c]) == Clip(Bucket(parts[..], cellSize, nx, c, i), cap)
      {
        ghost var before := cells[..];
        ghost var target := CellOf(parts[i], cellSize, nx);
        AddToCell(i, parts[i]);
        forall c | 0 <= c < cells.Length
          ensures Members(cells[c]) == Clip(Bucket(parts[..], cellSize, nx, c, i + 1), cap)
        {
          if c == target {
            AddFixedClips(before[c], i, cap, Bucket(parts[..], cellSize, nx, c, i));
          } else {
            assert cells[c] == before[c];
          }
        }
      }
    }

    /** The "Apply forces" loop: every cell, every entry of its neighbour list, in order. */
    method ApplyForces(ph: Physics, parts: array<Particle>)
      requires Valid() && IdsBelow(cells[..], parts.Length)
      modifies parts
      ensures parts[..] == SlotKicks(ph, old(parts[..]), cells[..], StepSlots(cells[..], neighbors[..], cells.Length))
    {
      ghost var ps0 := parts[..];
      var cs, nbrs := cells[..], neighbors[..];
      assert CellsOk(cs);
      for i := 0 to |cs|
        invariant parts[..] == SlotKicks(ph, ps0, cs, StepSlots(cs, nbrs, i))
      {
        ApplyCell(ph, parts, cs, nbrs, i, ps0);
      }
    }

    /**
     `simulate_one_step`: reset the cells, populate them, zero the accelerations,
     apply the symmetric kernel along the half neighbourhood, and move every particle.
     When the cell side is at least the cutoff and no cell overflows, the force
     phase leaves every particle with its brute-force acceleration, the same one
     the 3x3 scan computes (Scan.ScanForcesExact).
     */
    method SimulateOneStep(ph: Physics, parts: array<Particle>, size: real)
      requires Valid() && size > 0.0 && nx == GridDim(size, cellSize)
      requires AllInDomain(parts[..], size)
      modifies cells, parts
      ensures Valid()
      ensures forall c :: 0 <= c < cells.Length ==>
        Members(cells[c]) == Clip(Bucket(old(parts[..]), cellSize, nx, c, parts.Length), cap)
      ensures IdsBelow(cells[..], parts.Length)
      ensures parts[..] == MovedAll(ph, SlotKicks(ph, ZeroAll(old(parts[..])), cells[..],
                                                  StepSlots(cells[..], neighbors[..], cells.Length)), size)
      ensures AllInDomain(parts[..], size)
      ensures 0.0 < ph.cutoff <= cellSize &&
              (forall c :: 0 <= c < cells.Length ==> |Bucket(old(parts[..]), cellSize, nx, c, parts.Length)| <= cap) ==>
        var forced := SlotKicks(ph, ZeroAll(old(parts[..])), cells[..], StepSlots(cells[..], neighbors[..], cells.Length));
        forall i :: 0 <= i < parts.Length ==>
          && forced[i].ax == BruteForce(ph, old(parts[..]), i, parts.Length, true)
          && forced[i].ay == BruteForce(ph, old(parts[..]), i, parts.Length, false)
    {
      ghost var ps0 := parts[..];
      CellsInGrid(parts[..], size, cellSize);
      ResetCells();
      Populate(parts);
      PopulatedIdsBelow(cells[..], parts[..], cellSize, nx, cap);
      ResetAccelerations(parts);
      ApplyForces(ph, parts);
      MoveAll(ph, parts, size);
      if 0.0 < ph.cutoff <= cellSize && forall c :: 0 <= c < cells.Length ==> |Bucket(ps0, cellSize, nx, c, |ps0|)| <= cap {
        ForcePhaseExact(ph, cells[..], neighbors[..], ps0, size, cellSize, cap);
      }
    }
  }
}

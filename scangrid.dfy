/**
 The grid of the 3x3-scan variants (serial_optimized.cpp and, with its
 OpenMP loops run in sequential order, openmp_critical.cpp): cells of side
 `cutoff` backed by growable vectors, and `simulate_one_step` as its loops
 (reset cells, add particles to cells, compute forces by scanning the 3x3
 block of cells around each particle, move).
 */
module ScanGrid {
  import opened Particles
  import opened Forces
  import opened Geometry
  import opened Cells
  import opened Binning
  import opened HalfTraversal
  import opened Scan
  import opened Integrator

  function Max(a: int, b: int): int
  {
    if a >= b then a else b
  }

  /** After population every live member is a particle index. */
  lemma BucketedIdsBelow(cs: seq<Cell>, ps: seq<Particle>, cellSize: real, nx: int)
    requires cellSize > 0.0 && CellsOk(cs)
    requires forall c :: 0 <= c < |cs| ==> Members(cs[c]) == Bucket(ps, cellSize, nx, c, |ps|)
    ensures IdsBelow(cs, |ps|)
  {
    forall c, k | 0 <= c < |cs| && 0 <= k < cs[c].size && k < |cs[c].particles|
      ensures 0 <= cs[c].particles[k] < |ps|
    {
      var b := Bucket(ps, cellSize, nx, c, |ps|);
      BucketMembers(ps, cellSize, nx, c, |ps|);
      assert cs[c].particles[k] == Members(cs[c])[k] == b[k];
      assert b[k] in b;
    }
  }

  // ---------------------------------------------------------------------
  // The scan of one particle. It reads the cells and does not change them,
  // so they are passed as their contents.

  /**
   Cells for an nx by ny grid, well formed, whose live members are indices
   below n, the number of particles; i is the particle being scanned, and ps
   the n particles the positions are read from.
   */
  predicate ScanReady(cs: seq<Cell>, nx: int, ny: int, n: int, i: int, ps: seq<Particle>)
  {
    CellsOk(cs) && |cs| == CellCount(nx, ny) && IdsBelow(cs, n) && 0 <= i < n && |ps| == n
  }

  /** Particle i's state after the first q iterations of the dx/dy loops around cell (cx, cy). */
  function Scanned(ph: Physics, ps: seq<Particle>, cs: seq<Cell>, nx: int, ny: int, i: int, cx: int, cy: int, q: nat): seq<Particle>
    requires CellsOk(cs) && |cs| == CellCount(nx, ny)
  {
    ScanKicks(ph, ps, i, Partners(cs, ScanPrefix(nx, ny, cx, cy, q)))
  }

  /** (dx, dy) is an offset of the 3x3 block, and q its position in the dx-outer, dy-inner order. */
  predicate AtOffset(dx: int, dy: int, q: int)
  {
    -1 <= dx <= 1 && -1 <= dy <= 1 && q == 3 * (dx + 1) + (dy + 1)
  }

  /**
   The `dy` loop for one column offset dx around cell (cx, cy); q counts the
   iterations of both loops done so far.
   */
  method ScanColumn(ph: Physics, parts: array<Particle>, cs: seq<Cell>, nx: int, ny: int,
                    i: int, cx: int, cy: int, dx: int, ghost ps1: seq<Particle>, ghost q: nat)
    requires ScanReady(cs, nx, ny, parts.Length, i, ps1) && -1 <= dx <= 1 && q == 3 * (dx + 1)
    requires parts[..] == Scanned(ph, ps1, cs, nx, ny, i, cx, cy, q)
    modifies parts
    ensures parts[..] == Scanned(ph, ps1, cs, nx, ny, i, cx, cy, q + 3)
  {
    ghost var r := q;
    for dy := -1 to 2
      invariant r == q + (dy + 1)
      invariant parts[..] == Scanned(ph, ps1, cs, nx, ny, i, cx, cy, r)
    {
      ScanOffset(ph, parts, cs, nx, ny, i, cx, cy, dx, dy, ps1, r);
      r := r + 1;
    }
    assert r == q + 3;
  }

  /** One (dx, dy) iteration, the q-th of both loops: skip an out-of-bounds cell, scan an in-bounds one. */
  method ScanOffset(ph: Physics, parts: array<Particle>, cs: seq<Cell>, nx: int, ny: int,
                    i: int, cx: int, cy: int, dx: int, dy: int, ghost ps1: seq<Particle>, ghost q: nat)
    requires ScanReady(cs, nx, ny, parts.Length, i, ps1) && AtOffset(dx, dy, q)
    requires parts[..] == Scanned(ph, ps1, cs, nx, ny, i, cx, cy, q)
    modifies parts
    ensures parts[..] == Scanned(ph, ps1, cs, nx, ny, i, cx, cy, q + 1)
  {
    PartnersStep(cs, nx, ny, cx, cy, dx, dy);
    var x, y := cx + dx, cy + dy;
    if x < 0 || x >= nx || y < 0 || y >= ny {
      return;
    }
    var c := CellIndex(x, y, nx);
    ScanCell(ph, parts, cs, i, c, ps1, Partners(cs, ScanPrefix(nx, ny, cx, cy, q)));
  }

  /** The innermost loop: `apply_force(parts[i], parts[cell.particles[j]])` for every live slot j of cell c. */
  method ScanCell(ph: Physics, parts: array<Particle>, cs: seq<Cell>, i: int, c: int,
                  ghost ps1: seq<Particle>, ghost prior: seq<int>)
    requires CellsOk(cs) && IdsBelow(cs, parts.Length) && 0 <= i < parts.Length && 0 <= c < |cs|
    requires |ps1| == parts.Length && parts[..] == ScanKicks(ph, ps1, i, prior)
    modifies parts
    ensures parts[..] == ScanKicks(ph, ps1, i, prior + Members(cs[c]))
  {
    var cell := cs[c];
    assert WellFormed(cell);
    assert prior + cell.particles[..0] == prior;
    for j := 0 to cell.size
      invariant parts[..] == ScanKicks(ph, ps1, i, prior + cell.particles[..j])
    {
      var k := cell.particles[j];
      ScanKicksSnoc(ph, ps1, i, prior + cell.particles[..j], k);
      ApplyAsymmetricForce(ph, parts, i, k);
      assert prior + cell.particles[..j + 1] == (prior + cell.particles[..j]) + [k];
    }
  }

  class Grid {
    /** `grid.cell_size`, which is `cutoff`. */
    const cellSize: real
    const nx: int
    const ny: int
    /** `grid.cells`: one growable cell per grid cell, row-major. */
    const cells: array<Cell>

    ghost predicate Valid()
      reads this, cells
    {
      && cellSize > 0.0 && nx > 0 && ny == nx
      && cells.Length == CellCount(nx, ny)
      && CellsOk(cells[..])
    }

    ghost predicate AllEmpty()
      reads this, cells
    {
      forall c :: 0 <= c < cells.Length ==> WellFormed(cells[c]) && Members(cells[c]) == []
    }

    /**
     `init_simulation`: cell side `cutoff`, `nx = ny = (int)(size / cell_size) + 1`,
     every cell empty with no backing slots.
     */
    constructor (cutoff: real, size: real)
      requires cutoff > 0.0 && size >= 0.0
      ensures Valid() && fresh(cells)
      ensures cellSize == cutoff && nx == GridDim(size, cutoff) && ny == nx
      ensures forall c :: 0 <= c < cells.Length ==> cells[c] == Cell([], 0)
      ensures AllEmpty()
    {
      cellSize := cutoff;
      var n := GridDim(size, cutoff);
      nx, ny := n, n;
      cells := new Cell[CellCount(n, n)](_ => Cell([], 0));
    }

    /** The "Clear the grid" loop: `grid.cells[i].size = 0`, the vectors are kept. */
    method ResetCells()
      requires Valid()
      modifies cells
      ensures Valid()
      ensures forall c :: 0 <= c < cells.Length ==> cells[c] == Reset(old(cells[c]))
      ensures AllEmpty()
    {
      for i := 0 to cells.Length
        invariant forall c :: 0 <= c < i ==> cells[c] == Reset(old(cells[c]))
        invariant forall c :: i <= c < cells.Length ==> cells[c] == old(cells[c])
      {
        cells[i] := cells[i].(size := 0);
      }
    }

    /**
     `add_to_cell(pid, p)`: reuse slot `size` when the vector has one,
     `push_back` otherwise; no other cell changes.
     */
    method AddToCell(pid: int, p: Particle)
      requires Valid() && 0 <= CellOf(p, cellSize, nx) < cells.Length
      modifies cells
      ensures Valid()
      ensures var c := CellOf(p, cellSize, nx);
        cells[..] == old(cells[..])[c := AddGrowable(old(cells[c]), pid)]
    {
      var cx := Trunc(p.x / cellSize);
      var cy := Trunc(p.y / cellSize);
      var cidx := CellIndex(cx, cy, nx);
      var c := cells[cidx];
      assert WellFormed(cells[..][cidx]);
      if c.size < |c.particles| {
        cells[cidx] := Cell(c.particles[c.size := pid], c.size + 1);
      } else {
        cells[cidx] := Cell(c.particles + [pid], c.size + 1);
      }
    }

    /**
     The "Add particles to the grid" loop: afterwards each cell holds exactly
     the indices of its particles, in index order, and its vector has grown
     only as far as needed to hold them.
     */
    method Populate(parts: array<Particle>)
      requires Valid() && AllEmpty()
      requires forall k :: 0 <= k < parts.Length ==> 0 <= CellOf(parts[k], cellSize, nx) < cells.Length
      modifies cells
      ensures Valid()
      ensures forall c :: 0 <= c < cells.Length ==>
        Members(cells[c]) == Bucket(parts[..], cellSize, nx, c, parts.Length)
      ensures forall c :: 0 <= c < cells.Length ==>
        |cells[c].particles| == Max(|old(cells[c]).particles|, |Bucket(parts[..], cellSize, nx, c, parts.Length)|)
    {
      for i := 0 to parts.Length
        invariant Valid()
        invariant forall c :: 0 <= c < cells.Length ==>
          cells[c].size == |Bucket(parts[..], cellSize, nx, c, i)| &&
          Members(cells[c]) == Bucket(parts[..], cellSize, nx, c, i)
        invariant forall c :: 0 <= c < cells.Length ==>
          |cells[c].particles| == Max(|old(cells[c]).particles|, |Bucket(parts[..], cellSize, nx, c, i)|)
      {
        ghost var before := cells[..];
        ghost var target := CellOf(parts[i], cellSize, nx);
        AddToCell(i, parts[i]);
        forall c | 0 <= c < cells.Length
          ensures cells[c].size == |Bucket(parts[..], cellSize, nx, c, i + 1)|
          ensures Members(cells[c]) == Bucket(parts[..], cellSize, nx, c, i + 1)
          ensures |cells[c].particles| == Max(|old(cells[c]).particles|, |Bucket(parts[..], cellSize, nx, c, i + 1)|)
        {
          if c != target {
            assert cells[c] == before[c];
          }
        }
      }
    }

    /**
     The "Compute forces" loop: for each particle in index order, zero its
     acceleration and apply the partners found by the 3x3 scan.
     */
    method ComputeForces(ph: Physics, parts: array<Particle>)
      requires Valid() && IdsBelow(cells[..], parts.Length)
      modifies parts
      ensures parts[..] == ScanForces(ph, old(parts[..]), cells[..], nx, ny, cellSize, parts.Length)
    {
      for i := 0 to parts.Length
        invariant parts[..] == ScanForces(ph, old(parts[..]), cells[..], nx, ny, cellSize, i)
      {
        ScanParticle(ph, parts, i);
      }
    }

    /** One iteration of "Compute forces": particle i against the members of the in-bounds cells around its cell. */
    method ScanParticle(ph: Physics, parts: array<Particle>, i: int)
      requires Valid() && IdsBelow(cells[..], parts.Length) && 0 <= i < parts.Length
      modifies parts
      ensures parts[..] == ScanStep(ph, old(parts[..]), cells[..], nx, ny, cellSize, i)
    {
      var cs := cells[..];
      ghost var ps0 := parts[..];
      parts[i] := parts[i].(ax := 0.0, ay := 0.0);
      ghost var ps1 := parts[..];
      assert ps1 == ps0[i := ZeroAccel(ps0[i])];
      var cx := Trunc(parts[i].x / cellSize);
      var cy := Trunc(parts[i].y / cellSize);
      ghost var q := 0;
      for dx := -1 to 2
        invariant q == 3 * (dx + 1)
        invariant parts[..] == Scanned(ph, ps1, cs, nx, ny, i, cx, cy, q)
      {
        ScanColumn(ph, parts, cs, nx, ny, i, cx, cy, dx, ps1, q);
        q := q + 3;
      }
      assert q == 9;
    }

    /**
     `simulate_one_step`: afterwards the cells hold exactly the particles of
     the step's starting positions, and every particle is the move of its
     brute-force-accelerated state (ScanForcesExact), back in the domain.
     */
    method SimulateOneStep(ph: Physics, parts: array<Particle>, size: real)
      requires Valid() && size > 0.0 && nx == GridDim(size, cellSize)
      requires AllInDomain(parts[..], size)
      modifies cells, parts
      ensures Valid()
      ensures forall c :: 0 <= c < cells.Length ==>
        Members(cells[c]) == Bucket(old(parts[..]), cellSize, nx, c, parts.Length)
      ensures parts[..] == MovedAll(ph, ScanForces(ph, old(parts[..]), cells[..], nx, ny, cellSize, parts.Length), size)
      ensures AllInDomain(parts[..], size)
    {
      CellsInGrid(parts[..], size, cellSize);
      ResetCells();
      Populate(parts);
      BucketedIdsBelow(cells[..], parts[..], cellSize, nx);
      ComputeForces(ph, parts);
      MoveAll(ph, parts, size);
    }
  }
}

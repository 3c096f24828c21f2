/**
 What the population pass ("Add particles to cells") records: inserting the
 particles 0, 1, ..., n-1 in order appends each index to the cell holding its
 position, so the members of cell c are the indices of the particles in c,
 in increasing order. The lemmas state grid completeness: each particle index
 is recorded exactly once, in its own cell, and the cell sizes add up to n.
 */
module Binning {
  import opened Particles
  import opened Geometry
  import opened SeqFacts

  /** The cell of particle p: `cell_index((int)(p.x / cell_size), (int)(p.y / cell_size))`. */
  function CellOf(p: Particle, cellSize: real, nx: int): int
    requires cellSize > 0.0
  {
    CellOfPosition(p.x, p.y, cellSize, nx)
  }

  /** The indices k < n of the particles in cell c, in increasing order. */
  function Bucket(ps: seq<Particle>, cellSize: real, nx: int, c: int, n: nat): seq<int>
    requires cellSize > 0.0 && n <= |ps|
  {
    if n == 0 then []
    else Bucket(ps, cellSize, nx, c, n - 1) + (if CellOf(ps[n - 1], cellSize, nx) == c then [n - 1] else [])
  }

  /** Exactly the particles of cell c among the first n are recorded, each index below n. */
  lemma {:induction false} BucketMembers(ps: seq<Particle>, cellSize: real, nx: int, c: int, n: nat)
    requires cellSize > 0.0 && n <= |ps|
    ensures forall k :: k in Bucket(ps, cellSize, nx, c, n) <==> 0 <= k < n && CellOf(ps[k], cellSize, nx) == c
  {
    if n > 0 {
      BucketMembers(ps, cellSize, nx, c, n - 1);
    }
  }

  /** Every recorded index is below n. */
  lemma {:induction false} BucketBelow(ps: seq<Particle>, cellSize: real, nx: int, c: int, n: nat)
    requires cellSize > 0.0 && n <= |ps|
    ensures forall a :: 0 <= a < |Bucket(ps, cellSize, nx, c, n)| ==> Bucket(ps, cellSize, nx, c, n)[a] < n
  {
    if n > 0 {
      BucketBelow(ps, cellSize, nx, c, n - 1);
    }
  }

  /** The recorded indices are strictly increasing, hence distinct. */
  lemma {:induction false} BucketIncreasing(ps: seq<Particle>, cellSize: real, nx: int, c: int, n: nat)
    requires cellSize > 0.0 && n <= |ps|
    ensures StrictlyIncreasing(Bucket(ps, cellSize, nx, c, n))
    ensures Distinct(Bucket(ps, cellSize, nx, c, n))
  {
    var b' := Bucket(ps, cellSize, nx, c, n);
    if n > 0 {
      BucketIncreasing(ps, cellSize, nx, c, n - 1);
      BucketBelow(ps, cellSize, nx, c, n - 1);
      var b := Bucket(ps, cellSize, nx, c, n - 1);
      if CellOf(ps[n - 1], cellSize, nx) == c {
        IncreasingAppend(b, n - 1);
        assert b' == b + [n - 1];
      } else {
        assert b' == b;
      }
    }
    IncreasingIsDistinct(b');
  }

  /** Grid completeness: particle k occurs once in the bucket of its own cell and in no other. */
  lemma BucketOccurrence(ps: seq<Particle>, cellSize: real, nx: int, c: int, n: nat, k: int)
    requires cellSize > 0.0 && n <= |ps|
    ensures multiset(Bucket(ps, cellSize, nx, c, n))[k] ==
            if 0 <= k < n && CellOf(ps[k], cellSize, nx) == c then 1 else 0
  {
    BucketIncreasing(ps, cellSize, nx, c, n);
    BucketMembers(ps, cellSize, nx, c, n);
    DistinctOccursOnce(Bucket(ps, cellSize, nx, c, n), k);
  }

  /** Sum of the bucket sizes of the cells c < m. */
  function TotalRecorded(ps: seq<Particle>, cellSize: real, nx: int, m: nat, n: nat): nat
    requires cellSize > 0.0 && n <= |ps|
  {
    if m == 0 then 0 else TotalRecorded(ps, cellSize, nx, m - 1, n) + |Bucket(ps, cellSize, nx, m - 1, n)|
  }

  /** Inserting particle n-1 adds one to the total over the cells below m exactly when its cell is below m. */
  lemma {:induction false} TotalRecordedStep(ps: seq<Particle>, cellSize: real, nx: int, m: nat, n: nat)
    requires cellSize > 0.0 && 0 < n <= |ps|
    ensures TotalRecorded(ps, cellSize, nx, m, n) ==
            TotalRecorded(ps, cellSize, nx, m, n - 1) + (if 0 <= CellOf(ps[n - 1], cellSize, nx) < m then 1 else 0)
  {
    if m > 0 {
      TotalRecordedStep(ps, cellSize, nx, m - 1, n);
    }
  }

  /** When every particle lies in one of the nCells cells, the cell sizes add up to the particle count. */
  lemma {:induction false} SizesSumToCount(ps: seq<Particle>, cellSize: real, nx: int, nCells: nat, n: nat)
    requires cellSize > 0.0 && n <= |ps|
    requires forall k :: 0 <= k < n ==> 0 <= CellOf(ps[k], cellSize, nx) < nCells
    ensures TotalRecorded(ps, cellSize, nx, nCells, n) == n
  {
    if n == 0 {
      ZeroRecorded(ps, cellSize, nx, nCells);
    } else {
      SizesSumToCount(ps, cellSize, nx, nCells, n - 1);
      TotalRecordedStep(ps, cellSize, nx, nCells, n);
    }
  }

  lemma {:induction false} ZeroRecorded(ps: seq<Particle>, cellSize: real, nx: int, m: nat)
    requires cellSize > 0.0
    ensures TotalRecorded(ps, cellSize, nx, m, 0) == 0
  {
    if m > 0 {
      ZeroRecorded(ps, cellSize, nx, m - 1);
    }
  }

  /** In the domain, every particle's cell is one of the grid's nx * nx cells. */
  lemma CellsInGrid(ps: seq<Particle>, size: real, cellSize: real)
    requires size >= 0.0 && cellSize > 0.0 && AllInDomain(ps, size)
    ensures var n := GridDim(size, cellSize);
      forall k :: 0 <= k < |ps| ==> 0 <= CellOf(ps[k], cellSize, n) < CellCount(n, n)
  {
    forall k | 0 <= k < |ps|
      ensures 0 <= CellOf(ps[k], cellSize, GridDim(size, cellSize)) < CellCount(GridDim(size, cellSize), GridDim(size, cellSize))
    {
      PositionInGrid(ps[k].x, ps[k].y, size, cellSize);
    }
  }
}

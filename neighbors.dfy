/**
 The precomputed half neighbourhood of the fixed-capacity variants
 (`neighbors_for_cell`): for cell i, the in-bounds cells j with column and row
 within one of i's and j >= i, in the order the nested dy/dx loops push them.
 Walking every cell's list visits each unordered pair of equal or 8-adjacent
 cells exactly once.
 */
module Neighbors {
  import opened Geometry
  import opened SeqFacts
  import opened RealArith

  /** j belongs to cell i's half neighbourhood. */
  predicate InHalfNeighborhood(nx: int, ny: int, i: int, j: int)
    requires nx > 0
  {
    SameOrAdjacent(nx, ny, i, j) && j >= i
  }

  /** Reference definition of `neighbors_for_cell[i]`: its half neighbourhood in increasing order. */
  function HalfList(nx: int, ny: int, i: int): seq<int>
    requires nx > 0
  {
    Filtered(j => InHalfNeighborhood(nx, ny, i, j), 0, CellCount(nx, ny))
  }

  /** The half list holds exactly the half neighbourhood, strictly increasing (so without repeats). */
  lemma HalfListSpec(nx: int, ny: int, i: int)
    requires nx > 0
    ensures StrictlyIncreasing(HalfList(nx, ny, i))
    ensures Distinct(HalfList(nx, ny, i))
    ensures forall j :: j in HalfList(nx, ny, i) <==> InHalfNeighborhood(nx, ny, i, j)
  {
    FilteredSpec(j => InHalfNeighborhood(nx, ny, i, j), 0, CellCount(nx, ny));
    IncreasingIsDistinct(HalfList(nx, ny, i));
  }

  /** Every in-bounds cell is in its own list (the `j == i` entry that drives the same-cell pass). */
  lemma HalfListHasSelf(nx: int, ny: int, i: int)
    requires nx > 0 && 0 <= i < CellCount(nx, ny)
    ensures i in HalfList(nx, ny, i)
  {
    HalfListSpec(nx, ny, i);
  }

  /** For distinct equal-or-adjacent cells a < b, b is listed for a and a is not listed for b. */
  lemma PairListedOnce(nx: int, ny: int, a: int, b: int)
    requires nx > 0 && SameOrAdjacent(nx, ny, a, b) && a < b
    ensures b in HalfList(nx, ny, a)
    ensures a !in HalfList(nx, ny, b)
  {
    HalfListSpec(nx, ny, a);
    HalfListSpec(nx, ny, b);
  }

  /** Every listed cell is a valid cell index, equal or adjacent to i. */
  lemma HalfListInGrid(nx: int, ny: int, i: int, j: int)
    requires nx > 0 && j in HalfList(nx, ny, i)
    ensures 0 <= j < CellCount(nx, ny) && 0 <= i < CellCount(nx, ny) && i <= j
    ensures Near(ColumnOf(i, nx), ColumnOf(j, nx)) && Near(RowOf(i, nx), RowOf(j, nx))
  {
    HalfListSpec(nx, ny, i);
  }

  // ---------------------------------------------------------------------
  // The loop of `init_simulation` that builds one cell's list

  /** Offset (dy', dx') comes before (dy, dx) in the loop's row-major visiting order. */
  predicate Before(dy': int, dx': int, dy: int, dx: int)
  {
    dy' < dy || (dy' == dy && dx' < dx)
  }

  /** The offset of cell j from cell (cx, cy) has been visited by the time (dy, dx) is reached. */
  predicate Visited(nx: int, j: int, cx: int, cy: int, dy: int, dx: int)
    requires nx > 0
  {
    Before(RowOf(j, nx) - cy, ColumnOf(j, nx) - cx, dy, dx)
  }

  /** Row-major order of in-bounds coordinates is the order of their linear indices. */
  lemma LexIndexOrder(c1: int, r1: int, c2: int, r2: int, nx: int)
    requires 0 <= c1 < nx && 0 <= c2 < nx
    requires r1 < r2 || (r1 == r2 && c1 < c2)
    ensures CellIndex(c1, r1, nx) < CellIndex(c2, r2, nx)
  {
    MulIsProduct(r1, nx);
    MulIsProduct(r2, nx);
    if r1 < r2 {
      IntMulMonotone(r1 + 1, r2, nx);
    }
  }

  /** Considering offset (dy, dx) adds exactly its candidate cell, when in bounds and not below i. */
  lemma VisitStep(nx: int, ny: int, cx: int, cy: int, dy: int, dx: int, j: int)
    requires nx > 0 && 0 <= cx < nx && 0 <= cy < ny
    ensures var i, cand := CellIndex(cx, cy, nx), CellIndex(cx + dx, cy + dy, nx);
      (InHalfNeighborhood(nx, ny, i, j) && Visited(nx, j, cx, cy, dy, dx + 1)) <==>
      ((InHalfNeighborhood(nx, ny, i, j) && Visited(nx, j, cx, cy, dy, dx)) ||
       (j == cand && 0 <= cx + dx < nx && 0 <= cy + dy < ny && cand >= i && -1 <= dx <= 1 && -1 <= dy <= 1))
  {
    var i, cand := CellIndex(cx, cy, nx), CellIndex(cx + dx, cy + dy, nx);
    CoordsOfIndex(cx, cy, nx);
    if 0 <= j < CellCount(nx, ny) {
      IndexOfCoords(j, nx, ny);
    }
    if 0 <= cx + dx < nx && 0 <= cy + dy < ny {
      CoordsOfIndex(cx + dx, cy + dy, nx);
      CellIndexInRange(cx + dx, cy + dy, nx, ny);
    }
  }

  /** With every offset visited, the visited part of the neighbourhood is all of it. */
  lemma AllVisited(nx: int, ny: int, cx: int, cy: int, j: int)
    requires nx > 0 && 0 <= cx < nx && 0 <= cy < ny
    ensures InHalfNeighborhood(nx, ny, CellIndex(cx, cy, nx), j) ==> Visited(nx, j, cx, cy, 2, -1)
    ensures InHalfNeighborhood(nx, ny, CellIndex(cx, cy, nx), j) ==> Visited(nx, j, cx, cy, -1, -1) == false
  {
    CoordsOfIndex(cx, cy, nx);
  }

  /** A row of offsets ends where the next one starts. */
  lemma RowDone(nx: int, ny: int, cx: int, cy: int, dy: int, j: int)
    requires nx > 0 && 0 <= cx < nx && 0 <= cy < ny
    ensures InHalfNeighborhood(nx, ny, CellIndex(cx, cy, nx), j) ==>
      (Visited(nx, j, cx, cy, dy, 2) <==> Visited(nx, j, cx, cy, dy + 1, -1))
  {
    CoordsOfIndex(cx, cy, nx);
  }

  /** A visited neighbour precedes, in index order, the candidate of any in-bounds offset (dy, dx). */
  lemma VisitedBelow(nx: int, ny: int, cx: int, cy: int, dy: int, dx: int, e: int)
    requires nx > 0 && 0 <= cx < nx && 0 <= cy < ny
    requires 0 <= cx + dx < nx && 0 <= cy + dy < ny
    requires InHalfNeighborhood(nx, ny, CellIndex(cx, cy, nx), e) && Visited(nx, e, cx, cy, dy, dx)
    ensures e < CellIndex(cx + dx, cy + dy, nx)
  {
    IndexOfCoords(e, nx, ny);
    LexIndexOrder(ColumnOf(e, nx), RowOf(e, nx), cx + dx, cy + dy, nx);
  }

  /**
   The nested `dy`/`dx` loops of `init_simulation` for cell (cx, cy): skip
   out-of-bounds offsets, push the others whose index is at least i. The
   list built is the reference half list.
   */
  method CollectNeighbors(nx: int, ny: int, cx: int, cy: int) returns (list: seq<int>)
    requires nx > 0 && 0 <= cx < nx && 0 <= cy < ny
    ensures list == HalfList(nx, ny, CellIndex(cx, cy, nx))
  {
    var i := CellIndex(cx, cy, nx);
    list := [];
    forall j ensures InHalfNeighborhood(nx, ny, i, j) ==> !Visited(nx, j, cx, cy, -1, -1) {
      AllVisited(nx, ny, cx, cy, j);
    }
    for dy := -1 to 2
      invariant StrictlyIncreasing(list)
      invariant forall j :: j in list <==> InHalfNeighborhood(nx, ny, i, j) && Visited(nx, j, cx, cy, dy, -1)
    {
      var y := cy + dy;
      if y < 0 || y >= ny {
        forall j ensures InHalfNeighborhood(nx, ny, i, j) && Visited(nx, j, cx, cy, dy + 1, -1) <==>
                         InHalfNeighborhood(nx, ny, i, j) && Visited(nx, j, cx, cy, dy, -1) {
          SkipRow(nx, ny, cx, cy, dy, j);
        }
        continue;
      }
      for dx := -1 to 2
        invariant StrictlyIncreasing(list)
        invariant forall j :: j in list <==> InHalfNeighborhood(nx, ny, i, j) && Visited(nx, j, cx, cy, dy, dx)
      {
        var x := cx + dx;
        var cand := CellIndex(x, y, nx);
        forall j ensures (InHalfNeighborhood(nx, ny, i, j) && Visited(nx, j, cx, cy, dy, dx + 1)) <==>
                         ((InHalfNeighborhood(nx, ny, i, j) && Visited(nx, j, cx, cy, dy, dx)) ||
                          (j == cand && 0 <= x < nx && cand >= i)) {
          VisitStep(nx, ny, cx, cy, dy, dx, j);
        }
        if x < 0 || x >= nx {
          continue;
        }
        if cand >= i {
          forall a | 0 <= a < |list| ensures list[a] < cand {
            assert list[a] in list;
            VisitedBelow(nx, ny, cx, cy, dy, dx, list[a]);
          }
          IncreasingAppend(list, cand);
          list := list + [cand];
        }
      }
      forall j ensures InHalfNeighborhood(nx, ny, i, j) && Visited(nx, j, cx, cy, dy, 2) <==>
                       InHalfNeighborhood(nx, ny, i, j) && Visited(nx, j, cx, cy, dy + 1, -1) {
        RowDone(nx, ny, cx, cy, dy, j);
      }
    }
    forall j ensures j in list <==> InHalfNeighborhood(nx, ny, i, j) {
      AllVisited(nx, ny, cx, cy, j);
    }
    HalfListSpec(nx, ny, i);
    IncreasingUnique(list, HalfList(nx, ny, i));
  }

  /** An out-of-bounds row of offsets contributes no neighbour. */
  lemma SkipRow(nx: int, ny: int, cx: int, cy: int, dy: int, j: int)
    requires nx > 0 && 0 <= cx < nx && 0 <= cy < ny && (cy + dy < 0 || cy + dy >= ny)
    ensures InHalfNeighborhood(nx, ny, CellIndex(cx, cy, nx), j) ==>
      (Visited(nx, j, cx, cy, dy + 1, -1) <==> Visited(nx, j, cx, cy, dy, -1))
  {
    CoordsOfIndex(cx, cy, nx);
    if 0 <= j < CellCount(nx, ny) {
      IndexOfCoords(j, nx, ny);
    }
  }
}

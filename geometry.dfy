/**
 The uniform square grid ("cell list") laid over the simulation domain
 [0, size] x [0, size]: truncating a coordinate to a cell coordinate, the
 number of cells per axis, the row-major cell index, and the facts that make
 the cell list correct (every in-domain position lands in a cell, and two
 positions within the cutoff land in equal or 8-adjacent cells when the cell
 side is at least the cutoff).
 */
module Geometry {
  import opened RealArith

  /** C's `(int)` conversion of a floating value: truncation toward zero. */
  function Trunc(r: real): (t: int)
    ensures r >= 0.0 ==> 0 <= t && t as real <= r < t as real + 1.0
    ensures r < 0.0 ==> t <= 0 && t as real - 1.0 < r <= t as real
  {
    if r >= 0.0 then r.Floor else -((-r).Floor)
  }

  /** The cell coordinate of one position coordinate: `(int)(x / cell_size)`. */
  function CellCoord(x: real, cellSize: real): int
    requires cellSize > 0.0
  {
    Trunc(x / cellSize)
  }

  /** Cells per axis: `(int)(size / cell_size) + 1`. */
  function GridDim(size: real, cellSize: real): (n: int)
    requires size >= 0.0 && cellSize > 0.0
    ensures n >= 1
    ensures (n - 1) as real * cellSize <= size < n as real * cellSize
  {
    DivBounds(size, cellSize);
    Trunc(size / cellSize) + 1
  }

  /** Row-major linear index of cell (cx, cy): `cy * nx + cx` (see MulIsProduct). */
  function CellIndex(cx: int, cy: int, nx: int): int
  {
    Mul(cy, nx) + cx
  }

  /**
   The integer product a * b as a sum of |a| copies of b. The verifier unfolds
   it one addition at a time, without nonlinear reasoning; MulIsProduct
   equates it with `a * b` where a proof needs the product.
   */
  function Mul(a: int, b: int): int
    decreases if a >= 0 then a else -a
  {
    if a == 0 then 0 else if a > 0 then Mul(a - 1, b) + b else Mul(a + 1, b) - b
  }

  /** The number of cells of an nx-by-ny grid, `nx * ny` (see MulIsProduct): ny rows of nx cells. */
  function CellCount(nx: int, ny: int): (r: int)
    ensures nx >= 0 && ny >= 0 ==> r >= 0
  {
    MulIsProduct(ny, nx);
    Mul(ny, nx)
  }

  lemma {:induction false} MulIsProduct(a: int, b: int)
    ensures Mul(a, b) == a * b
    decreases if a >= 0 then a else -a
  {
    if a > 0 {
      MulIsProduct(a - 1, b);
      assert (a - 1) * b + b == a * b;
    } else if a < 0 {
      MulIsProduct(a + 1, b);
      assert (a + 1) * b - b == a * b;
    }
  }

  /** Column of a linear cell index. */
  function ColumnOf(c: int, nx: int): int
    requires nx > 0
  {
    c % nx
  }

  /** Row of a linear cell index. */
  function RowOf(c: int, nx: int): int
    requires nx > 0
  {
    c / nx
  }

  /** Two cell coordinates on one axis are equal or neighbours. */
  predicate Near(a: int, b: int)
  {
    -1 <= a - b <= 1
  }

  /** Cells a and b of an nx-by-ny grid are equal or 8-adjacent. */
  predicate SameOrAdjacent(nx: int, ny: int, a: int, b: int)
    requires nx > 0
  {
    && 0 <= a < CellCount(nx, ny) && 0 <= b < CellCount(nx, ny)
    && Near(ColumnOf(a, nx), ColumnOf(b, nx))
    && Near(RowOf(a, nx), RowOf(b, nx))
  }

  /** The cell that holds position (x, y). */
  function CellOfPosition(x: real, y: real, cellSize: real, nx: int): int
    requires cellSize > 0.0
  {
    CellIndex(CellCoord(x, cellSize), CellCoord(y, cellSize), nx)
  }

  // ---------------------------------------------------------------------
  // Arithmetic helpers

  lemma DivBounds(x: real, d: real)
    requires x >= 0.0 && d > 0.0
    ensures Trunc(x / d) as real * d <= x < (Trunc(x / d) + 1) as real * d
  {
    DivNonneg(x, d);
    DivTimes(x, d);
    QuotientBounds(x, d, x / d, Trunc(x / d));
  }

  // ---------------------------------------------------------------------
  // Facts about the grid

  /** A coordinate in [0, size] has a cell coordinate in [0, nx). */
  lemma CoordInGrid(x: real, size: real, cellSize: real)
    requires 0.0 <= x <= size && cellSize > 0.0
    ensures 0 <= CellCoord(x, cellSize) < GridDim(size, cellSize)
  {
    DivMonotone(x, size, cellSize);
  }

  /** The linear index of an in-bounds cell lies in [0, CellCount(nx, ny)). */
  lemma CellIndexInRange(cx: int, cy: int, nx: int, ny: int)
    requires 0 <= cx < nx && 0 <= cy < ny
    ensures 0 <= CellIndex(cx, cy, nx) < CellCount(nx, ny)
  {
    MulIsProduct(cy, nx);
    MulIsProduct(ny, nx);
    IntMulMonotone(0, cy, nx);
    IntMulMonotone(cy + 1, ny, nx);
  }

  /** Column and row recover the coordinates of an in-bounds cell. */
  lemma CoordsOfIndex(cx: int, cy: int, nx: int)
    requires 0 <= cx < nx
    ensures ColumnOf(CellIndex(cx, cy, nx), nx) == cx
    ensures RowOf(CellIndex(cx, cy, nx), nx) == cy
  {
    MulIsProduct(cy, nx);
    var c := CellIndex(cx, cy, nx);
    var q, m := c / nx, c % nx;
    assert c == q * nx + m && 0 <= m < nx;
    assert (q - cy) * nx == cx - m;
    if q - cy >= 1 {
      IntMulMonotone(1, q - cy, nx);
    } else if q - cy <= -1 {
      IntMulMonotone(q - cy, -1, nx);
    }
  }

  /** Every index in [0, CellCount(nx, ny)) is the index of an in-bounds cell. */
  lemma IndexOfCoords(c: int, nx: int, ny: int)
    requires nx > 0 && 0 <= c < CellCount(nx, ny)
    ensures 0 <= ColumnOf(c, nx) < nx && 0 <= RowOf(c, nx) < ny
    ensures CellIndex(ColumnOf(c, nx), RowOf(c, nx), nx) == c
  {
    MulIsProduct(c / nx, nx);
    MulIsProduct(ny, nx);
    var q := c / nx;
    if q >= ny {
      IntMulMonotone(ny, q, nx);
    }
  }

  /** `cell_index` is injective on in-bounds coordinates. */
  lemma CellIndexInjective(cx1: int, cy1: int, cx2: int, cy2: int, nx: int)
    requires 0 <= cx1 < nx && 0 <= cx2 < nx
    requires CellIndex(cx1, cy1, nx) == CellIndex(cx2, cy2, nx)
    ensures cx1 == cx2 && cy1 == cy2
  {
    CoordsOfIndex(cx1, cy1, nx);
    CoordsOfIndex(cx2, cy2, nx);
  }

  /** Every position of the domain lies in a cell of the grid. */
  lemma PositionInGrid(x: real, y: real, size: real, cellSize: real)
    requires 0.0 <= x <= size && 0.0 <= y <= size && cellSize > 0.0
    ensures var n := GridDim(size, cellSize);
      0 <= CellOfPosition(x, y, cellSize, n) < CellCount(n, n)
  {
    var n := GridDim(size, cellSize);
    CoordInGrid(x, size, cellSize);
    CoordInGrid(y, size, cellSize);
    CellIndexInRange(CellCoord(x, cellSize), CellCoord(y, cellSize), n, n);
  }

  /** Cell coordinates of two non-negative coordinates at most `cellSize` apart differ by at most one. */
  lemma CloseCoordsNear(x1: real, x2: real, reach: real, cellSize: real)
    requires x1 >= 0.0 && x2 >= 0.0 && 0.0 < reach <= cellSize
    requires -reach <= x1 - x2 <= reach
    ensures Near(CellCoord(x1, cellSize), CellCoord(x2, cellSize))
  {
    FarCoordsApart(x1, x2, cellSize);
    FarCoordsApart(x2, x1, cellSize);
  }

  /** A cell coordinate two or more above another means the positions are more than a cell apart. */
  lemma FarCoordsApart(x1: real, x2: real, cellSize: real)
    requires x1 >= 0.0 && x2 >= 0.0 && cellSize > 0.0
    ensures CellCoord(x1, cellSize) - CellCoord(x2, cellSize) >= 2 ==> x1 - x2 > cellSize
  {
    var t1, t2 := CellCoord(x1, cellSize), CellCoord(x2, cellSize);
    DivBounds(x1, cellSize);
    DivBounds(x2, cellSize);
    if t1 - t2 >= 2 {
      GapOfTwoCells(x1, x2, cellSize, t1, t2);
    }
  }

  /** x1 at or above cell t1's lower edge, x2 below cell t2's upper edge, t1 >= t2 + 2: more than a cell apart. */
  lemma GapOfTwoCells(x1: real, x2: real, cellSize: real, t1: int, t2: int)
    requires cellSize > 0.0 && t1 >= t2 + 2
    requires t1 as real * cellSize <= x1 && x2 < (t2 + 1) as real * cellSize
    ensures x1 - x2 > cellSize
  {
    var u := (t2 + 1) as real;
    MulMonotone(u + 1.0, t1 as real, cellSize);
    assert (u + 1.0) * cellSize == u * cellSize + cellSize;
  }

  /** A squared distance of at most cutoff^2 bounds each component by the cutoff. */
  lemma ComponentWithinCutoff(dx: real, dy: real, cutoff: real)
    requires cutoff > 0.0 && dx * dx + dy * dy <= cutoff * cutoff
    ensures -cutoff <= dx <= cutoff
  {
    assert dy * dy >= 0.0;
    if dx > cutoff {
      SquareGrows(dx, cutoff);
    } else if dx < -cutoff {
      SquareGrows(-dx, cutoff);
    }
  }

  lemma SquareGrows(a: real, b: real)
    requires 0.0 < b < a
    ensures a * a > b * b
  {
    MulPositive(a - b, a + b);
    assert a * a - b * b == (a - b) * (a + b);
  }

  /**
   The grid's central invariant: with `cell_size >= cutoff`, two positions of
   the domain whose squared distance is at most cutoff^2 lie in equal or
   8-adjacent cells.
   */
  lemma InteractingPositionsAdjacent(x1: real, y1: real, x2: real, y2: real,
                                     size: real, cellSize: real, cutoff: real)
    requires 0.0 <= x1 <= size && 0.0 <= y1 <= size
    requires 0.0 <= x2 <= size && 0.0 <= y2 <= size
    requires 0.0 < cutoff <= cellSize
    requires (x2 - x1) * (x2 - x1) + (y2 - y1) * (y2 - y1) <= cutoff * cutoff
    ensures var n := GridDim(size, cellSize);
      SameOrAdjacent(n, n, CellOfPosition(x1, y1, cellSize, n), CellOfPosition(x2, y2, cellSize, n))
  {
    var n := GridDim(size, cellSize);
    ComponentWithinCutoff(x2 - x1, y2 - y1, cutoff);
    ComponentWithinCutoff(y2 - y1, x2 - x1, cutoff);
    CloseCoordsNear(x1, x2, cutoff, cellSize);
    CloseCoordsNear(y1, y2, cutoff, cellSize);
    CoordInGrid(x1, size, cellSize);
    CoordInGrid(y1, size, cellSize);
    CoordInGrid(x2, size, cellSize);
    CoordInGrid(y2, size, cellSize);
    PositionInGrid(x1, y1, size, cellSize);
    PositionInGrid(x2, y2, size, cellSize);
    CoordsOfIndex(CellCoord(x1, cellSize), CellCoord(y1, cellSize), n);
    CoordsOfIndex(CellCoord(x2, cellSize), CellCoord(y2, cellSize), n);
  }
}

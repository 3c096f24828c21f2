/**
 The force phase of the 3x3-scan variants (serial_optimized.cpp,
 openmp_critical.cpp) as values. For each particle i: its acceleration is set
 to zero, then for dx = -1..1 (outer) and dy = -1..1 (inner) the in-bounds cell
 (cx + dx, cy + dy) around i's own cell is scanned, and the asymmetric kernel
 applies every live member of that cell to particle i (i itself included, a
 call that adds exactly zero).

 The main theorem, ScanForceExact: when the cells hold exactly their
 particles and the cell side is at least the cutoff, the acceleration each
 particle ends up with is the brute-force sum of the forces of all particles
 within the cutoff, each counted once.
 */
module Scan {
  import opened Particles
  import opened Forces
  import opened Geometry
  import opened Cells
  import opened SeqFacts
  import opened Binning
  import opened HalfTraversal

  // ---------------------------------------------------------------------
  // Which cells are scanned

  /** Cell j lies in the grid and in the 3x3 block around cell coordinates (cx, cy). */
  predicate InBlock(nx: int, ny: int, cx: int, cy: int, j: int)
    requires nx > 0
  {
    0 <= j < CellCount(nx, ny) && Near(ColumnOf(j, nx), cx) && Near(RowOf(j, nx), cy)
  }

  /** Position of cell j's offset in the dx-outer, dy-inner visiting order (0 .. 8 inside the block). */
  function OffsetRank(nx: int, cx: int, cy: int, j: int): int
    requires nx > 0
  {
    3 * (ColumnOf(j, nx) - cx + 1) + (RowOf(j, nx) - cy + 1)
  }

  /**
   The column offset of iteration q (0 to 8) of the dx-outer, dy-inner loops,
   `q / 3 - 1`, written by cases so that it stays linear.
   */
  function OffsetDx(q: int): int
  {
    if q < 3 then -1 else if q < 6 then 0 else 1
  }

  /** The row offset of iteration q (0 to 8), `q % 3 - 1`. */
  function OffsetDy(q: int): int
  {
    q - 3 * (OffsetDx(q) + 1) - 1
  }

  /** The offsets by cases are the quotient and remainder the loops' order gives. */
  lemma OffsetsOfIteration(q: int)
    requires 0 <= q < 9
    ensures OffsetDx(q) == q / 3 - 1 && OffsetDy(q) == q % 3 - 1
  {
  }

  /**
   The cells scanned by the first q iterations of the dx/dy loops; iteration q
   has offset (OffsetDx(q), OffsetDy(q)), and contributes its cell only when
   that cell is in bounds.
   */
  function ScanPrefix(nx: int, ny: int, cx: int, cy: int, q: nat): (r: seq<int>)
    ensures forall j :: j in r ==> 0 <= j < CellCount(nx, ny)
  {
    if q == 0 then []
    else
      var x, y := cx + OffsetDx(q - 1), cy + OffsetDy(q - 1);
      ScanPrefix(nx, ny, cx, cy, q - 1) +
        if 0 <= x < nx && 0 <= y < ny then CellIndexInRange(x, y, nx, ny); [CellIndex(x, y, nx)] else []
  }

  /** Iteration (dx, dy) of the loops appends its cell exactly when that cell is in bounds. */
  lemma ScanPrefixStep(nx: int, ny: int, cx: int, cy: int, dx: int, dy: int)
    requires -1 <= dx <= 1 && -1 <= dy <= 1
    ensures var q := 3 * (dx + 1) + (dy + 1);
      var x, y := cx + dx, cy + dy;
      ScanPrefix(nx, ny, cx, cy, q + 1) ==
        ScanPrefix(nx, ny, cx, cy, q) + if 0 <= x < nx && 0 <= y < ny then [CellIndex(x, y, nx)] else []
    ensures 0 <= cx + dx < nx && 0 <= cy + dy < ny ==> 0 <= CellIndex(cx + dx, cy + dy, nx) < CellCount(nx, ny)
  {
    var q := 3 * (dx + 1) + (dy + 1);
    assert OffsetDx(q) == dx && OffsetDy(q) == dy;
    if 0 <= cx + dx < nx && 0 <= cy + dy < ny {
      CellIndexInRange(cx + dx, cy + dy, nx, ny);
    }
  }

  /** All nine iterations: the cells scanned for a particle in cell (cx, cy). */
  function ScanCells(nx: int, ny: int, cx: int, cy: int): seq<int>
  {
    ScanPrefix(nx, ny, cx, cy, 9)
  }

  lemma {:induction false} ScanPrefixSpec(nx: int, ny: int, cx: int, cy: int, q: nat)
    requires nx > 0 && q <= 9
    ensures Distinct(ScanPrefix(nx, ny, cx, cy, q))
    ensures forall j :: j in ScanPrefix(nx, ny, cx, cy, q) <==>
      InBlock(nx, ny, cx, cy, j) && OffsetRank(nx, cx, cy, j) < q
  {
    if q > 0 {
      ScanPrefixSpec(nx, ny, cx, cy, q - 1);
      var dx, dy := OffsetDx(q - 1), OffsetDy(q - 1);
      var x, y := cx + dx, cy + dy;
      var before := ScanPrefix(nx, ny, cx, cy, q - 1);
      forall j | InBlock(nx, ny, cx, cy, j) && OffsetRank(nx, cx, cy, j) == q - 1
        ensures 0 <= x < nx && 0 <= y < ny && j == CellIndex(x, y, nx)
      {
        IndexOfCoords(j, nx, ny);
      }
      if 0 <= x < nx && 0 <= y < ny {
        var e := CellIndex(x, y, nx);
        CoordsOfIndex(x, y, nx);
        CellIndexInRange(x, y, nx, ny);
        assert OffsetRank(nx, cx, cy, e) == q - 1;
        assert e !in before;
        DistinctConcat(before, [e]);
      } else {
        assert ScanPrefix(nx, ny, cx, cy, q) == before;
      }
    }
  }

  /**
   The scanned cells are distinct, and they are exactly the grid cells whose
   column and row are each within one of (cx, cy): out-of-bounds offsets are skipped.
   */
  lemma ScanCellsSpec(nx: int, ny: int, cx: int, cy: int)
    requires nx > 0
    ensures Distinct(ScanCells(nx, ny, cx, cy))
    ensures forall j :: j in ScanCells(nx, ny, cx, cy) <==> InBlock(nx, ny, cx, cy, j)
  {
    ScanPrefixSpec(nx, ny, cx, cy, 9);
    forall j | InBlock(nx, ny, cx, cy, j) ensures OffsetRank(nx, cx, cy, j) < 9 {
    }
  }

  // ---------------------------------------------------------------------
  // The partners of a particle and the kicks it receives

  /** The live members of the given cells, cell after cell: every particle index the scan applies. */
  function Partners(cs: seq<Cell>, cells: seq<int>): seq<int>
    requires CellsOk(cs) && forall c :: c in cells ==> 0 <= c < |cs|
  {
    if cells == [] then []
    else
      var c := cells[|cells| - 1];
      var init := cells[..|cells| - 1];
      assert cells == init + [c];
      assert c in cells && forall d :: d in init ==> d in cells;
      Partners(cs, init) + Members(cs[c])
  }

  /** The partners of the particle at p: the members of the 3x3 block around p's cell. */
  function PartnersOf(cs: seq<Cell>, nx: int, ny: int, cellSize: real, p: Particle): seq<int>
    requires CellsOk(cs) && |cs| == CellCount(nx, ny) && cellSize > 0.0
  {
    Partners(cs, ScanCells(nx, ny, CellCoord(p.x, cellSize), CellCoord(p.y, cellSize)))
  }

  /**
   The asymmetric kernel applied to particle i once per partner, in order. An
   index outside the particles would be skipped; IdsBelow rules it out wherever
   the scan runs.
   */
  function ScanKicks(ph: Physics, ps: seq<Particle>, i: int, ks: seq<int>): (r: seq<Particle>)
    ensures |r| == |ps|
  {
    if ks == [] then ps
    else
      var before := ScanKicks(ph, ps, i, ks[..|ks| - 1]);
      var k := ks[|ks| - 1];
      if 0 <= i < |before| && 0 <= k < |before| then AsymmetricKick(ph, before, i, k) else before
  }

  /** Scanning one more cell appends its live members to the partners. */
  lemma PartnersSnoc(cs: seq<Cell>, cells: seq<int>, c: int)
    requires CellsOk(cs) && 0 <= c < |cs| && forall d :: d in cells ==> 0 <= d < |cs|
    ensures Partners(cs, cells + [c]) == Partners(cs, cells) + Members(cs[c])
  {
    assert (cells + [c])[..|cells|] == cells;
  }

  /** Iteration (dx, dy) adds the live members of its cell to the partners when the cell is in bounds, nothing otherwise. */
  lemma PartnersStep(cs: seq<Cell>, nx: int, ny: int, cx: int, cy: int, dx: int, dy: int)
    requires CellsOk(cs) && |cs| == CellCount(nx, ny) && -1 <= dx <= 1 && -1 <= dy <= 1
    ensures var q := 3 * (dx + 1) + (dy + 1);
      var x, y := cx + dx, cy + dy;
      && (0 <= x < nx && 0 <= y < ny ==>
            0 <= CellIndex(x, y, nx) < |cs| &&
            Partners(cs, ScanPrefix(nx, ny, cx, cy, q + 1)) ==
            Partners(cs, ScanPrefix(nx, ny, cx, cy, q)) + Members(cs[CellIndex(x, y, nx)]))
      && (!(0 <= x < nx && 0 <= y < ny) ==>
            Partners(cs, ScanPrefix(nx, ny, cx, cy, q + 1)) == Partners(cs, ScanPrefix(nx, ny, cx, cy, q)))
  {
    var q := 3 * (dx + 1) + (dy + 1);
    var x, y := cx + dx, cy + dy;
    ScanPrefixStep(nx, ny, cx, cy, dx, dy);
    var pre, post := ScanPrefix(nx, ny, cx, cy, q), ScanPrefix(nx, ny, cx, cy, q + 1);
    if 0 <= x < nx && 0 <= y < ny {
      var c := CellIndex(x, y, nx);
      assert post == pre + [c];
      PartnersSnoc(cs, pre, c);
    } else {
      assert post == pre;
    }
  }

  /** One more partner is one more asymmetric kick. */
  lemma ScanKicksSnoc(ph: Physics, ps: seq<Particle>, i: int, ks: seq<int>, k: int)
    requires 0 <= i < |ps| && 0 <= k < |ps|
    ensures ScanKicks(ph, ps, i, ks + [k]) == AsymmetricKick(ph, ScanKicks(ph, ps, i, ks), i, k)
  {
    assert (ks + [k])[..|ks|] == ks;
  }

  /** One component of the force on particle i from particle k: zero beyond the cutoff. */
  function Pull(ph: Physics, ps: seq<Particle>, i: int, k: int, horizontal: bool): real
  {
    if 0 <= i < |ps| && 0 <= k < |ps| && Interacts(ph, ps[i], ps[k]) then
      (if horizontal then Force(ph, ps[i], ps[k]).0 else Force(ph, ps[i], ps[k]).1)
    else 0.0
  }

  /** The force component on particle i summed over a list of partners, repeats included. */
  function ForceSum(ph: Physics, ps: seq<Particle>, i: int, ks: seq<int>, horizontal: bool): real
  {
    if ks == [] then 0.0
    else ForceSum(ph, ps, i, ks[..|ks| - 1], horizontal) + Pull(ph, ps, i, ks[|ks| - 1], horizontal)
  }

  /** Reference definition: the force component on particle i from every particle k < m, the all-pairs loop. */
  function BruteForce(ph: Physics, ps: seq<Particle>, i: int, m: nat, horizontal: bool): real
  {
    if m == 0 then 0.0 else BruteForce(ph, ps, i, m - 1, horizontal) + Pull(ph, ps, i, m - 1, horizontal)
  }

  /** The force depends only on positions. */
  lemma PullPositions(ph: Physics, ps: seq<Particle>, qs: seq<Particle>, i: int, k: int, horizontal: bool)
    requires SameKinematics(ps, qs)
    ensures Pull(ph, ps, i, k, horizontal) == Pull(ph, qs, i, k, horizontal)
  {
    if 0 <= i < |ps| && 0 <= k < |ps| {
      var p, q, p', q' := ps[i], ps[k], qs[i], qs[k];
      assert p.x == p'.x && p.y == p'.y && q.x == q'.x && q.y == q'.y;
      var r2 := ClampR2(ph, Dist2(p, q));
      assert r2 == ClampR2(ph, Dist2(p', q'));
      assert ph.law(r2) * (q.x - p.x) == ph.law(r2) * (q'.x - p'.x);
      assert ph.law(r2) * (q.y - p.y) == ph.law(r2) * (q'.y - p'.y);
    }
  }

  lemma {:induction false} ForceSumPositions(ph: Physics, ps: seq<Particle>, qs: seq<Particle>, i: int, ks: seq<int>, horizontal: bool)
    requires SameKinematics(ps, qs)
    ensures ForceSum(ph, ps, i, ks, horizontal) == ForceSum(ph, qs, i, ks, horizontal)
  {
    if ks != [] {
      ForceSumPositions(ph, ps, qs, i, ks[..|ks| - 1], horizontal);
      PullPositions(ph, ps, qs, i, ks[|ks| - 1], horizontal);
    }
  }

  /**
   The kicks of a partner list change particle i only, and add to its
   acceleration exactly the summed force of the partners within the cutoff.
   */
  lemma {:induction false} ScanKicksEffect(ph: Physics, ps: seq<Particle>, i: int, ks: seq<int>)
    requires 0 <= i < |ps|
    ensures var r := ScanKicks(ph, ps, i, ks);
      && SameKinematics(r, ps)
      && (forall m :: 0 <= m < |ps| && m != i ==> r[m] == ps[m])
      && r[i].ax == ps[i].ax + ForceSum(ph, ps, i, ks, true)
      && r[i].ay == ps[i].ay + ForceSum(ph, ps, i, ks, false)
  {
    if ks != [] {
      var init := ks[..|ks| - 1];
      var k := ks[|ks| - 1];
      ScanKicksEffect(ph, ps, i, init);
      var before := ScanKicks(ph, ps, i, init);
      if 0 <= k < |before| {
        AsymmetricKickEffect(ph, before, i, k);
        PullPositions(ph, before, ps, i, k, true);
        PullPositions(ph, before, ps, i, k, false);
      }
    }
  }

  // ---------------------------------------------------------------------
  // From the partner list to the brute-force sum

  /** Each particle k < m weighted by how often it occurs in ks. */
  function CountSum(ph: Physics, ps: seq<Particle>, i: int, ks: seq<int>, m: nat, horizontal: bool): real
  {
    if m == 0 then 0.0
    else CountSum(ph, ps, i, ks, m - 1, horizontal) + Times(multiset(ks)[m - 1], Pull(ph, ps, i, m - 1, horizontal))
  }

  /** c copies of p added up. */
  function Times(c: nat, p: real): real
  {
    if c == 0 then 0.0 else Times(c - 1, p) + p
  }

  lemma {:induction false} TimesZero(c: nat)
    ensures Times(c, 0.0) == 0.0
  {
    if c > 0 {
      TimesZero(c - 1);
    }
  }

  lemma {:induction false} CountSumSnoc(ph: Physics, ps: seq<Particle>, i: int, ks: seq<int>, e: int, m: nat, horizontal: bool)
    ensures CountSum(ph, ps, i, ks + [e], m, horizontal) ==
            CountSum(ph, ps, i, ks, m, horizontal) + (if 0 <= e < m then Pull(ph, ps, i, e, horizontal) else 0.0)
  {
    if m > 0 {
      CountSumSnoc(ph, ps, i, ks, e, m - 1, horizontal);
      MultisetSnoc(ks, e, m - 1);
    }
  }

  lemma MultisetSnoc(ks: seq<int>, e: int, k: int)
    ensures multiset(ks + [e])[k] == multiset(ks)[k] + (if k == e then 1 else 0)
  {
    assert multiset(ks + [e]) == multiset(ks) + multiset{e};
  }

  /** Summing over the list is summing each particle weighted by its number of occurrences. */
  lemma {:induction false} ForceSumCounts(ph: Physics, ps: seq<Particle>, i: int, ks: seq<int>, horizontal: bool)
    ensures ForceSum(ph, ps, i, ks, horizontal) == CountSum(ph, ps, i, ks, |ps|, horizontal)
  {
    if ks == [] {
      CountSumEmpty(ph, ps, i, |ps|, horizontal);
    } else {
      var init := ks[..|ks| - 1];
      ForceSumCounts(ph, ps, i, init, horizontal);
      assert ks == init + [ks[|ks| - 1]];
      CountSumSnoc(ph, ps, i, init, ks[|ks| - 1], |ps|, horizontal);
    }
  }

  lemma {:induction false} CountSumEmpty(ph: Physics, ps: seq<Particle>, i: int, m: nat, horizontal: bool)
    ensures CountSum(ph, ps, i, [], m, horizontal) == 0.0
  {
    if m > 0 {
      CountSumEmpty(ph, ps, i, m - 1, horizontal);
    }
  }

  /**
   A list that holds every interacting particle other than i exactly once sums
   to the brute-force force. How often i itself occurs does not matter: its
   own term is zero.
   */
  lemma {:induction false} CountSumBrute(ph: Physics, ps: seq<Particle>, i: int, ks: seq<int>, m: nat, horizontal: bool)
    requires 0 <= i < |ps| && m <= |ps|
    requires forall k :: 0 <= k < m && k != i && Interacts(ph, ps[i], ps[k]) ==> multiset(ks)[k] == 1
    ensures CountSum(ph, ps, i, ks, m, horizontal) == BruteForce(ph, ps, i, m, horizontal)
  {
    if m > 0 {
      CountSumBrute(ph, ps, i, ks, m - 1, horizontal);
      var c, p := multiset(ks)[m - 1], Pull(ph, ps, i, m - 1, horizontal);
      if m - 1 != i && Interacts(ph, ps[i], ps[m - 1]) {
        assert c == 1 && Times(1, p) == Times(0, p) + p;
      } else {
        if m - 1 == i {
          CoincidentForceZero(ph, ps[i], ps[i]);
        }
        assert p == 0.0;
        TimesZero(c);
      }
    }
  }

  // ---------------------------------------------------------------------
  // The partner list of a particle

  /** With the cells holding exactly their particles, each particle occurs in the partner list once if its cell is scanned, else never. */
  lemma {:induction false} PartnersCount(cs: seq<Cell>, cells: seq<int>, ps: seq<Particle>, cellSize: real, nx: int, k: int)
    requires cellSize > 0.0 && CellsOk(cs) && Distinct(cells)
    requires forall c :: c in cells ==> 0 <= c < |cs|
    requires forall c :: 0 <= c < |cs| ==> Members(cs[c]) == Bucket(ps, cellSize, nx, c, |ps|)
    ensures multiset(Partners(cs, cells))[k] == if 0 <= k < |ps| && CellOf(ps[k], cellSize, nx) in cells then 1 else 0
  {
    if cells != [] {
      var c := cells[|cells| - 1];
      var init := cells[..|cells| - 1];
      assert cells == init + [c];
      assert c in cells && forall d :: d in init ==> d in cells;
      LastNotInInit(cells);
      PartnersCount(cs, init, ps, cellSize, nx, k);
      var b := Bucket(ps, cellSize, nx, c, |ps|);
      BucketOccurrence(ps, cellSize, nx, c, |ps|, k);
      assert Partners(cs, cells) == Partners(cs, init) + b;
      assert multiset(Partners(cs, cells))[k] == multiset(Partners(cs, init))[k] + multiset(b)[k];
    }
  }

  /** The last element of a distinct sequence does not occur before it, and the rest stays distinct. */
  lemma LastNotInInit<T>(s: seq<T>)
    requires Distinct(s) && s != []
    ensures s[|s| - 1] !in s[..|s| - 1] && Distinct(s[..|s| - 1])
  {
    var init := s[..|s| - 1];
    forall a | 0 <= a < |init| ensures init[a] != s[|s| - 1] {
      assert init[a] == s[a];
    }
  }

  /**
   Grid correctness for the scan: with the cells holding exactly their
   particles, particle k occurs among p's partners exactly once if its cell is
   in the 3x3 block around p's cell, and not at all otherwise.
   */
  lemma PartnersOfSpec(cs: seq<Cell>, ps: seq<Particle>, nx: int, ny: int, cellSize: real, p: Particle, k: int)
    requires cellSize > 0.0 && nx > 0 && CellsOk(cs) && |cs| == CellCount(nx, ny)
    requires forall c :: 0 <= c < |cs| ==> Members(cs[c]) == Bucket(ps, cellSize, nx, c, |ps|)
    ensures multiset(PartnersOf(cs, nx, ny, cellSize, p))[k] ==
      if 0 <= k < |ps| && InBlock(nx, ny, CellCoord(p.x, cellSize), CellCoord(p.y, cellSize), CellOf(ps[k], cellSize, nx))
      then 1 else 0
  {
    var cx, cy := CellCoord(p.x, cellSize), CellCoord(p.y, cellSize);
    ScanCellsSpec(nx, ny, cx, cy);
    PartnersCount(cs, ScanCells(nx, ny, cx, cy), ps, cellSize, nx, k);
  }

  /**
   No interaction is missed: in the domain, with the cell side at least the
   cutoff, every particle within the cutoff of particle i (i itself included)
   occurs exactly once among i's partners.
   */
  lemma InteractingPartnerOnce(ph: Physics, cs: seq<Cell>, ps: seq<Particle>, size: real, cellSize: real, i: int, k: int)
    requires 0.0 < ph.cutoff <= cellSize && size >= 0.0 && AllInDomain(ps, size)
    requires var n := GridDim(size, cellSize);
      && CellsOk(cs) && |cs| == CellCount(n, n)
      && forall c :: 0 <= c < |cs| ==> Members(cs[c]) == Bucket(ps, cellSize, n, c, |ps|)
    requires 0 <= i < |ps| && 0 <= k < |ps| && Interacts(ph, ps[i], ps[k])
    ensures multiset(PartnersOf(cs, GridDim(size, cellSize), GridDim(size, cellSize), cellSize, ps[i]))[k] == 1
  {
    var n := GridDim(size, cellSize);
    assert InDomain(ps[i], size) && InDomain(ps[k], size);
    InteractingCellInBlock(ph, ps[i], ps[k], size, cellSize);
    PartnersOfSpec(cs, ps, n, n, cellSize, ps[i], k);
  }

  /** A particle within the cutoff of p lies in the 3x3 block of cells around p's cell. */
  lemma InteractingCellInBlock(ph: Physics, p: Particle, q: Particle, size: real, cellSize: real)
    requires 0.0 < ph.cutoff <= cellSize && InDomain(p, size) && InDomain(q, size)
    requires Interacts(ph, p, q)
    ensures var n := GridDim(size, cellSize);
      InBlock(n, n, CellCoord(p.x, cellSize), CellCoord(p.y, cellSize), CellOf(q, cellSize, n))
  {
    var n := GridDim(size, cellSize);
    InteractingPositionsAdjacent(p.x, p.y, q.x, q.y, size, cellSize, ph.cutoff);
    CoordInGrid(p.x, size, cellSize);
    CoordInGrid(p.y, size, cellSize);
    CoordsOfIndex(CellCoord(p.x, cellSize), CellCoord(p.y, cellSize), n);
  }

  /**
   The scan computes the exact force: under the grid conditions the summed
   force over i's partners equals the brute-force sum over all particles.
   */
  lemma ScanForceExact(ph: Physics, cs: seq<Cell>, ps: seq<Particle>, size: real, cellSize: real, i: int, horizontal: bool)
    requires 0.0 < ph.cutoff <= cellSize && size >= 0.0 && AllInDomain(ps, size)
    requires var n := GridDim(size, cellSize);
      && CellsOk(cs) && |cs| == CellCount(n, n)
      && forall c :: 0 <= c < |cs| ==> Members(cs[c]) == Bucket(ps, cellSize, n, c, |ps|)
    requires 0 <= i < |ps|
    ensures var n := GridDim(size, cellSize);
      ForceSum(ph, ps, i, PartnersOf(cs, n, n, cellSize, ps[i]), horizontal) == BruteForce(ph, ps, i, |ps|, horizontal)
  {
    var n := GridDim(size, cellSize);
    var ks := PartnersOf(cs, n, n, cellSize, ps[i]);
    forall k | 0 <= k < |ps| && Interacts(ph, ps[i], ps[k]) ensures multiset(ks)[k] == 1 {
      InteractingPartnerOnce(ph, cs, ps, size, cellSize, i, k);
    }
    ForceSumCounts(ph, ps, i, ks, horizontal);
    CountSumBrute(ph, ps, i, ks, |ps|, horizontal);
  }

  // ---------------------------------------------------------------------
  // The whole force phase

  /** Processing particle i: zero its acceleration, then apply the partners of its cell. */
  function ScanStep(ph: Physics, ps: seq<Particle>, cs: seq<Cell>, nx: int, ny: int, cellSize: real, i: int): (r: seq<Particle>)
    requires CellsOk(cs) && |cs| == CellCount(nx, ny) && cellSize > 0.0 && 0 <= i < |ps|
    ensures |r| == |ps|
  {
    ScanKicks(ph, ps[i := ZeroAccel(ps[i])], i, PartnersOf(cs, nx, ny, cellSize, ps[i]))
  }

  /** The "Compute forces" loop run over the particles below m. */
  function ScanForces(ph: Physics, ps: seq<Particle>, cs: seq<Cell>, nx: int, ny: int, cellSize: real, m: nat): (r: seq<Particle>)
    requires CellsOk(cs) && |cs| == CellCount(nx, ny) && cellSize > 0.0 && m <= |ps|
    ensures |r| == |ps|
  {
    if m == 0 then ps else ScanStep(ph, ScanForces(ph, ps, cs, nx, ny, cellSize, m - 1), cs, nx, ny, cellSize, m - 1)
  }

  /**
   After the loop over the particles below m, each of them holds, as its
   acceleration, the summed force of its partners; the others are untouched,
   and no position or velocity changes.
   */
  lemma {:induction false} ScanForcesEffect(ph: Physics, ps: seq<Particle>, cs: seq<Cell>, nx: int, ny: int, cellSize: real, m: nat)
    requires CellsOk(cs) && |cs| == CellCount(nx, ny) && cellSize > 0.0 && m <= |ps|
    ensures var r := ScanForces(ph, ps, cs, nx, ny, cellSize, m);
      && SameKinematics(r, ps)
      && (forall k :: m <= k < |ps| ==> r[k] == ps[k])
      && (forall k :: 0 <= k < m ==>
            r[k].ax == ForceSum(ph, ps, k, PartnersOf(cs, nx, ny, cellSize, ps[k]), true) &&
            r[k].ay == ForceSum(ph, ps, k, PartnersOf(cs, nx, ny, cellSize, ps[k]), false))
  {
    if m > 0 {
      var i := m - 1;
      ScanForcesEffect(ph, ps, cs, nx, ny, cellSize, i);
      var cur := ScanForces(ph, ps, cs, nx, ny, cellSize, i);
      var ps1 := cur[i := ZeroAccel(cur[i])];
      assert cur[i].x == ps[i].x && cur[i].y == ps[i].y;
      var ks := PartnersOf(cs, nx, ny, cellSize, ps[i]);
      assert ks == PartnersOf(cs, nx, ny, cellSize, cur[i]);
      var r := ScanForces(ph, ps, cs, nx, ny, cellSize, m);
      assert r == ScanKicks(ph, ps1, i, ks);
      ScanKicksEffect(ph, ps1, i, ks);
      ForceSumPositions(ph, ps1, ps, i, ks, true);
      ForceSumPositions(ph, ps1, ps, i, ks, false);
      forall k | 0 <= k < m
        ensures r[k].ax == ForceSum(ph, ps, k, PartnersOf(cs, nx, ny, cellSize, ps[k]), true)
        ensures r[k].ay == ForceSum(ph, ps, k, PartnersOf(cs, nx, ny, cellSize, ps[k]), false)
      {
        if k < i {
          assert r[k] == cur[k];
        }
      }
    }
  }

  /**
   The "Compute forces" loop over all particles computes, for every particle,
   the brute-force force of all particles within the cutoff.
   */
  lemma ScanForcesExact(ph: Physics, cs: seq<Cell>, ps: seq<Particle>, size: real, cellSize: real, i: int)
    requires 0.0 < ph.cutoff <= cellSize && size >= 0.0 && AllInDomain(ps, size)
    requires var n := GridDim(size, cellSize);
      && CellsOk(cs) && |cs| == CellCount(n, n)
      && forall c :: 0 <= c < |cs| ==> Members(cs[c]) == Bucket(ps, cellSize, n, c, |ps|)
    requires 0 <= i < |ps|
    ensures var n := GridDim(size, cellSize);
      var r := ScanForces(ph, ps, cs, n, n, cellSize, |ps|);
      && SameKinematics(r, ps)
      && r[i].ax == BruteForce(ph, ps, i, |ps|, true)
      && r[i].ay == BruteForce(ph, ps, i, |ps|, false)
  {
    var n := GridDim(size, cellSize);
    ScanForcesEffect(ph, ps, cs, n, n, cellSize, |ps|);
    ScanForceExact(ph, cs, ps, size, cellSize, i, true);
    ScanForceExact(ph, cs, ps, size, cellSize, i, false);
  }
}

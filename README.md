# Cell-list particle simulation: a verified model

This project models the spatial-grid ("cell list") core of a 2-D short-range
particle simulation. The simulation comes in four near-duplicate variants:

- **Half-neighbourhood variants** (`openmp_v3.cpp` with `MAX_PER_CELL` 24,
  `serial_optimized_v2.cpp` with `MAX_PER_CELL` 8).
  - Cells are fixed-capacity arrays that silently drop insertions into a full cell.
  - `init_simulation` precomputes, for every cell i, the list of equal-or-adjacent cells j >= i.
  - The force phase walks those lists with the symmetric kernel, which adds +f to one
    particle and -f to the other.
  - Class `FixedGrid.Grid`, parametrised by `FixedGrid.Variant`.
- **3x3-scan variants** (`serial_optimized.cpp`, `openmp_critical.cpp`).
  - Cells are growable vectors whose slots are reused from step to step and never shrink.
  - The force phase scans, for every particle, the in-bounds cells of the 3x3 block
    around its cell with the asymmetric kernel, which updates only the subject particle.
  - Class `ScanGrid.Grid`.

Shared pieces live in their own modules:

- `Geometry`: grid geometry: truncation, `nx = (int)(size / cell_size) + 1`, row-major `cell_index`.
- `Particles`, `Forces`: the particle record and both force kernels.
- `Integrator`: `move` and its wall-reflection loop.
- `Cells`: both cell representations.
- `Binning`: what population records.
- `Neighbors`: the half-neighbourhood lists.
- `HalfTraversal`: the half-neighbourhood force phase as a sequence of slot pairs.
- `FixedCoverage`: the particle-level consequences of the half-neighbourhood traversal.
- `HalfForces`: the accelerations the half-neighbourhood force phase computes.
- `Scan`: the 3x3 scan as values.

Every step of `simulate_one_step` is an imperative method, and each is proved
against a pure specification function:

- reset the cells;
- add the particles to the cells;
- reset the accelerations;
- apply the forces;
- move the particles.

The main results:

- **Grid.** Every position of the domain lands in a valid cell. With a cell side
  of at least the cutoff, two interacting particles land in equal or 8-adjacent cells.
- **Population.**
  - A growable cell records exactly its particles, in index order. So does a fixed
    cell that receives at most `MAX_PER_CELL` particles (`FixedCoverage.NoOverflowExact`).
  - With exact cells, each particle index is recorded exactly once, in its own cell,
    and the cell sizes add up to the particle count.
  - A fixed cell keeps the first `MAX_PER_CELL` of its particles. When more
    arrive, the first one that did not fit is in no cell (`FixedCoverage.OverflowDrops`).
  - A growable cell's vector grows only as far as needed.
- **Half-neighbourhood lists.** The built list is exactly the equal-or-adjacent cells
  j >= i, strictly increasing. For adjacent a < b, b is listed for a and a is not listed for b.
- **Half-neighbourhood force phase.**
  - Every unordered pair of distinct occupied slots in equal or adjacent cells is
    visited exactly once, and no slot is paired with itself.
  - While no cell overflows, every pair of distinct interacting particles is handed
    to the kernel exactly once.
  - While no cell overflows, every particle ends the phase with the brute-force sum
    of the forces of all particles within the cutoff (`HalfForces.HalfForcesExact`).
    This is the acceleration the 3x3 scan computes.
  - The total acceleration is conserved.
- **3x3 scan.**
  - Each in-bounds cell of the block is scanned once.
  - The acceleration each particle ends with equals the brute-force sum of the forces
    of all particles within the cutoff, each counted once (`Scan.ScanForcesExact`).
- **Move.** The reflection loop terminates and leaves every coordinate in `[0, size]`.
  The result is the unique in-domain mirror image of the drifted coordinate, with the
  velocity component negated once per reflection.

## Model

| member | source | states |
|---|---|---|
| `Geometry.Trunc` | openmp_v3.cpp:29-30 | `(int)` truncates toward zero: for non-negative r the result t satisfies t <= r < t + 1, for negative r it satisfies t - 1 < r <= t |
| `Geometry.GridDim` | openmp_v3.cpp:99-100 | `(int)(size / cell_size) + 1` is at least 1, and the grid of that many cells per axis just covers [0, size] |
| `Geometry.CoordInGrid` | openmp_v3.cpp:29-30 | a coordinate in [0, size] has a cell coordinate in [0, nx) |
| `Geometry.CellIndexInRange` | openmp_v3.cpp:25 | `cy * nx + cx` of in-bounds coordinates lies in [0, nx * ny) |
| `Geometry.MulIsProduct` | openmp_v3.cpp:25 | the repeated-addition product used for `cy * nx` and `nx * ny` is the integer product |
| `Geometry.CoordsOfIndex` | openmp_v3.cpp:25 | column and row of `cy * nx + cx` recover cx and cy |
| `Geometry.IndexOfCoords` | openmp_v3.cpp:31 | every index in [0, nx * ny) is the cell index of in-bounds coordinates |
| `Geometry.CellIndexInjective` | openmp_v3.cpp:116 | distinct in-bounds coordinates have distinct cell indices |
| `Geometry.PositionInGrid` | openmp_v3.cpp:28-31 | every position of the domain lies in one of the nx * nx cells |
| `Geometry.CloseCoordsNear` | serial_optimized_v2.cpp:26-27 | two coordinates at most a cell side apart have cell coordinates differing by at most one |
| `Geometry.InteractingPositionsAdjacent` | serial_optimized_v2.cpp:85-87 | with cell side >= cutoff, two in-domain positions with r2 <= cutoff^2 lie in equal or 8-adjacent cells |
| `Particles.ZeroAccel` | openmp_v3.cpp:153-154 | zeroes both accelerations and keeps position and velocity |
| `Forces.Dist2` | openmp_v3.cpp:48-50 | r2 is non-negative |
| `Forces.ClampR2` | openmp_v3.cpp:56 | `fmax`: the result is at least r2 and min_r^2 and equals one of them |
| `Forces.Dist2Symmetric` | serial_optimized_v2.cpp:43-45 | r2 does not depend on the order of the pair |
| `Forces.ForceAntisymmetric` | openmp_v3.cpp:53-61 | interaction is symmetric, and the force q receives from p is the negation of the one p receives from q |
| `Forces.CoincidentForceZero` | serial_optimized.cpp:38-52 | a particle at the same position contributes exactly zero force |
| `Forces.SymmetricKickConserves` | openmp_v3.cpp:60-69 | the symmetric kernel conserves the total acceleration on each axis |
| `Forces.SymmetricKickEffect` | openmp_v3.cpp:53-69 | beyond the cutoff nothing changes; otherwise parts[i] gains the force and parts[j] loses it, so p2's change is the exact negation of p1's, and no other particle, position or velocity changes |
| `Forces.SymmetricKickKinematics` | serial_optimized_v2.cpp:57-60 | the symmetric kernel changes accelerations only |
| `Forces.AsymmetricKickEffect` | serial_optimized.cpp:36-53 | the asymmetric kernel changes only the subject's acceleration, by the force, and nothing beyond the cutoff |
| `Forces.SelfKickNoOp` | serial_optimized.cpp:126-128 | the self-call `apply_force(parts[i], parts[i])` of the scan leaves every particle unchanged |
| `Forces.ApplySymmetricForce` | openmp_v3.cpp:46-70 | the array after the call is the symmetric kernel applied to the array before it |
| `Forces.ApplyAsymmetricForce` | openmp_critical.cpp:42-56 | the array after the call is the asymmetric kernel applied to the array before it |
| `Integrator.MirrorShrinksRounds` | openmp_v3.cpp:81-84 | each reflection of an outside coordinate strictly decreases the loop's termination measure |
| `Integrator.ReflectInDomain` | serial_optimized_v2.cpp:72-80 | the reflection loop leaves the coordinate in [0, size] |
| `Integrator.ReflectIsImage` | openmp_v3.cpp:86-89 | the result is `+-x + 2k size`, with the velocity negated exactly for the odd images |
| `Integrator.ImageInDomainUnique` | serial_optimized.cpp:65-73 | at most one mirror image of a coordinate lies in [0, size], so the loop's result is determined |
| `Integrator.ReflectInside` | openmp_critical.cpp:64-67 | an in-domain coordinate is left alone, velocity unchanged |
| `Integrator.ReflectPastFarWall` | openmp_critical.cpp:68-71 | a coordinate just past the far wall returns as `2 size - x` with the velocity negated |
| `Integrator.ReflectTwoWidths` | serial_optimized.cpp:70-73 | a coordinate two widths out needs two reflections and keeps its velocity |
| `Integrator.Bounce` | openmp_v3.cpp:81-84 | the while loop computes the reflection, ends in [0, size] and at a mirror image of its start |
| `Integrator.MovedInDomain` | serial_optimized_v2.cpp:63-81 | `move` leaves the particle in the domain and keeps its acceleration |
| `Integrator.Move` | openmp_v3.cpp:72-90 | `move(parts[i])` replaces parts[i] by its moved state and changes nothing else |
| `Integrator.MoveAll` | openmp_v3.cpp:183-186 | the "Move particles" loop moves every particle, and all end in the domain |
| `Cells.Reset` | serial_optimized.cpp:94-97 | resetting keeps the backing slots and empties the live prefix |
| `Cells.AddFixed` | openmp_v3.cpp:33-42 | below capacity the index becomes the last member, the size grows by one and no other slot changes; a full cell is unchanged; capacity is never exceeded |
| `Cells.AddGrowable` | serial_optimized.cpp:25-32 | the index always becomes the last member; the vector grows by one exactly when every slot was live; other slots are untouched |
| `Cells.Clip` | serial_optimized_v2.cpp:32-37 | what a fixed cell keeps: the first cap insertions, all of them when there are at most cap |
| `Cells.AddFixedClips` | openmp_v3.cpp:35-41 | inserting into a fixed cell keeps its members equal to the clipped sequence of insertions |
| `SeqFacts.IncreasingUnique` | openmp_v3.cpp:113-132 | two strictly increasing lists with the same elements are equal (how the built list is identified) |
| `Binning.BucketMembers` | openmp_v3.cpp:144-148 | a cell records exactly the particles below n whose position lies in it |
| `Binning.BucketBelow` | openmp_v3.cpp:144-148 | every index a cell records after inserting the particles below n is itself below n |
| `Binning.BucketIncreasing` | serial_optimized.cpp:100-102 | a cell records its particles in increasing index order, without repeats |
| `Binning.BucketOccurrence` | openmp_critical.cpp:102-105 | each particle index occurs once in its own cell and never in another |
| `Binning.TotalRecordedStep` | serial_optimized_v2.cpp:136-138 | inserting one particle adds one to the sizes of exactly one cell |
| `Binning.SizesSumToCount` | serial_optimized.cpp:99-102 | when every particle lies in the grid, the cell sizes add up to `num_parts` |
| `Binning.CellsInGrid` | openmp_v3.cpp:145-148 | every in-domain particle's cell is a valid cell index |
| `Neighbors.HalfListSpec` | openmp_v3.cpp:117-130 | cell i's list is exactly the in-bounds cells with column and row within one of i's and index >= i, strictly increasing and without repeats |
| `Neighbors.HalfListHasSelf` | openmp_v3.cpp:126-128 | every cell's list contains the cell itself |
| `Neighbors.PairListedOnce` | openmp_v3.cpp:126-128 | for equal-or-adjacent cells a < b, b is listed for a and a is not listed for b |
| `Neighbors.HalfListInGrid` | serial_optimized_v2.cpp:112-115 | every listed cell is a valid cell index at least i and adjacent to i |
| `Neighbors.VisitStep` | serial_optimized_v2.cpp:107-116 | one dx iteration adds exactly its in-bounds candidate at or above i |
| `Neighbors.CollectNeighbors` | serial_optimized_v2.cpp:102-117 | the dy/dx loops for one cell push exactly the reference half list |
| `HalfTraversal.RowSpec` | openmp_v3.cpp:167-169 | the inner idx2 loop visits each pair (idx1, idx2) with lo <= idx2 < hi once |
| `HalfTraversal.BlockSpec` | openmp_v3.cpp:164-177 | the two loops for (c1, c2) visit each slot pair once, idx2 after idx1 in the same cell and from 0 across cells |
| `HalfTraversal.VisitsSpec` | openmp_v3.cpp:161-179 | the loop over cell i's list visits the slot pairs of i against each listed cell, none twice |
| `HalfTraversal.StepSlotsSpec` | openmp_v3.cpp:159-180 | the whole force phase visits exactly the slot pairs of each cell against its listed cells, none twice |
| `HalfTraversal.HalfStepSlots` | serial_optimized_v2.cpp:147-169 | with the built lists, the force phase visits exactly the occupied slot pairs of equal-or-adjacent cells c1 <= c2, the second slot after the first in the same cell, none twice |
| `HalfTraversal.NoSelfPair` | serial_optimized_v2.cpp:155-157 | no slot is ever paired with itself |
| `HalfTraversal.EachSlotPairOnce` | openmp_v3.cpp:151-180 | each unordered pair of distinct occupied slots in equal or adjacent cells is visited exactly once, in exactly one of its orders |
| `HalfTraversal.SlotKicksAppend` | openmp_v3.cpp:161 | applying two runs of slot pairs in turn is applying their concatenation |
| `HalfTraversal.SlotKicksConserve` | serial_optimized_v2.cpp:146-169 | the force phase conserves the total acceleration |
| `HalfTraversal.SlotKicksKinematics` | openmp_v3.cpp:158-180 | the force phase changes no position or velocity |
| `HalfTraversal.StepSlotsResolvable` | openmp_v3.cpp:168 | every visited slot is live and holds a particle index, so the kernel is always applied |
| `FixedGrid.CellSizeFor` | openmp_v3.cpp:94-98 | 5 cutoffs above 300000 particles and 2.5 otherwise in openmp_v3, 2.5 in serial_optimized_v2; never below the cutoff |
| `FixedGrid.BuildNeighbors` | openmp_v3.cpp:113-132 | `neighbors_for_cell[i]` is the reference half list of every cell i |
| `FixedGrid.ResetAccelerations` | openmp_v3.cpp:150-155 | every particle's acceleration becomes zero and nothing else changes |
| `FixedGrid.PopulatedIdsBelow` | serial_optimized_v2.cpp:136-138 | after population every live slot holds a valid particle index |
| `FixedGrid.ApplyCell` | openmp_v3.cpp:159-179 | one iteration of the loop over the cells extends the applied slot pairs by cell i's pairs against every entry of its list, in order |
| `FixedGrid.Grid.constructor` | openmp_v3.cpp:92-110 | the variant's cell side and `nx = ny = (int)(size / cell_size) + 1`, every cell empty, every neighbour list built |
| `FixedGrid.Grid.ResetCells` | openmp_v3.cpp:138-142 | every cell's size becomes 0, its slots unchanged |
| `FixedGrid.Grid.AddToCell` | openmp_v3.cpp:28-43 | exactly the particle's cell changes, by the fixed-capacity insertion |
| `FixedGrid.Grid.Populate` | openmp_v3.cpp:144-148 | each cell's members become its particles in index order, clipped at `MAX_PER_CELL` |
| `FixedGrid.ApplyRow` | serial_optimized_v2.cpp:163-165 | the idx2 loop applies the kernel along its row of slot pairs |
| `FixedGrid.ApplySlot` | openmp_v3.cpp:168 | one `apply_force` call on two recorded slots extends the applied slot pairs by exactly that pair |
| `FixedGrid.ApplyCellPair` | openmp_v3.cpp:164-178 | the loops for one list entry apply the kernel along that cell pair's slot pairs, in order |
| `FixedGrid.ApplySameCell` | openmp_v3.cpp:164-170 | the same-cell branch applies the kernel to every slot pair idx1 < idx2 of the cell, in loop order |
| `FixedGrid.ApplyCrossCells` | openmp_v3.cpp:171-178 | the cross-cell branch applies the kernel to every slot of one cell against every slot of the other, in loop order |
| `FixedGrid.ApplyNeighbor` | serial_optimized_v2.cpp:150-168 | one more list entry extends the applied slot pairs by its block |
| `FixedGrid.Grid.ApplyForces` | openmp_v3.cpp:157-180 | the particles after the force phase are the kernel applied along the whole visiting order |
| `FixedGrid.Grid.SimulateOneStep` | openmp_v3.cpp:135-187 | cells hold the clipped buckets of the starting positions, and each particle is the move of its force-phase state from zeroed accelerations, back in the domain; with cell side >= cutoff and no cell overflowing, every particle's force-phase acceleration is the brute-force sum over all particles |
| `FixedCoverage.NoOverflowExact` | serial_optimized_v2.cpp:32-37 | when no cell receives more than `MAX_PER_CELL` particles, nothing is dropped |
| `FixedCoverage.SlotIndex` | openmp_v3.cpp:36 | a recorded particle's slot holds it |
| `FixedCoverage.SlotUnique` | openmp_v3.cpp:33-37 | a particle occupies no live slot other than its own |
| `FixedCoverage.InteractingCellsAdjacent` | serial_optimized_v2.cpp:26-27 | two interacting in-domain particles are recorded in equal or 8-adjacent cells |
| `FixedCoverage.InteractingPairOnce` | openmp_v3.cpp:159-179 | without overflow, every pair of distinct particles within the cutoff is handed to the kernel exactly once, in one of its two orders |
| `FixedCoverage.OverflowDrops` | openmp_v3.cpp:38-41 | a cell that receives more than `MAX_PER_CELL` particles drops the first one that did not fit from every cell |
| `HalfForces.ForceSumAppend` | openmp_v3.cpp:62-69 | the forces added along two runs of kicks in turn are the forces added along their concatenation |
| `HalfForces.SymmetricKickShare` | openmp_v3.cpp:46-70 | one symmetric kick adds to particle i the force of the other particle when i is exactly one of the pair, and nothing otherwise |
| `HalfForces.SlotKicksShare` | openmp_v3.cpp:159-179 | along any run of slot pairs, a particle's acceleration grows by the summed force of the particles it is paired with |
| `HalfForces.SlotOtherCount` | serial_optimized_v2.cpp:155-166 | with exact cells, a live slot pair pairs particle i with particle k exactly when it is their slot pair in one of its two orders |
| `HalfForces.SlotPartnersCount` | openmp_v3.cpp:161-178 | with exact cells, particle i is paired with k as often as their slot pair is visited, in either order |
| `HalfForces.HalfForcesExact` | openmp_v3.cpp:150-180 | with the built lists, cell side >= cutoff and no cell dropping a particle, every particle ends the force phase with the brute-force force of all particles |
| `HalfForces.ForcePhaseExact` | serial_optimized_v2.cpp:136-169 | for cells filled by the fixed-capacity population, when no cell receives more than `MAX_PER_CELL` particles, both acceleration components are the brute-force sums |
| `Scan.ScanPrefixSpec` | serial_optimized.cpp:113-120 | the first q iterations of the dx/dy loops reach the distinct in-bounds cells of the block whose offset comes before q |
| `Scan.ScanCellsSpec` | serial_optimized.cpp:113-129 | the scan reaches each in-bounds cell of the 3x3 block exactly once and skips every other cell |
| `Scan.PartnersCount` | serial_optimized.cpp:126-128 | with exact cells, a particle occurs among the scanned members once if its cell is scanned and never otherwise |
| `Scan.PartnersOfSpec` | openmp_critical.cpp:114-126 | with exact cells, particle k is applied to the subject once if k's cell is in the subject's block, never otherwise |
| `Scan.ScanKicksEffect` | openmp_critical.cpp:122-124 | the kicks change only the subject, adding to its acceleration the summed force of its partners |
| `Scan.ForceSumCounts` | serial_optimized.cpp:126-128 | summing the force over the partner list is summing each particle's force by its number of occurrences |
| `Scan.CountSumBrute` | serial_optimized.cpp:105-131 | a list holding every interacting particle other than the subject exactly once sums to the all-pairs force; the subject's own term is zero |
| `Scan.InteractingCellInBlock` | openmp_critical.cpp:111-112 | with cell side >= cutoff, an interacting particle's cell lies in the subject's 3x3 block |
| `Scan.InteractingPartnerOnce` | serial_optimized.cpp:78-80 | with `cell_size = cutoff`, every particle within the cutoff, the subject included, is applied to it exactly once |
| `Scan.ScanForceExact` | serial_optimized.cpp:112-130 | the force summed over a particle's partners equals the brute-force force from all particles |
| `Scan.ScanForcesEffect` | openmp_critical.cpp:107-127 | after the loop over the particles below m each of them holds its partners' summed force; later particles and all positions and velocities are untouched |
| `Scan.ScanForcesExact` | serial_optimized.cpp:104-131 | the "Compute forces" loop leaves every particle with the exact brute-force acceleration |
| `ScanGrid.BucketedIdsBelow` | openmp_critical.cpp:122-124 | after population every live slot holds a valid particle index |
| `ScanGrid.Grid.constructor` | serial_optimized.cpp:76-90 | cell side `cutoff`, `nx = ny = (int)(size / cutoff) + 1`, every cell empty |
| `ScanGrid.Grid.ResetCells` | openmp_critical.cpp:97-100 | every cell's size becomes 0 and its vector is kept |
| `ScanGrid.Grid.AddToCell` | openmp_critical.cpp:24-40 | exactly the particle's cell changes, by the growable insertion |
| `ScanGrid.Grid.Populate` | serial_optimized.cpp:99-102 | each cell's members become exactly its particles in index order, and its vector reaches the larger of its old length and its member count |
| `ScanGrid.ScanCell` | serial_optimized.cpp:122-128 | the j loop applies every live member of the cell to the subject |
| `ScanGrid.ScanOffset` | openmp_critical.cpp:116-124 | one (dx, dy) iteration skips an out-of-bounds cell and scans an in-bounds one |
| `ScanGrid.ScanColumn` | serial_optimized.cpp:114-129 | the dy loop scans its column of the block |
| `ScanGrid.Grid.ScanParticle` | serial_optimized.cpp:106-130 | one iteration zeroes the subject's acceleration and applies all its partners |
| `ScanGrid.Grid.ComputeForces` | openmp_critical.cpp:107-127 | the particles after the loop are the scan specification applied to every particle in turn |
| `ScanGrid.Grid.SimulateOneStep` | serial_optimized.cpp:92-137 | cells hold exactly the particles of the starting positions, and each particle is the move of its scanned state, back in the domain |

## Left out

- Concurrency. The OpenMP locks, `atomic` updates, `critical` sections and
  parallel `for` scheduling are left out; every OpenMP loop is modelled as the
  sequential loop in index order.
- Floating point. Positions, velocities and accelerations are exact reals.
  - `sqrt`, the coefficient `(1 - cutoff / r) / r2 / mass` and `mass` enter only
    through the uninterpreted `law` of the clamped r2.
  - Rounding, and the order dependence of floating sums, are not modelled.
  - The brute-force equalities of `Scan` and `HalfForces` hold for exact sums only.
- `common.h` is not part of this model. `particle_t` becomes the `Particle`
  datatype, and `cutoff`, `min_r`, `mass` and `dt` are fields of `Physics`.
- Integer width: the cell and particle counts are unbounded integers, so
  overflow of `nx * ny` is not modelled.
- Memory: `new` without `delete`, `reserve(10)` (capacity is not observable)
  and the commented-out debug printouts are left out.
- Uninitialised memory: the slots of a freshly allocated fixed cell are zeros in the
  model, whereas C++ leaves them uninitialised. They are never read before written.
- The neighbour lists: each cell's list is built in a local sequence and stored
  once, instead of `push_back` directly into the array element. The pushes and their
  order are the same.
- `FixedGrid.Grid.SimulateOneStep` and `ScanGrid.Grid.SimulateOneStep` require the particles
  to start the step in the domain. That is the state `move` leaves them in, and every earlier step ensures it.
  The source relies on it for `cell_index` to stay in range.
- FixedGrid.Grid.SimulateOneStep: its brute-force clause covers only steps where no cell
  overflows. After an overflow the dropped particles' interactions are missing
  (`FixedCoverage.OverflowDrops`), and no value is stated for the accelerations.
- `HalfTraversal.SlotKicks` and `Scan.ScanKicks` would skip a slot or index that
  does not name a particle. `HalfTraversal.StepSlotsResolvable` and
  `ScanGrid.BucketedIdsBelow` show this never happens in the modelled steps.
- `FixedCoverage.InteractingPairOnce`, `HalfForces.HalfForcesExact` and `Scan.ScanForcesExact`
  assume that every particle is in the domain. With particles outside it the source would index outside
  the cell array.

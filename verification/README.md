# 2D excitable-tissue simulator: a Dafny model of its index logic

The program simulates a 2D sheet of excitable cardiac tissue on a flat
`xnum*ynum` grid (cell `(row, col)` at `row*ynum+col`). It samples the
voltage field onto a small set of output channels that drive PWM boards.
This project models the discrete part of that program and proves properties
of it:

- **Reference-pin addressing** (`Pins`). A 4×16 table maps a flat channel
  number to a (board, pin) pair. `findPin` and `findBoard` scan the table,
  and the last match wins.
- **Clamp-and-scale output maps** (`OutputMap`). `pwmmap` clamps a voltage to
  `[0, 1.25]` and scales it onto `[0, PWMrange]`. `smmap` is the inverted
  servo form.
- **Sample map** (`SampleMap`). The recurrence in `writeV` builds the grid
  indices of the sampled cells. The module also covers the channel-count
  guard in `main` and the exact write footprint of the fill loops.
- **Diffusion step structure** (`Diffusion`). It models the reflective-boundary
  passes and the two 5-point stencil passes that alternate between `v` and
  the scratch grid `tmp`. Cell values are generic. The stencil formula is a
  parameter `f(centre, north, south, west, east)`.
- **Field state and tick** (`Field`). It covers allocation and corner seeding,
  the per-cell reaction pass (with the ionic update as a parameter), and one
  tick.
- **Channel output** (`Output`). The output half of `writeV` maps each sampled
  voltage and resolves its reference pin. `WriteV` composes the validated
  channel count, the sample map and the output.

`Index` holds the shared row-major index `At(i, j, w) = i*w + j` and the
arithmetic facts about it. `Wrappers` holds `Option` and `Result`.

Facts about the code that the model makes explicit:

- The fill loop of `writeV` stays inside `cells` for every count with
  `numPins % isqrt(numPins) == 0`, for example 24 = 4·6, and not only for
  perfect squares (`SampleMap.FillFootprint`). Nothing in `writeV` itself
  refuses 24.
- On grids of at least 4×4 the old contents of the scratch grid `tmp` never
  reach the next `v` (`Diffusion.DiffusionIgnoresScratch`). When a
  dimension is 3, the boundary pass on `tmp` copies a cell the stencil did not
  write, so stale scratch values reach `v` (`Diffusion.ScratchLeaksOnNarrowGrid`).
- The mapped output is truncated to an integer, as the C conversion does.
  It is not the exact product.
- `#define numPins 25` (2Dcells.c:13) also renames the `numPins` parameter of
  `writeV`, so that line does not form valid C as written. The model treats
  `numPins` as a parameter and `cells` as an array of `numPins` entries. Like
  the C global, `cells` starts zeroed.
- `PWMrange` is not defined in the file. It is the parameter `range`; the
  board resolution `MAX_PWM` = 4096 (2Dcells.c:17) is its likely value.

## Model

| member | source | states |
|---|---|---|
| Pins.InitializePins | 2Dcells.c:58-64 | the table holds `16*i + j` at board `i`, pin `j`, for all 4×16 entries |
| Pins.FindPin | 2Dcells.c:25-35 | no result exactly when the pin occurs nowhere in the table; otherwise the pin index of the last matching entry in scan order; on the initialised table, `refPin % 16` for `refPin` in `[0, 64)` and no result outside |
| Pins.FindBoard | 2Dcells.c:37-47 | the same as `findPin`, for the board index: `refPin / 16` on the initialised table for `refPin` in `[0, 64)`, no result outside |
| Pins.ReferenceLastMatch | 2Dcells.c:25-64 | on the initialised table, entry (i, j) is the last match of `refPin` if and only if `refPin` is in `[0, 64)`, `i == refPin / 16` and `j == refPin % 16` |
| Pins.ReferenceOccurs | 2Dcells.c:58-64 | on the initialised table, a reference pin occurs if and only if it is in `[0, 64)` |
| Pins.PwmWrite | 2Dcells.c:50-55 | a write is produced exactly when the pin is in the table; its board and pin address a table entry equal to `refPin`, and that entry is the last match in scan order (the two scans agree on it); on the initialised table that is board `refPin / 16`, pin `refPin % 16` |
| OutputMap.ModeOf | 2Dcells.c:9-11 | mode numbers 1 and 2 select an output mode and no other number does; 1 is PWM |
| OutputMap.PwmMap | 2Dcells.c:67-74 | the result is in `[0, range]`; it is 0 for `val <= 0` and `range` for `val >= 1.25`; it is the largest integer `r` with `r*1.25 <= clamp(val)*range` |
| OutputMap.ScaledFloor | 2Dcells.c:67-74 | truncating `(c/1.25)*range` for a clamped `c` gives a value in `[0, range]` that is 0 at `c = 0`, `range` at `c = 1.25`, and the largest `r` with `r*1.25 <= c*range` |
| OutputMap.PwmMapMonotone | 2Dcells.c:67-74 | `pwmmap` is non-decreasing in the voltage |
| OutputMap.SmMap | 2Dcells.c:76-78 | the result is in `[0, range]`; it is `range` for `val <= 0` and 0 for `val >= 1.25`; it adds up with `pwmmap` to `range` |
| OutputMap.SmMapAntitone | 2Dcells.c:76-78 | `smmap` is non-increasing in the voltage |
| SampleMap.IntSqrt | 2Dcells.c:81 | the root `s` satisfies `s*s <= n < (s+1)*(s+1)` |
| SampleMap.GuardAsWritten | 2Dcells.c:137 | for a non-negative root of `n`, the guard as written fires exactly when the root is neither 0 nor 1 |
| SampleMap.GuardAsWrittenRejects | 2Dcells.c:137 | the guard as written fires if and only if the channel count is neither 0 nor 1 |
| SampleMap.GuardAsWrittenCounterexample | 2Dcells.c:137 | 25 is a perfect square that the guard as written rejects, and 0 passes the guard |
| SampleMap.ValidateChannelCount | 2Dcells.c:136-140 | accepts exactly the positive perfect squares and returns their root; any other count gives `NotPerfectSquare` |
| SampleMap.FillFootprint | 2Dcells.c:85-93 | the fill loops write slots 0, 1, 2, … in order, each once; they write at least `numPins` slots and stop within one row of `sr` past it, on a multiple of `sr`; every write lands inside `cells` if and only if `numPins >= 1` and `numPins % sr == 0` |
| SampleMap.PerfectSquareFillsExactly | 2Dcells.c:89-93 | for a positive perfect-square count the footprint is exactly `[0, numPins)` |
| SampleMap.BuildSampleMap | 2Dcells.c:81-93 | `sr*sr == numPins` and `factor == xnum / sr`; the map has `numPins` entries, `cells[k] == 1 + k*factor` on the first row, and `cells[r*sr+k] == cells[r]*ynum + cells[k]` for every later row; the map equals the closed form `SampleCells` over that root and factor |
| SampleMap.SampleMapCharacterised | 2Dcells.c:85-93 | a sequence satisfies the `writeV` recurrence (first row `1 + k*factor`, later entries `cells[r]*ynum + cells[k]`) if and only if it is the closed form: entry `r*sr+k` is `(1 + r*factor)*ynum + 1 + k*factor` for `r >= 1` |
| SampleMap.SampleMapCoordinates | 2Dcells.c:85-93 | when `1 + (sr-1)*factor` fits both dimensions, entry (r, k) is grid cell (0 or `1 + r*factor`, `1 + k*factor`), and that cell lies inside the grid |
| SampleMap.SampleMapInGrid | 2Dcells.c:85-99 | when the first row fits both dimensions, every entry is a valid index `[0, xnum*ynum)` of the field that `writeV` reads |
| SampleMap.SampleMapStrictlyIncreasing | 2Dcells.c:85-93 | when the map fits and `factor >= 1`, entries strictly increase in channel order, so no two channels sample one cell |
| SampleMap.SampleMapExample | 2Dcells.c:81-93 | with 25 channels on the 100×100 grid: first row 1, 21, 41, 61, 81; `cells[5] == 2101`; `cells[24] == 8181` |
| Diffusion.MirrorPass | 2Dcells.c:225-232 | the two loops leave every cell (i, j) holding the old cell (Reflect(i), Reflect(j)), where edge 0 takes line 2 and the far edge takes line `n-3` |
| Diffusion.MirrorEdges | 2Dcells.c:225-232 | after the boundary pass, rows 0 and `xnum-1` equal rows 2 and `xnum-3`, columns 0 and `ynum-1` equal columns 2 and `ynum-3`, and interior cells are unchanged |
| Diffusion.MirrorCharacterised | 2Dcells.c:225-232 | on grids of at least 4×4, a grid is the result of the boundary pass on `g` if and only if its edges reflect and its interior equals `g`'s |
| Diffusion.MirrorIdempotent | 2Dcells.c:225-232 | a property of the boundary pass itself: applying it to its own result changes nothing |
| Diffusion.MirrorReadsInterior | 2Dcells.c:239-246 | on grids of at least 4×4, the boundary pass reads only interior cells |
| Diffusion.StencilPass | 2Dcells.c:234-238 | the loops set each interior cell of the destination to `f` of its five-cell neighbourhood in the source; the outer ring keeps the destination's values |
| Diffusion.StencilFootprint | 2Dcells.c:248-252 | a stencil pass leaves the outer ring untouched; each written value depends only on the source's five-cell neighbourhood, not on the destination's old contents |
| Diffusion.DiffusionStep | 2Dcells.c:224-252 | after the step, the boundary ring of `v` is what the first boundary pass produced; interior `v` is the stencil over the new `tmp`; the new `tmp` has reflective edges |
| Diffusion.DiffusionKeepsUniform | 2Dcells.c:224-252 | on grids of at least 4×4, a field uniform on the interior at a fixed point of the stencil is uniform everywhere after a step, in `v` and in `tmp` |
| Diffusion.DiffusionIgnoresScratch | 2Dcells.c:224-252 | on grids of at least 4×4, the results of a step do not depend on the old contents of `tmp` |
| Diffusion.ScratchLeaksOnNarrowGrid | 2Dcells.c:239-250 | on a 3×3 grid, two scratch grids that differ in a cell the stencil pass does not write give different new `v` |
| Field.SeedBlockIsCorner | 2Dcells.c:166-170 | on rows at least 10 wide, the seeded positions are exactly rows 0-9 × columns 0-9 |
| Field.InitialField | 2Dcells.c:151-170 | `v`, `h`, `f`, `stim` and the scratch grid `tmp` have `xnum*ynum` cells; `tmp` is all zero; `h = 0.8`, `f = 0.5` and `stim = 0` everywhere; `v = 1` exactly on the seeded positions and 0 elsewhere |
| Field.RestingField | 2Dcells.c:158-163 | every one of the `num` cells starts at rest: `v = 0`, `h = 0.8`, `f = 0.5`, `stim = 0` |
| Field.SeedCorner | 2Dcells.c:166-170 | on a zeroed `v`, the two loops set exactly the positions `i*ynum + j` with `i, j < 10` to 1 and leave every other cell 0 |
| Field.ReactionPass | 2Dcells.c:189-217 | each cell's new `v`, `h` and `f` are the per-cell update of that cell's own old state; `stim` is unchanged |
| Field.Tick | 2Dcells.c:188-252 | the reaction pass changes `h` and `f`, and diffusion leaves them alone; `stim` is unchanged; the new `v` and `tmp` are exactly one diffusion step applied to the reacted voltages and the old `tmp`; so the boundary ring of the new `v` mirrors the reacted voltages and interior `v` is the stencil over the new `tmp` |
| Output.ChannelWrites | 2Dcells.c:95-111 | modes other than 1 and 2 give no writes; otherwise one write per sampled cell, each value in `[0, range]` |
| Output.EmitChannels | 2Dcells.c:95-111 | modes other than 1 and 2 write nothing; otherwise channel `c` writes to board `c / 16`, pin `c % 16`, with the mapped voltage of grid cell `cells[c]`, in `[0, range]`; the writes are exactly `ChannelWrites` |
| Output.WriteV | 2Dcells.c:80-113 | the C function checks nothing, so the model adds three refusals for what would be undefined behaviour (see "## Left out"): it refuses with `NotPerfectSquare` exactly the counts that are not positive perfect squares; its only other refusals are too many channels or a sample outside `v`; `TooManyChannels` exactly for positive perfect squares above 64; `SampleOutsideGrid` only when the sample map of the count's root has an entry outside `v`; it succeeds whenever the first row fits the grid; on success every sample lies inside `v` and the writes are exactly `ChannelWrites` over the sample map `SampleCells` of the count's unique root, so another mode writes nothing and each channel writes the mapped voltage of its sampled cell to board `c / 16`, pin `c % 16` |

## Left out

- Hardware setup (2Dcells.c:119-134), the `pca9685PWMWrite` device call and `delay`: foreign I/O. The writes are returned as values instead.
- `printf` logging (2Dcells.c:101, 108, 112, 120, 130, 138): console output only.
- The ionic current formulas (2Dcells.c:191-216: `pow`, `exp`, Euler updates): floating-point numerics. The per-cell update is the parameter `react` of `Field.ReactionPass`.
- The diffusion formula `dfu*dt/(dx*dx)/2` (2Dcells.c:236, 250) and any stability claim: floating-point numerics. The stencil is the parameter `f`/`lap`.
- `float` storage: voltages and gates are exact reals, so `h = 0.8` is exact here but not in the C arrays.
- The restart loop `while(1)`, `calloc`/`free`, the tick count `tmax/dt` and the print cadence `tn % 10` (2Dcells.c:145-186, 255-259): run control, not index logic. `Field.Tick` is one tick.
- OpenMP pragmas: the model is sequential. The phase order and the one-cell-per-iteration reaction pass are what make parallel execution safe.
- Floating-point rounding in `pwmmap` and in `sqrt`: `OutputMap.PwmMap` uses exact reals, and `SampleMap.IntSqrt` is the exact integer root. They agree with the doubles for the channel counts and ranges in use.
- How far the seed spreads in one tick: only the single-pass locality of `Diffusion.StencilFootprint` is stated.
- Output.WriteV: the C `writeV` makes none of the checks behind its three refusals. The perfect-square test lives in `main` (2Dcells.c:137). `writeV` reads `v[cells[c]]` without a bound, and above 64 channels it writes through the unassigned results of `findBoard`/`findPin`. The model refuses those configurations instead of modelling the undefined behaviour. Its success condition asks that the first row of the map fit both grid dimensions. That is sufficient for the map to stay inside `v` but not necessary. Other counts still succeed whenever every sampled cell lies inside `v`.
- 32-bit `int`: indices are unbounded integers here. Nothing wraps in the C code: under `SampleFits` every intermediate `cells[j]*ynum + cells[k]` stays below `xnum*ynum`. That product must itself fit in an `int` for the `calloc` at 2Dcells.c:151, and with 100×100 it is 10000.

## Findings

| source | as written | input that shows it | evidently intended | confidence | as-written member | corrected member |
|---|---|---|---|---|---|---|
| 2Dcells.c:137 | `sqrt(numPins)-floor(sqrt(numPins)!=0)` puts the comparison inside `floor` (and leaves the `if` one parenthesis short), so the test is `sqrt(n) - 1 != 0` for every positive `n` | `numPins = 25`, the program's own perfect-square count, is reported as not a perfect square and `main` exits; `numPins = 0` passes | reject the counts that are not perfect squares (`sqrt(n) - floor(sqrt(n)) != 0`); the corrected check also rejects 0, which that formula alone would accept, because with zero channels the fill loop of `writeV` still writes `cells[0]` | high; not executed | SampleMap.GuardAsWrittenCounterexample | SampleMap.ValidateChannelCount |

# Data-availability reconstruction model

This project models the reconstruction engine of a Monte Carlo simulator for
two-dimensional erasure-coded data availability. A logical k x k data square
is extended to a 2k x 2k coded square (`DataSquare`). Samplers reveal random
cells. A row or column with at least k known cells can be reconstructed
completely, and every cell this fills may push the crossing line over its own
threshold, so recovery cascades across the two axes. `Recover` sweeps all
lines until k rows or k columns are recovered, or until a sweep recovers
nothing.

The model is functional. A `DataSquare` is an immutable record: a
`seq<seq<bool>>` presence matrix, per-row and per-column counters, a running
total, and the recovered row and column index sets. Every operation returns
the new state; operations that report a boolean return a
`Step(sq, ok)`.

Files and modules:

- `sampling.dfy` (`Sampling`): the `Sample` coordinate and the rejection-sampling batch filler `FillUnique`. The random generator becomes an injected finite stream of draws.
- `counting.dfy` (`Counting`): reference definitions of "known cells in a line / column / matrix", with their lemmas.
- `grid.dfy` (`Grid`): the `DataSquare` record, its invariants (`Shaped`, `Consistent`, `LinesFull`, `Valid`), and the cell writers `NewDataSquare`, `Reset`, `AddSample` and `AddSamples`.
- `progress.dfy` (`Progress`): the relation `Extends` that every recovery step keeps between its input and its output, and the termination measure `Unrecovered`.
- `recovery.dfy` (`Recovery`): the mutually recursive `TryRecoverRow`/`TryRecoverCol`. The Go loops inside them become `FillRow`/`FillCol`, and each loop iteration becomes `CascadeCol`/`CascadeRow`. The module also holds `IsRecovered`, the sweep, the fixpoint loop and `Recover`.
- `recovery_facts.dfy` (`RecoveryFacts`): lemmas relating several operations.
- `completeness.dfy` (`Completeness`): one sweep over all indices from 0 leaves no line that can still be recovered. So `Recover` past the fast reject is one sweep followed by the recovered test, and its result is a fixpoint on both paths.
- `soundness.dfy` (`Soundness`): the upper bound of the cascade. Call a square closed when it is valid and no line in it can be recovered. Every recovery step started from a consistent square below a closed square stays below it. With the completeness of one sweep, `Recover` on a valid square past the fast reject computes the least closed square above its input.

Termination of the cascade is proved with the measure "number of unrecovered
rows plus unrecovered columns" (`Progress.Unrecovered`, at most 4k). Each
successful `TryRecoverRow`/`TryRecoverCol` lowers it. Inside one line's fill,
the measure never rises and the fill position advances. The outer fixpoint
loop also decreases on `Unrecovered`: a sweep that reports progress has
recovered at least one new line.

Each cascade step settles the lines it touches: every line whose counter
moved ends recovered or still short of k (`Progress.Settled`). From this, a
single sweep from index 0 already reaches a fixpoint. In the Go loop at
main.go:154-167, a second sweep therefore never recovers a line: it runs
only to observe that nothing changes.

The invariant `Valid` bundles three facts:

- the matrix is 2k x 2k;
- the counters equal the number of known cells in their row, in their column and in the whole matrix;
- every recovered line is fully known.

`Reset` establishes it, and every writer and recovery step keeps it.

## Model

| member | source | states |
|---|---|---|
| `Sampling.FillUnique` | main.go:30-42 | Keeps the input set and adds only drawn samples. If the target is reached, exactly `n` new distinct samples were added. If the draws run out, `missing` is what was still owed and every draw is in the result. |
| `Sampling.FillUniqueOverCapacity` | main.go:30-42 | If more unique in-square samples are asked for than the 2k x 2k square has left, no stream of in-square draws completes the fill. This is the case where the Go generator loops forever. |
| `Grid.NewDataSquare` | main.go:55-68 | A new square has a 2k x 2k empty matrix, no counters yet, empty recovered sets and total 0. Resetting it gives a valid square. |
| `Grid.Reset` | main.go:70-83 | Every cell is unknown and the matrix shape is kept. There are 2k zero row and column counters, total 0, and both recovered sets are empty. The result is valid whenever the matrix is 2k x 2k. |
| `RecoveryFacts.ResetForgetsHistory` | main.go:70-83 | Two squares of the same size reset to the same state, whatever was done to them before. |
| `Grid.AddSample` | main.go:94-105 | On a known cell: returns false and changes nothing. On an unknown cell: returns true, marks exactly that cell, and raises its row counter, its column counter and the total by one, with every other counter unchanged. Recovered sets are untouched. The counters keep agreeing with the matrix. |
| `RecoveryFacts.AddSampleIdempotent` | main.go:94-105 | Adding the same cell a second time reports false and has no further effect. |
| `RecoveryFacts.AddSampleCommutes` | main.go:94-105 | Adding two cells in either order yields the same square. |
| `Grid.AddSamples` | main.go:85-92 | Afterwards a cell is known exactly when it was known before or is in the batch, whatever order the set is applied in. Recovered sets are unchanged. Counter agreement and `Valid` are preserved. |
| `Recovery.TryRecoverRow` | main.go:107-123 | Returns true exactly when the row was not recovered and has at least k known cells. Otherwise the state is unchanged. On success the row is recovered and fully known. Known cells, counters and recovered sets only grow, and every line recovered on the way is full. New cells lie only on lines this call recovered. Every line whose counter the call moved ends recovered or short of k, so the cascade into each crossing line has taken place. Counter agreement is kept. |
| `Recovery.RecoverRowNow` | main.go:113-119 | The success branch: after the row is marked recovered, every cell of the row is known. The result extends the marked square, and new cells lie only on this row or on lines recovered during the fill. Every line whose counter moved ends recovered or short of k. |
| `Recovery.FillRow` | main.go:115-119 | Fills every cell of the row from the given column on. New cells lie on this row or on lines recovered by the cascade, and every such line is full. When the row is already marked recovered, as in the Go fill, every line whose counter moved ends recovered or short of k. |
| `Recovery.CascadeCol` | main.go:116-118 | One iteration of the row fill. The cell (row, col) ends known, and new cells lie only on this row or on lines recovered on the way. If the cell was already known, nothing changes. If it was new and the column is not recovered and now has k known cells, the column ends recovered and full. If it was new and the column is recovered or still short of k, the result is exactly `AddSample` of the cell. When the row is marked recovered, every line whose counter moved ends recovered or short of k. |
| `Recovery.TryRecoverCol` | main.go:125-141 | Mirror of `TryRecoverRow` for columns. |
| `Recovery.RecoverColNow` | main.go:131-137 | Mirror of `RecoverRowNow` for a column. |
| `Recovery.FillCol` | main.go:133-137 | Mirror of `FillRow` for a column. |
| `Recovery.CascadeRow` | main.go:134-136 | Mirror of `CascadeCol`: one iteration of the column fill, which attempts the row of a newly known cell. |
| `Progress.MarkRowShrinks` | main.go:113-114 | Marking a row that passed the guard as recovered lowers the number of unrecovered lines. So the cascade started from it terminates. |
| `Progress.MarkColShrinks` | main.go:131-132 | Mirror of `MarkRowShrinks` for a column. |
| `Progress.UnrecoveredShrinks` | main.go:108-141 | Growing the recovered sets never raises the number of unrecovered lines, and strictly growing them lowers it. This is the termination measure of the cascade and of the sweeps. |
| `Recovery.Sweep` | main.go:154-159 | One pass over all indices: row i, then column i. Reports progress exactly when a recovered set grew. Without progress the state is unchanged and no line can be recovered (a fixpoint). Every line at index `i` or above whose counter already showed k known cells at the start of the pass ends up recovered. |
| `Recovery.Fixpoint` | main.go:154-167 | Repeats sweeps. Returns true exactly when the final square counts as recovered. On false, no line of the final square can be recovered. |
| `Recovery.Recover` | main.go:148-168 | Below k^2 known cells it returns false and changes nothing. Otherwise it returns true exactly when the final square counts as recovered, and on false the state is a fixpoint. True always means `IsRecovered`. The state only grows and counters keep agreeing. |
| `RecoveryFacts.IsRecoveredMono` | main.go:143-146 | The recovered test compares only the sizes of the recovered sets with k. So it is monotone: a square with the same k and larger recovered sets is recovered whenever the smaller one is. |
| `RecoveryFacts.RecoveredHasEnoughCells` | main.go:143-152 | On a valid square, k recovered rows or k recovered columns imply at least k^2 known cells. So `IsRecovered` never holds below the fast-reject threshold. |
| `RecoveryFacts.RecoverReportsIsRecovered` | main.go:143-167 | On a valid square, `Recover` returns true exactly when `IsRecovered` holds of the state it leaves, including on the fast-reject path. |
| `RecoveryFacts.ProgressKeepsValid` | main.go:107-167 | Any recovery step from a valid square gives a valid square. |
| `RecoveryFacts.TryRecoverRowKeepsValid` | main.go:107-123 | `TryRecoverRow` preserves `Valid`. |
| `RecoveryFacts.TryRecoverColKeepsValid` | main.go:125-141 | `TryRecoverCol` preserves `Valid`. |
| `RecoveryFacts.RecoverKeepsValid` | main.go:148-168 | `Recover` preserves `Valid`. |
| `RecoveryFacts.ColumnsReadyRecover` | main.go:149-167 | At or above k^2 known cells, if every column has k known cells, `Recover` returns true. |
| `RecoveryFacts.RowsReadyRecover` | main.go:149-167 | At or above k^2 known cells, if every row has k known cells, `Recover` returns true. |
| `RecoveryFacts.FullRowsRecover` | main.go:149-167 | On a square whose counters agree, any k fully known rows make `Recover` return true. |
| `RecoveryFacts.FullColsRecover` | main.go:149-167 | On a square whose counters agree, any k fully known columns make `Recover` return true. |
| `RecoveryFacts.FullSquareRecovers` | main.go:149-167 | A fully known square is always reconstructed, for every size including k = 0. |
| `RecoveryFacts.TwoFullRowsOfFour` | main.go:149-167 | Worked case k = 2: rows 0 and 1 fully known means `Recover` returns true. |
| `RecoveryFacts.ThreeCellsOfFour` | main.go:150-152 | Worked case k = 2: with 3 known cells, `Recover` returns false and leaves the square unchanged. |
| `Soundness.ReadyRowInTarget` | main.go:113 | A row that passes the k-cell guard below a closed square is recovered and full in that square. Counts only grow from a square to one above it. |
| `Soundness.ReadyColInTarget` | main.go:131 | Mirror of `ReadyRowInTarget` for a column. |
| `Soundness.TryRecoverRowBelow` | main.go:107-123 | Started from a consistent square below a closed square `t`, `TryRecoverRow` ends below `t`: it knows no cell and recovers no line that `t` does not. |
| `Soundness.RecoverRowNowBelow` | main.go:113-119 | Marking a row that `t` has recovered and filling it stays below `t`. |
| `Soundness.FillRowBelow` | main.go:115-119 | Filling a row that `t` has recovered, from any column on, stays below `t`, cascade included. |
| `Soundness.CascadeColBelow` | main.go:116-118 | One iteration of the row fill stays below `t`: the cell added is known in `t`, and the column attempt it triggers stays below `t`. |
| `Soundness.TryRecoverColBelow` | main.go:125-141 | Mirror of `TryRecoverRowBelow` for a column. |
| `Soundness.RecoverColNowBelow` | main.go:131-137 | Mirror of `RecoverRowNowBelow` for a column. |
| `Soundness.FillColBelow` | main.go:133-137 | Mirror of `FillRowBelow` for a column. |
| `Soundness.CascadeRowBelow` | main.go:134-136 | Mirror of `CascadeColBelow`. |
| `Soundness.SweepBelow` | main.go:155-158 | A whole pass of row and column attempts stays below any closed square above its input. |
| `Soundness.FixpointBelow` | main.go:154-167 | The repeated sweeps stay below any closed square above their input. |
| `Soundness.RecoverBelow` | main.go:148-168 | `Recover` never knows a cell or recovers a line beyond any closed square above its input. |
| `Soundness.RecoverIsLeast` | main.go:148-168 | On a valid square at or above k^2 known cells, `Recover` returns true exactly when every closed square above the input counts as recovered. |
| `Soundness.RecoverIsLeastClosed` | main.go:148-168 | On a valid square at or above k^2 known cells, the result of `Recover` is closed, lies above the input, and lies below every closed square above the input: it is the least closed square above the input. |
| `Completeness.SweepStuck` | main.go:155-158 | After one pass over all indices from 0, no row and no column can be recovered, whatever the input. |
| `Completeness.SweepIdle` | main.go:155-158 | A pass over a square with no recoverable line from index `i` on recovers nothing, changes nothing and reports no progress. |
| `Completeness.FixpointIsOneSweep` | main.go:154-167 | The outer loop returns the square left by its first sweep, with the recovered test as its result; that square is a fixpoint. |
| `Completeness.RecoverIsOneSweep` | main.go:148-168 | Past the fast reject, `Recover` is one sweep followed by the recovered test, and it leaves a fixpoint on both of its paths. |
| `Soundness.DiagonalOfFour` | main.go:148-168 | Worked case k = 2: with exactly the 4 diagonal cells known there are k^2 cells, yet no line has 2. `Recover` returns false and leaves the square unchanged. |

## Left out

- `RunSimulation`, `NewDefaultConfig`, `SimulationConfig` and `main` (main.go:170-274) are left out. They are the driver: logging, floating-point success rates and a Monte Carlo loop that may not terminate.
- The random generator is left out: `rand.Intn` in `FillUnique` and `rand.Seed` in `main`. `FillUnique` takes a finite sequence of draws instead. The distribution of the draws is not modelled, and a finite stream replaces the Go generator's unbounded rejection loop.
- `NewSampleSet` capacity hints and `SampleSet.Clear` are left out. A sample set is a plain `set<Sample>`, and clearing it is the empty set.
- Cells are `bool`: the Go implementation stores `int` 0/1 and only ever writes 0 or 1.
- Machine-integer overflow is not modelled: of `Size*Size`, of `size*2`, or of the counters. All are far below 2^63 for any square the simulator can allocate.
- Recursion depth and stack usage of the cascade are not modelled. The model is pure functions.
- `rand.Intn(size*2)` panics for size 0. The model of `FillUnique` takes its draws as given and does not reproduce that panic.
- `AddSample`, `AddSamples`, `TryRecoverRow`, `TryRecoverCol` and `Recover` require in-range indices and allocated counters (`Shaped`). The Go implementation panics otherwise. For example, it panics on `AddSample` right after `NewDataSquare`, before the first `Reset`. The one exception is `Recover` on a fresh square with nil counters and nothing else: its fast reject (main.go:150-151) returns false before touching a counter. The model does not cover that call.
- TryRecoverRow: its own contract bounds the result from below only. The proof that it fills and recovers nothing beyond any closed square above its input is `Soundness.TryRecoverRowBelow`.
- RecoverRowNow: its own contract gives no upper bound on the cascade. The bound is `Soundness.RecoverRowNowBelow`.
- FillRow: its own contract gives no upper bound on the cascade. The bound is `Soundness.FillRowBelow`.
- CascadeCol: its own contract gives no upper bound on the column attempt it triggers. The bound is `Soundness.CascadeColBelow`.
- TryRecoverCol: as `TryRecoverRow`. The bound is `Soundness.TryRecoverColBelow`.
- RecoverColNow: as `RecoverRowNow`. The bound is `Soundness.RecoverColNowBelow`.
- FillCol: as `FillRow`. The bound is `Soundness.FillColBelow`.
- CascadeRow: as `CascadeCol`. The bound is `Soundness.CascadeRowBelow`.
- Sweep: its own contract gives no upper bound on the pass. The bound is `Soundness.SweepBelow`.
- Fixpoint: its own contract gives no upper bound, and it states the fixpoint only on false. The bound is `Soundness.FixpointBelow`; `Completeness.FixpointIsOneSweep` gives the fixpoint on both paths.
- Recover: its own contract gives no upper bound, and it states the fixpoint only on false. The bound is `Soundness.RecoverBelow`; `Completeness.RecoverIsOneSweep` gives the fixpoint on both paths; `Soundness.RecoverIsLeast` and `Soundness.RecoverIsLeastClosed` characterise the result.

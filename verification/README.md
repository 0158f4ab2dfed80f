# Spectrum utilities of gammapy: flux-point binning, log-log trapezoid, nearest node

A Dafny model of the index-level machinery of `gammapy/spectrum/utils.py`:

- **Flux-point energy binning** (`calculate_flux_point_binning`). An observation has
  fine energy bins with node edges `edges[0..n)`. Binning starts at the node after the
  low-threshold node. It merges `rebin_factor` consecutive fine bins, starting with
  2. A merged window that is not significant is widened by one fine bin. A
  significant window has its upper edge emitted, and the search continues from there.
  The factor is never reset. The last emitted edge is replaced by the high
  threshold. Module `FluxPointBinning` (`flux_point_binning.dfy`).
- **Log-log trapezoidal rule** (`_trapz_loglog`), plus the array branch of
  `integrate_spectrum`: how the grid is built, which intervals are forced to zero,
  and how the intervals add up. Module `TrapzLogLog` (`trapz_loglog.dfy`).
- **Nearest node of a log-energy axis** (`LogEnergyAxis.closest_point`): the first
  index that minimises `|x[i] - t|`. Module `EnergyAxis` (`energy_axis.dfy`).
- Module `Outcomes` (`outcomes.dfy`) models the exceptions that escape these
  operations (`NotImplementedError`, `IndexError`, numpy's `ValueError`) as a
  `Result`.

Parameters stand in for what the model does not compute:

- The significance test of the stacked statistics of fine bins `[lo, hi)` is the
  observation's `significant` function. It means "stacked sigma is at least
  `min_signif` and is not NaN".
- The results of `find_node` are the given node indices `loNode` and `hiNode`.
- The per-interval power-law formula is the `formula` parameter.
- The integrated spectrum is the `spectrum` parameter, applied at each grid point.
- The axis nodes and the query point arrive already in log10 units.

Each binning operation has a partner definition:

- `Schedule` is a recursive reference definition of the accepted windows.
- `IsGreedyRun` describes the greedy rule declaratively. `ScheduleIsGreedy` and
  `GreedyRunIsSchedule` prove that the two agree in both directions.
- `Run` is the loop's accumulator view of the same rule. `RunIsSchedule` links it to
  `Schedule`.
- `CalculateFluxPointBinning` and its loop `MergeBins` are the imperative code. They are
  proved equal to the functional `FluxPointBinning`.

The docstring of `calculate_flux_point_binning` (lines 178-179) says every resulting bin
holds a `min_signif` detection. The model proves this for the window between each pair
of emitted nodes. For the last output bin neither significance nor width is guaranteed: line 238 replaces
the last emitted edge with the high threshold, so that bin is the tested window only when
the two edges coincide. It may cover less than the two fine bins the note at lines 184-186
asks for, or more fine bins than any tested window. When no window passes, the result is the single edge `[hi_threshold]`,
and no flux point results at all (`SingleEdgeIffNothingSignificant`).

## Model

| member | source | states |
|---|---|---|
| `FluxPointBinning.FluxPointBinning` | gammapy/spectrum/utils.py:205-240 | More than one observation gives NotImplemented("stack counts"). An empty list gives IndexError, from `obs_list[0]`. With one observation, the result is Ok exactly when the start node `find_node(lo)+1` is a valid edge index, and IndexError (from line 218) otherwise. An Ok binning is non-empty and ends with the high threshold. |
| `FluxPointBinning.CalculateFluxPointBinning` | gammapy/spectrum/utils.py:205-240 | The imperative function, with the checks and error exits of `calculate_flux_point_binning`, then the high threshold written over the last edge. Its result equals the functional binning on every input. |
| `FluxPointBinning.MergeBins` | gammapy/spectrum/utils.py:213-234 | The merging loop. It terminates with measure `max_bin + 1 - (current_bin + rebin_factor)`, because each iteration either widens the window or moves past it. It emits exactly the edges at the nodes of the greedy schedule. |
| `FluxPointBinning.Schedule` | gammapy/spectrum/utils.py:223-234 | The windows the loop accepts from a loop state. Its contract bounds their number: each spans at least 2 fine bins and ends at or below `max_bin`, so k windows need `start + 2k <= max_bin`. Its shape is stated by `ScheduleIsChain`, its greedy characterisation by `ScheduleIsGreedy` and `GreedyRunIsSchedule`, and its link to the loop by `RunIsSchedule`. |
| `FluxPointBinning.ScheduleIsChain` | gammapy/spectrum/utils.py:223-234 | The accepted windows tile the fine bins from the start node on. Each is significant, at least as wide as the starting factor, and ends at or below `max_bin`. No window is narrower than the one before, because the factor is never reset. |
| `FluxPointBinning.RunIsSchedule` | gammapy/spectrum/utils.py:218-234 | Running the loop from any state appends exactly that state's schedule to the windows already accepted. |
| `FluxPointBinning.GreedyRunWiden` | gammapy/spectrum/utils.py:228-230 | Skipping a window that is not significant, by raising the factor by one, does not change which runs are greedy. |
| `FluxPointBinning.ScheduleIsGreedy` | gammapy/spectrum/utils.py:223-234 | The recursive schedule meets the declarative greedy rule. Each window is the narrowest significant one, at least the previous width, from where the previous window ended. After the last window, no admissible window is significant. |
| `FluxPointBinning.GreedyRunIsSchedule` | gammapy/spectrum/utils.py:223-234 | Conversely, any run meeting the greedy rule is the schedule, so the rule fixes the binning uniquely. |
| `FluxPointBinning.BinningNodes` | gammapy/spectrum/utils.py:214-218 | The emitted node list starts at `find_node(lo_threshold) + 1`. Every later node is at most `max_bin = find_node(hi_threshold)`. |
| `FluxPointBinning.BinningNodesShape` | gammapy/spectrum/utils.py:200-234 | The emitted nodes strictly increase. Each window between neighbouring emitted nodes spans at least 2 fine bins and passes the significance test, and spans no fewer fine bins than the window before it. The last output bin, whose upper edge line 238 overwrites, is not such a window. |
| `FluxPointBinning.AdjacentNodesSignificant` | gammapy/spectrum/utils.py:225-234 | Neighbouring emitted nodes are at least 2 fine bins apart. The merged fine bins between them are significant, so a window that fails the test is never emitted. |
| `FluxPointBinning.NodeGapsWiden` | gammapy/spectrum/utils.py:229-234 | Successive windows between neighbouring emitted nodes span a non-decreasing number of fine bins. |
| `FluxPointBinning.NodesIncreasing` | gammapy/spectrum/utils.py:233-234 | The emitted node indices are strictly increasing. |
| `FluxPointBinning.BinningFromNodes` | gammapy/spectrum/utils.py:218-238 | Every element of the binning except the last is the unchanged fine edge at the matching emitted node. The last element is the high threshold. |
| `FluxPointBinning.SingleEdgeIffNothingSignificant` | gammapy/spectrum/utils.py:218-238 | The binning is the single edge `[hi_threshold]` exactly when no window from the start node is significant. Such a window is at least 2 fine bins wide and ends at or below `max_bin`. In that case the starting edge itself is replaced by the high threshold. |
| `FluxPointBinning.BinningIncreasing` | gammapy/spectrum/utils.py:213-238 | With strictly increasing fine edges, the binning below the final high-threshold entry is strictly increasing. |
| `TrapzLogLog.Intervals` | gammapy/spectrum/utils.py:338-360 | A grid of n points has one value per neighbouring pair (`max(n-1, 0)` values). A value is forced to 0 when either `y` end is 0 or the two `x` ends are equal. Otherwise it is the power-law interval formula. |
| `TrapzLogLog.AddReduce` | gammapy/spectrum/utils.py:365 | The reduction over the interval values yields their sum. |
| `TrapzLogLog.TrapzLogLog` | gammapy/spectrum/utils.py:293-367 | The flag `intervals` selects per-interval output, which holds one value per neighbouring pair of grid points and is zero on every degenerate interval. Additivity is stated by `TrapzSplit`, vanishing on a zero spectrum by `TrapzZeroSpectrum`, and the agreement with the two-pass array computation by `EvaluateTrapzLogLog`. |
| `TrapzLogLog.EvaluateTrapzLogLog` | gammapy/spectrum/utils.py:338-367 | Computing the power-law value of every interval, then overwriting the degenerate ones with zero, then returning the array or its reduction gives exactly the per-interval values and total of the functional rule. |
| `TrapzLogLog.TrapzSplit` | gammapy/spectrum/utils.py:350-365 | Splitting the grid at a point splits the total. The rule is additive over two sub-grids that share a boundary point. |
| `TrapzLogLog.TrapzZeroSpectrum` | gammapy/spectrum/utils.py:359-365 | A spectrum that is zero at every grid point integrates to 0, whatever the interval formula. |
| `TrapzLogLog.ArrayGrid` | gammapy/spectrum/utils.py:277-278 | The array-mode grid is all lower bounds followed by the last upper bound. An empty array of upper bounds raises IndexError. |
| `TrapzLogLog.IntegrateSpectrum` | gammapy/spectrum/utils.py:265-287 | Array mode fails exactly when there is no upper bound, and then with IndexError. Otherwise the `intervals` flag selects per-interval output, which holds one value per lower bound. Per-bin meaning is stated by `ContiguousBinsIntegrateEachBin`, and independence from the inner upper bounds by `ArrayModeReadsLastUpperBoundOnly`. |
| `TrapzLogLog.ContiguousBinsIntegrateEachBin` | gammapy/spectrum/utils.py:277-285 | For contiguous bins, where each upper bound is the next lower bound, interval i covers exactly the bin `[xmin[i], xmax[i]]`. |
| `TrapzLogLog.ArrayModeReadsLastUpperBoundOnly` | gammapy/spectrum/utils.py:278 | Array mode reads only the last upper bound. Changing any other upper bound leaves the result unchanged. |
| `EnergyAxis.ClosestPoint` | gammapy/spectrum/utils.py:64-71 | An empty axis raises ValueError, as numpy's argmin does. Otherwise the result is a valid index `i` with `abs(x[i] - t) <= abs(x[j] - t)` for every `j`. It is the first such index, as `np.argmin` returns on ties. |
| `EnergyAxis.FirstClosestUnique` | gammapy/spectrum/utils.py:69 | The first closest node is unique, so the lookup is determined by the axis and the query. |
| `EnergyAxis.ClosestToNodeIsNode` | gammapy/spectrum/utils.py:64-71 | On an axis with strictly increasing nodes, a query at a node's own value returns that node. |

## Left out

- Significance computation is abstract: `ObservationStats.stack`, `.sigma` and the per-bin `obs.stats(i)` precomputation. These are floating-point statistics from another module; the model uses the `significant` test instead.
- `find_node` is not part of this model. Its results are given indices. The model assumes, as `NodesInRange`, that `find_node(hi_threshold)` is a valid index into the edges. A start node past the last edge is modelled as IndexError.
- `Observation.loNode` is a `nat`, so a `find_node(lo_threshold)` result of -1, which would give start node 0, is not representable. Python's negative indexing is not modelled either.
- The log-log power-law interval formula (log10, `**`, the `1e-10` tolerance for index -1) and the `uncertainties` path with `ulog10` are abstract, as the `formula` parameter. They are floating-point numerics.
- The scalar mode of `integrate_spectrum` is not modelled. It builds a `logspace` grid from a non-integer point count computed in floating point.
- `_trapz_loglog` on multi-dimensional arrays, the `axis` argument and numpy broadcasting of `x` and `y` with different lengths are not modelled. The model takes one-dimensional grids of equal length.
- `LogEnergyAxis.world2pix` and `pix2world` are not modelled. They are floating-point interpolation combined with log10 and pow.
- `LogEnergyAxis.bin_edges` is not modelled. Its `try` path assigns `pix` (line 85) while line 92 reads `pix1`, which only the `except` path assigns, so that path cannot return as written.
- `calculate_predicted_counts` is not modelled. It is a wrapper over effective-area, energy-dispersion and counts-spectrum objects that are not part of this model.
- Physical units (`Quantity`) are not modelled. All values are bare reals and indices.
- Floating-point rounding is not modelled: values are exact reals. This affects the reduction of the interval values, which numpy sums pairwise, and near-ties in `closest_point`.
- NaN is not modelled: every real is finite. The NaN case of the significance test is part of the `significant` parameter.
- The spectral-model tests and the test-skip helpers in `gammapy/utils/testing.py` are not modelled. They are floating-point model evaluation, foreign libraries and test-harness I/O.

# N-body step: partition, pair enumeration, reduction, integration

This project models one step of the two-dimensional N-body simulation in
`nbody.cpp`: `calculate_forces` and `update`. The floating-point physics is
abstracted away. What remains is the integer and combinatorial skeleton:

- the body indices `[0, N)` are split into `num_threads` contiguous row ranges;
- each worker visits the upper-triangular pairs `(i, j)` with `i` in its
  range and `i < j < N`;
- for every pair that passes the distance cutoff, the worker adds a
  contribution at `i` and subtracts one at `j`, in its own zero-initialised
  accumulator;
- the accumulators are summed entry by entry;
- every body is advanced: first its position with its old velocity, then its
  velocity with the summed acceleration.

The central result is `Simulation.Update`. For every `num_threads >= 1`, the
bodies after one step equal the bodies integrated with the accelerations of
the sequential computation `calculate_forces(0, N, acc)` on a zeroed `acc`.

Modules:

- `Vectors`: the two-component vector with exact real components, and its
  sum, difference and scaling.
- `Bodies`: the body record and the constants `min2` and `dt`. Also:
  - the pair kernel abstraction: `near` is the cutoff guard, `onI` is the
    contribution added to body `i` and `onJ` the one subtracted from
    body `j`;
  - `SourceCutoff`, which ties `near` to the code's guard
    `length2(pos_i - pos_j) > min2`;
  - the per-body integration step.
- `Partition`: `chunk_size`, and where each worker's range starts and ends.
- `Pairs`: the order in which one range visits pairs (`Visits`), and the
  concatenation of all workers' visit orders (`Schedule`).
- `Forces`:
  - the effect of one visit on an accumulator (`Visit`), and of a whole
    visit order (`Apply`);
  - what a visit order contributes to one entry (`Total`), and the closed
    form of that contribution for a row range (`Gain`);
  - the imperative loops of `calculate_forces`: `VisitPair`, `VisitRow`
    and `CalculateForces`.
- `Simulation`: the loops of `update`, each as a method over arrays:
  - zeroing the per-worker accumulators;
  - the worker launch loop;
  - the reduction;
  - the integration;
  - `Update`, which combines them;
  - the lemma that the reduction equals the sequential result.

The split is not balanced: every worker except the last gets
`N / num_threads` rows, and the last also takes the `N % num_threads`
remainder (`Partition.RangeSizes`).

## Model

| member | source | states |
|---|---|---|
| Bodies.CutoffProperties | nbody.cpp:83-86 | Under the code's guard `length2(pos_i - pos_j) > min2`, coincident bodies never interact, and the guard is symmetric in the two bodies. |
| Bodies.AdvanceEffect | nbody.cpp:159-163 | After one integration step, the position has moved by the pre-update velocity times `dt` and the velocity by the acceleration times `dt`. Mass and radius are unchanged. |
| Bodies.AdvanceRewind | nbody.cpp:161-162 | The integration step is invertible: undoing the velocity update and then the position update gives back the body, in both orders of composition. |
| Bodies.IntegratedLocal | nbody.cpp:159-163 | Integrating all bodies keeps their number, and body `i`'s new state depends only on body `i` and `acc[i]`: two body arrays and acceleration arrays that agree at `i` give the same body `i`. |
| Partition.RangeBounds | nbody.cpp:119-120 | Every worker's range satisfies `start <= end <= N`. |
| Partition.RangesTile | nbody.cpp:114-120 | The first range starts at 0 and the last ends at N. Each range ends where the next one starts, so the ranges cover `[0, N)` contiguously. |
| Partition.RangesDisjoint | nbody.cpp:117-120 | A range of an earlier worker ends no later than the start of any later worker's range. |
| Partition.RangeSizes | nbody.cpp:114-120 | Every worker except the last gets exactly `N / num_threads` rows. The last gets `N / num_threads + N % num_threads`. |
| Partition.MoreWorkersThanRows | nbody.cpp:114-120 | When `num_threads > N`, every worker except the last has an empty range, and the last has `[0, N)`. |
| Partition.OwnerUnique | nbody.cpp:117-125 | Row `i` lies in worker `t`'s range if and only if `t` is the single owner of `i`. |
| Pairs.Row | nbody.cpp:81 | The inner loop `j` from `lo` to `hi` visits `hi - lo` pairs, or none when `lo >= hi`. |
| Pairs.RowAt | nbody.cpp:81 | The `k`-th visit of the inner loop is the pair `(i, lo + k)`. |
| Pairs.VisitsBounds | nbody.cpp:79-81 | Every pair a range visits has `start <= i < end` and `i < j < N`, so `i == j` is never visited. |
| Pairs.VisitsMembers | nbody.cpp:79-81 | A pair is visited by the nested loops over `[start, end)` if and only if `start <= i < end` and `i < j < N`. |
| Pairs.VisitsIncreasing | nbody.cpp:79-81 | The nested loops visit pairs in strictly increasing lexicographic order, so no pair is visited twice. |
| Pairs.VisitsSplit | nbody.cpp:79-81 | The visits of `[start, end)` are the visits of `[start, mid)` followed by those of `[mid, end)`. |
| Pairs.SchedulePrefix | nbody.cpp:117-125 | The first `k` workers together visit exactly the pairs of rows `[0, end of worker k - 1)`, in the sequential order. |
| Pairs.ScheduleIsSequential | nbody.cpp:117-125 | The workers' visits, concatenated in worker order, are the visits of the sequential loops over `[0, N)`, whatever `num_threads` is. |
| Pairs.PairsVisitedOnce | nbody.cpp:117-125 | Over all workers, each pair with `i < j < N` is visited exactly once and every other pair never. |
| Forces.Visit | nbody.cpp:86-92 | One visit keeps the accumulator's length. |
| Forces.VisitChanges | nbody.cpp:86-92 | If the guard fails, the accumulator is unchanged. If it passes, entry `i` gains `onI`, entry `j` loses `onJ`, and every other entry is unchanged. |
| Forces.VisitAt | nbody.cpp:86-92 | Entry `k` after a visit is its old value plus that visit's contribution to `k`. |
| Forces.ApplyAt | nbody.cpp:79-94 | Entry `k` after a sequence of visits is its old value plus the total of the visits' contributions to `k`. |
| Forces.TotalAppend | nbody.cpp:79-94 | The contribution of two visit sequences run one after the other is the sum of their contributions. |
| Forces.TotalRow | nbody.cpp:81-92 | The inner loop of row `i` over `j` in `[lo, hi)` contributes to entry `k`: the guarded `onI(i, j)` when `k == i`, minus the guarded `onJ(i, k)` when `lo <= k < hi`, and nothing to any other entry. |
| Forces.TotalVisits | nbody.cpp:79-94 | The nested loops over `[start, end)` contribute to entry `k`: the guarded `onI` of pairs `(k, j)`, `j > k`, when `k` is in the range, minus the guarded `onJ` of pairs `(i, k)`, `i` in the range with `i < k`. |
| Forces.ApplyGain | nbody.cpp:77-95 | `calculate_forces(start, end, acc)` adds that closed-form contribution to every entry of `acc`. |
| Forces.SequentialAt | nbody.cpp:77-95 | After `calculate_forces(0, N, acc)` on a zeroed `acc`, entry `k` is the sum over `j > k` of the guarded `onI(k, j)`, minus the sum over `i < k` of the guarded `onJ(i, k)`. |
| Forces.NextRow | nbody.cpp:79-81 | One more outer iteration appends row `i`'s inner loop to the visit order. A row index at or past `N` visits nothing. |
| Forces.VisitPair | nbody.cpp:83-92 | The loop body changes the accumulator array exactly as `Visit` specifies. |
| Forces.VisitRow | nbody.cpp:81-93 | The inner loop changes the accumulator array exactly as applying row `i`'s visits does. |
| Forces.CalculateForces | nbody.cpp:77-95 | The nested loops change the accumulator as applying the visits of `[start, end)` does, so each entry gains its closed-form contribution. |
| Simulation.WorkerResult | nbody.cpp:121-138 | Worker `t`'s result has one entry per body. |
| Simulation.WorkerSumSchedule | nbody.cpp:148-156 | Summing the first `m` workers' results entry by entry gives the total contribution of the pairs those workers visit. |
| Simulation.ReducedIsSequential | nbody.cpp:148-156 | The reduced acceleration of each body equals the sequential `calculate_forces(0, N, ·)` result, for every `num_threads >= 1`. |
| Simulation.WorkerCountIrrelevant | nbody.cpp:100-156 | Any two worker counts give the same reduced accelerations. |
| Simulation.ColumnSumWorkers | nbody.cpp:148-156 | When the accumulator arrays hold the workers' results, summing their `i`-th entries gives the workers' summed contribution. |
| Simulation.ZeroedAccumulators | nbody.cpp:105-112 | The code creates `num_threads` new, pairwise distinct accumulators, each with N entries, all zero. |
| Simulation.RunWorkers | nbody.cpp:114-139 | Worker `t` computes its range from `chunk_size` and runs the force loops into its own accumulator only. Afterwards each accumulator holds that worker's result. |
| Simulation.Reduce | nbody.cpp:148-156 | A new array whose entry `i` is zero plus the workers' `i`-th entries, added in worker order. |
| Simulation.Integrate | nbody.cpp:158-163 | Every body is advanced in place with the integration step, using its own acceleration. |
| Simulation.Update | nbody.cpp:98-164 | After one step, the bodies are the old bodies integrated with the sequential force computation's accelerations, whatever `num_threads` is. Each position has moved by its old velocity times `dt`, and masses and radii are unchanged. |

## Left out

- Floating point: vector components and all arithmetic are exact reals.
  Rounding, and any dependence of the result on summation order, is not
  modelled.
- The force magnitude is abstracted into the kernel's `onI` and `onJ`:
  `-G * m_i * m_j / d2`, `normalise` and `smoothstep` (nbody.cpp:84, 88-91,
  128, 132-135). The code normalises the displacement before it checks the
  cutoff, so a zero displacement is normalised too. That is floating-point
  behaviour and is not modelled.
- The cutoff guard is the kernel's `near`. `SourceCutoff` ties it to
  `length2(pos_i - pos_j) > min2` with `min2 = 2.0`, over exact reals.
- `nbody.h` (`vec2`, `body`, `normalise`, `length2`, `smoothstep`) is not
  part of this model. Vector addition, subtraction and scaling are assumed
  componentwise.
- Threads: `std::thread` creation, `emplace_back` and `join`
  (nbody.cpp:117-145) are replaced by a sequential loop over workers.
  Each worker writes only its own accumulator and reads only the bodies, so
  the result does not depend on how the workers interleave.
- `hardware_concurrency()` (nbody.cpp:100) is replaced by a parameter, and
  `Simulation.Update` requires it to be at least 1. The code divides by it
  at nbody.cpp:114, and the call may return 0.
- The `update` lambda repeats the loops of `calculate_forces` over
  `thread_acc[t]` (nbody.cpp:123-137). The model runs the same
  `Forces.CalculateForces` on each worker's accumulator.
- During force computation, the bodies are passed to the force methods as a
  value: a copy of the array taken at the start of `Update`. Those methods
  only read the bodies, so nothing is lost.
- `Simulation.Integrate` takes the step length as a parameter, and
  `Simulation.Update` passes `dt = 0.01`.
- `Forces.Visit` leaves the accumulator unchanged for a pair with an index
  at or past N. No loop of the code produces such a pair
  (`Pairs.VisitsBounds`).
- `Vectors.Add` returns its first argument unchanged when the second is the
  zero vector. That is the same value as the componentwise sum.
- The integer width of `int` is not modelled. `N` and `num_threads` are
  naturals, and `t * chunk_size` cannot overflow for the sizes the code
  selects (at most 10000).
- Left out entirely: `initialise` (random numbers and trigonometry), the
  display loop, the progress bar, image and data output,
  `calculate_maximum_difference`, and the compile-time choice of N
  (nbody.cpp:45-60, 167-320). The body array and N are parameters instead.

# Odd-even transposition sort, sequential and parallel

This project models the `Sorter` class of a small benchmark, `main.cpp`. The class sorts a
`std::vector<int>` in place by odd-even transposition sort in two ways. `sort` is a plain
loop. `sort_parallel` runs each phase as an OpenMP `parallel for` with an OR-reduction of
the swap flags. `check` tests the order of the result.

A phase starting at `start` compares the pairs (i, i + 1) for i = start, start + 2, … while
i < size − 1. It swaps a pair when `a[i] < a[i + 1]`. A pass is the odd phase (start 1)
followed by the even phase (start 0). Both sorters repeat passes until a pass swaps nothing.
Because a pair is swapped when its left element is the SMALLER one, the order produced is
non-increasing (largest first). The model keeps that direction for both sorters and for the
check.

Modules:

- `Order` (order.dfy): `NonIncreasing`, the order `check` tests, and `SwapAdjacent`, the
  `std::swap` of two neighbours. It also proves that a multiset has only one
  non-increasing arrangement.
- `Variant` (variant.dfy): `Inversions(s)` counts the index pairs i < j with
  `s[i] < s[j]`. Every swap removes exactly one such pair, so the count is the
  termination measure of the outer loop.
- `OddEven` (odd_even.dfy): the algorithm as functions on values. `PhaseFrom` is one
  phase's loop and `Pass` is one pass. `SortFrom` repeats passes until one does not swap.
  `SimultaneousPhase` and `AnyAscent` describe a phase with no iteration order: every
  pair is compared and swapped at once, and the flag is the OR of the per-pair flags.
- `Sorter` (sorter.dfy): the three operations as methods on an `array<int>`. `Sort` runs
  the source's two stride-2 loops through `SequentialPhase`, one call per phase, and the
  two calls share the source's single `sorted` flag. `SortParallel`
  runs each phase through `ParallelPhase`. That method updates the array with a `forall`
  statement, so every pair is written simultaneously from the values the phase started
  with. Its flag is the OR-reduction. Both sorters are proved to leave exactly
  `SortFrom(old(a[..]))`.

The name `sort` and the usual expectation suggest ascending order. The code swaps on
`a[i] < a[i + 1]` and checks for `a[i] < a[i + 1]` (main.cpp:34, 40, 84), so the order it
produces is non-increasing. This model follows the code. `SortParallel` is proved to
produce the same array as `Sort` for every input, duplicates included.

## Model

| member | source | states |
|---|---|---|
| Order.SwapAdjacent | main.cpp:35 | `std::swap(array[i], array[i + 1])` exchanges the two neighbours, leaves every other position alone and keeps the multiset of values |
| Order.NonIncreasingIsGlobal | main.cpp:80-89 | checking only neighbours, as `check` does, is the same as every element being at least every later one |
| Order.SortedPermutationUnique | main.cpp:113-114 | two non-increasing sequences with the same multiset are equal, so any output that passes `check` and is a permutation of the input is fully determined |
| Variant.SwapRemovesOneInversion | main.cpp:34-35 | swapping a strictly ascending neighbour pair lowers the number of ascending index pairs by exactly one |
| Variant.NoInversionsIffNonIncreasing | main.cpp:31-45 | the termination measure is zero exactly when the sequence is in non-increasing order |
| OddEven.PhaseFrom | main.cpp:33-38 | one phase keeps the length and multiset of the values, and a phase that reports no swap leaves the sequence unchanged |
| OddEven.Pass | main.cpp:32-44 | a pass (odd phase then even phase) is a permutation, and a pass with no swap leaves the sequence unchanged |
| OddEven.SortFrom | main.cpp:28-46 | repeating passes until one does not swap ends in non-increasing order with the same length and multiset as the input |
| OddEven.PhaseOrderIndependent | main.cpp:53-67 | a phase's loop run in increasing order gives the same array as comparing and swapping all its disjoint pairs at once, and its swap flag is the OR over the pairs |
| OddEven.PhaseRemovesInversions | main.cpp:33-44 | a phase never adds an ascending pair, and removes at least one when it swaps |
| OddEven.PassRemovesInversions | main.cpp:31-45 | a pass that swaps strictly lowers the termination measure |
| OddEven.PassSwapsIffUnsorted | main.cpp:31-45 | a pass swaps if and only if the sequence is not in non-increasing order, so the loop stops exactly on sorted input |
| OddEven.SortedInputUnchanged | main.cpp:31-45 | an input already in non-increasing order leaves the loop after one pass without a swap and is returned unchanged |
| OddEven.ShortInputUnchanged | main.cpp:30-39 | arrays of length 0 or 1 are returned unchanged |
| OddEven.SortFromIsUniqueSortedPermutation | main.cpp:28-46 | the sorted result is the unique non-increasing permutation of the input |
| OddEven.SortIdempotent | main.cpp:28-46 | sorting twice gives the same result as sorting once |
| OddEven.ExampleFourValues | main.cpp:28-46 | [5, 3, 8, 1] sorts to [8, 5, 3, 1] |
| OddEven.ExampleAllEqual | main.cpp:31-45 | [1, 1, 1] goes through one pass with no swap and is unchanged |
| Sorter.SequentialPhase | main.cpp:33-43 | one stride-2 loop leaves the array `PhaseFrom` gives and clears the caller's `sorted` flag exactly when it swapped |
| Sorter.Sort | main.cpp:28-46 | the array is left equal to `SortFrom` of its initial contents: non-increasing and a permutation of the input |
| Sorter.ParallelPhase | main.cpp:52-67 | one parallel phase leaves the simultaneous compare-and-swap of its pairs and returns the OR of their swap flags |
| Sorter.SortParallel | main.cpp:48-70 | the parallel sort stops when neither phase swapped and leaves exactly the array `Sort` leaves |
| Sorter.Check | main.cpp:80-89 | returns true if and only if no neighbour pair is strictly ascending; an empty array passes |
| Sorter.CheckAsWritten | main.cpp:80-89 | with the unsigned loop bound as written, an empty vector makes the loop read past the end; every non-empty vector gets the same answer as `Check` |

## Left out

- `Sorter::generate` (main.cpp:72-78): it draws values from `rand()`, which is not deterministic.
- `Sorter::Printer` and the console output (main.cpp:14-26, 116-117): output only.
- The `std::chrono` timing and its `double` millisecond values (main.cpp:98-111): clock input and floating point.
- `main` (main.cpp:92-120): driver code. Its two `assert(check(...))` calls appear as the `NonIncreasing` postconditions of `Sort` and `SortParallel`.
- `omp_set_num_threads`, the `THREADS` constant and the thread scheduling (main.cpp:1, 10, 53, 61, 82, 93): `ParallelPhase` states the effect of a phase as a simultaneous update. It does not model the threads, the static chunking or the barrier.
- Sorter.Sort: `const int size = array.size()` narrows the size to a 32-bit `int`. Vectors longer than 2^31 − 1 elements are not modelled; the model uses the exact length.
- Sorter.Check: the loop runs with a 32-bit `int` index over an unsigned bound. Index overflow on vectors longer than 2^31 elements is not modelled, and neither is the parallel AND-reduction.
- Sorter.CheckAsWritten: `None` stands for the out-of-bounds read. It does not model what that undefined read would do.
- Sorter.CheckAsWritten: the OpenMP canonical-loop semantics of the bound under the pragma at main.cpp:82 is not modelled; an implementation that evaluates the test in the type of the loop variable runs zero iterations on an empty vector.

## Findings

| source | as written | input that shows it | evidently intended | confidence | as-written member | corrected member |
|---|---|---|---|---|---|---|
| main.cpp:83 | read as plain C++, the loop bound `a.size() - 1` is unsigned, so for an empty vector it wraps to 2^64 − 1 and the first iteration reads `a[0]` and `a[1]`; with the OpenMP pragma (main.cpp:82) the trip count depends on the implementation | an empty vector | an empty vector is in order and `check` returns true | medium; not executed | Sorter.CheckAsWritten | Sorter.Check |

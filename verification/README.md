# Verified models of the compiler examples

This project models the algorithms behind the compiler examples (`examples/`) and proves them
correct with Dafny 4.11. It covers the exhaustive travelling salesman solver, the grid-stride and
matrix kernels, the concurrent float sum, the roctracer trace checker and BabelStream. Sizes,
thread counts, schedules and traces are unbounded everywhere; `dafny verify dfyconfig.toml` checks
the whole project.

## What is proved

* **Travelling salesman** (`Routes`, `TravelingSalesman`, `MachineRoute`, `MachineTour`,
  `GeneralizedSum`). `route_iterator` numbers the permutations of n cities without gaps or
  repetitions: an inverse is given and both compositions are the identity. A parallel
  `transform_reduce` is a *plan*, a binary tree whose leaves are the initial value and all elements,
  each once; the plans are shown to yield exactly the values that section 29.8.5 of
  ISO/IEC 14882:2017 permits. Under every plan `find_best_route` returns a cheapest open path over all
  permutations, provided some path costs less than `INT_MAX`. With `int` costs that need not be
  assumed: from three cities up to every size `main` offers, each run free of overflow is optimal,
  because if all paths cost `INT_MAX` then all edges of a cycle are equal and N - 1 divides `INT_MAX`.
  The operator is not commutative on ties: the results that occur under some plan are exactly the
  optimal routes, and on a symmetric matrix there are always at least two. In machine arithmetic the
  constructor is free of overflow exactly for N <= 12. With wrap-around it would still be right for
  N = 13 and is wrong for every N from 14 to 34, although `main` offers 13 and 14.
* **Kernels as interleaved threads** (`VectorAdd`, `MatrixMul`, `FloatSum`). GPU threads and blocks
  are step systems: an arbitrary unfinished one takes the next memory access. Each index is owned by
  one thread and written once, every run ends, and the result does not depend on the schedule, even
  if `vector_add` writes over one of its inputs. In 32-bit index arithmetic the distribution is
  repetition-free exactly below 2^32 threads. `checkMatrix` returns the number of wrong entries.
  Float sums by hardware atomics, by compare-and-swap loops and by any reduction tree are exact
  as long as the total is at most 2^24, which is so exactly up to 5793 iterations.
* **Trace checker** (`Sorting`, `TraceText`, `TraceChecker`, `TraceVerdict`, `TraceDiff`). The texts
  that are compared are injective renderings, so PASSED is an equivalence of traces: same events and
  same counts in count mode; in order mode, an order-preserving matching of the threads that pairs
  equal de-stuttered lists. Counts and lists are tied to the lines of the trace and to the record that
  decides in each. Neither mode depends on how the lines of different threads are interleaved. It is
  shown at which levels, and with which patterns, a comparison can fail at all.
* **BabelStream** (`BabelStream`, `BabelCheck`). The data-oriented and the index-oriented stream
  implement one elementwise specification in any arithmetic and any order of the elements. The scalar
  simulation follows the arrays exactly for All and Triad in any arithmetic, and for Nstream if and
  only if regrouping `a + b + s*c` is harmless. Over the reals validation never fails.

## Findings

* `find_best_route` can return the route -1 without any overflow only if N - 1 divides `INT_MAX`. Of
  the sizes 2 to 14 this is N = 2 alone, with both distances equal to `INT_MAX`: a legal reduction order
  that returns -1 for it is given in `MachineTour.TwoCitiesAtTheLimit`, and
  `MachineTour.AlwaysOptimalCondition` is the exact condition.
* `solve_traveling_salesman<13>` and `<14>` overflow `int divisor`, which is undefined behaviour.
  Under wrap-around, route 13! is decoded wrongly for every N from 14 to 34 (`MachineRoute.WrongRoute`)
  and two routes collide for N = 14 (`MachineRoute.WrappedCollision`).
* `check_trace_status` passes every trace whose level is none of the known ones. Lines 11 and 12 of
  `tests_trace_cmp_levels.txt` configure two traces with `--check-event`, which is not
  `--check-events`, so these two always pass: `TraceVerdict.MisspelledLevelPasses` gives two different
  traces, and `TraceVerdict.LevelsThatCanFail` tells exactly when a level can fail.
* `diff_strings` explains a failed order comparison with at least one line, except when both traces
  have events and the lists of one are a proper prefix of the lists of the other
  (`TraceDiff.SilentFailure`; `TraceDiff.SecondThreadUnreported` is such a pair). A trace without
  events is always reported.

## Model

| member | source | states |
|---|---|---|
| GeneralizedSum.LegalPlansAreGeneralizedSums | examples/stdpar/tsp/tsp.cpp:89-94 | the values of `transform_reduce` under the plans of this model are exactly the generalized sums of the C++ standard, both directions |
| GeneralizedSum.PlanEndingWith | examples/stdpar/tsp/tsp.cpp:89-94 | every operand can be the last right operand of a legal reduction |
| Routes.DigitsDetermineRemainder | examples/stdpar/tsp/route_iterator.h:88-101 | mixed-radix invariant of the loop: `id mod k!` is the sum of the digits below weight `k!` |
| Routes.FactorialBase | examples/stdpar/tsp/route_iterator.h:88-102 | every id below n! equals the sum of its digits times the factorials, and the digit of weight k! lies in [0, k] |
| Routes.StatePermutes | examples/stdpar/tsp/route_iterator.h:81-102 | before iteration k `m_state` is a permutation that is still the identity from position k on |
| Routes.StateExchange | examples/stdpar/tsp/route_iterator.h:88-101 | iteration k exchanges the entries at k and k - r, with r the remainder of id / k! by k + 1, and no other entry changes; the state starts as 0, 1, ..., n - 1 |
| Routes.Route18OfFour | examples/stdpar/tsp/route_iterator.h:88-101 | route 18 of four cities is 3, 1, 2, 0 |
| Routes.UndoneState | examples/stdpar/tsp/route_iterator.h:96-99 | iteration k moves value k exactly by its digit, and swapping it back restores the previous state |
| Routes.RankUnrank | examples/stdpar/tsp/route_iterator.h:71-103 | the state of every id is a permutation, and ranking it gives the id back |
| Routes.UnrankRank | examples/stdpar/tsp/route_iterator.h:71-103 | every permutation of 0..n-1 has a rank below n! and is the state of that id |
| Routes.UnrankInjective | examples/stdpar/tsp/route_iterator.h:40-41 | different ids give different permutations, as the class comment promises |
| Routes.IntDiv | examples/stdpar/tsp/route_iterator.h:22-27 | quotient and remainder, with the remainder computed by subtraction |
| Routes.SwapEntries | examples/stdpar/tsp/route_iterator.h:32-36 | the two entries change places in the array, and every other entry keeps its value |
| Routes.FillIdentity | examples/stdpar/tsp/route_iterator.h:77-83 | the initial state is the identity |
| Routes.ApplyDigits | examples/stdpar/tsp/route_iterator.h:88-102 | the in-place loop with its running divisor leaves the permutation of the id; `MachineRoute.ConstructState` adds the width of the divisor |
| Routes.RouteIterator.constructor | examples/stdpar/tsp/route_iterator.h:70-103 | under the two assertions of the source, the object holds the permutation of its id at position 0; `MachineRoute.ConstructState` tells for which N the `int` divisor does not overflow |
| Routes.RouteIterator.First | examples/stdpar/tsp/route_iterator.h:53-54 | rewinds and returns the first city |
| Routes.RouteIterator.Next | examples/stdpar/tsp/route_iterator.h:56-57 | advances by one and returns that city |
| MachineRoute.FactorialFitsUint64 | examples/stdpar/tsp/route_iterator.h:12-17 | 64-bit `factorial` is exact if and only if n <= 20 |
| MachineRoute.ConstructState | examples/stdpar/tsp/route_iterator.h:88-102 | with an `int` divisor the loop is defined if and only if N <= 12, and then agrees with the unbounded one |
| MachineRoute.WrappedDivisorCongruent | examples/stdpar/tsp/route_iterator.h:88-100 | the wrapped divisor is an `int` congruent to k! modulo 2^32 |
| MachineRoute.WrappedDigitByDivision | examples/stdpar/tsp/route_iterator.h:93-94 | the digit read is the one that the two divisions with remainder give, a negative divisor counting as itself plus 2^64 |
| MachineRoute.WrappedRoute | examples/stdpar/tsp/route_iterator.h:88-101 | with a wrapping divisor every id is decoded to the route of another id, the one whose digits are those that the loop reads |
| MachineRoute.WrappedDivisorZero | examples/stdpar/tsp/route_iterator.h:88-100 | among 1..34 the wrapped divisor is zero for 34 only, so the loop divides by zero from N = 35 on |
| MachineRoute.ShuffledDeterminesDigits | examples/stdpar/tsp/route_iterator.h:88-101 | for any two digit lists, the swaps give the same permutation if and only if the digits are the same: one wrong digit is one wrong route |
| MachineRoute.WrongRoute | examples/stdpar/tsp/route_iterator.h:88-101 | for every N from 14 to 34 a wrapping divisor decodes route 13! wrongly |
| MachineRoute.WrappedUnranksUpTo13 | examples/stdpar/tsp/route_iterator.h:88-102 | for 1 <= N <= 34, a wrapping divisor decodes all 64-bit ids below N! correctly if and only if N <= 13 |
| MachineRoute.WrappedCollision | examples/stdpar/tsp/tsp.cpp:180-181 | for N = 14 a wrapping divisor is not injective: two route ids decode to the same permutation |
| MachineTour.MachinePathCost | examples/stdpar/tsp/tsp.cpp:97-111 | with an `int` accumulator the loop is defined if and only if every partial sum along the route is an `int`, and then gives the path cost |
| MachineTour.MachineRouteCost | examples/stdpar/tsp/tsp.cpp:95-118 | the transform of one id is defined if and only if N <= 12 and no partial sum overflows, and then is the id with its cost |
| MachineTour.MachineFindBestRoute | examples/stdpar/tsp/tsp.cpp:84-120 | the reduction is defined if and only if all its operands are, and then has the value of its plan |
| MachineTour.LegalLeavesFit | examples/stdpar/tsp/tsp.cpp:89-118 | a legal reduction is free of overflow if and only if N <= 12 and no permutation overflows the accumulator |
| MachineTour.CommonCostDivides | examples/stdpar/tsp/tsp.cpp:97-111 | if all paths cost the same, that cost is a multiple of N - 1, by rotating the route |
| MachineTour.OptimalWithoutOverflow | examples/stdpar/tsp/tsp.cpp:84-120 | if no path costs more than INT_MAX and N - 1 does not divide INT_MAX, every plan returns an optimal route |
| MachineTour.AlwaysOptimalCondition | examples/stdpar/tsp/route_cost.h:14-17 | for given N, every matrix without overflow is solved optimally by every plan if and only if N - 1 does not divide INT_MAX |
| MachineTour.SmallSizes | examples/stdpar/tsp/tsp.cpp:152-185 | of the sizes 2 to 14, N - 1 divides INT_MAX for N = 2 only |
| MachineTour.TwoCitiesAtTheLimit | examples/stdpar/tsp/route_cost.h:14-17 | for two cities at distance INT_MAX a given legal plan returns the invalid route -1, without overflow |
| MachineTour.FindBestRouteOnMachine | examples/stdpar/tsp/tsp.cpp:84-120 | defined if and only if N <= 12 and no route overflows; for N >= 3 the result is then a cheapest open path over all permutations |
| TravelingSalesman.RouteIdCost | examples/stdpar/tsp/tsp.cpp:95-118 | over unbounded costs, walking the iterator adds up the open-path cost of the permutation of the id |
| TravelingSalesman.CostOfOneEdge | examples/stdpar/tsp/tsp.cpp:97-111 | a matrix that is zero but for the entry w in row u and column v costs a path w for each step from u to v: every edge is paid, in its direction, once |
| TravelingSalesman.CostAdds | examples/stdpar/tsp/tsp.cpp:97-111 | the path costs of two matrices add up to those of their sum |
| TravelingSalesman.FindBestRoute | examples/stdpar/tsp/tsp.cpp:84-120 | over unbounded costs, the parallel reduction computes the value of its plan over all route costs |
| TravelingSalesman.SingleResult | examples/stdpar/tsp/tsp.cpp:90-118 | the initial value is route -1 with cost INT_MAX; a single id gives itself and the path cost of its permutation |
| TravelingSalesman.CombinedResult | examples/stdpar/tsp/tsp.cpp:94 | of two partial results the cheaper one is kept, and the right one on a tie |
| TravelingSalesman.ReduceSelectsCheapest | examples/stdpar/tsp/tsp.cpp:94 | under every plan the result is one of the operands and no operand is cheaper |
| TravelingSalesman.BestRouteBounds | examples/stdpar/tsp/tsp.cpp:89-118 | over unbounded costs, the cost returned is a lower bound for every permutation, and it is the initial limit or the cost of the returned id |
| TravelingSalesman.BestRouteIsOptimal | examples/stdpar/tsp/tsp.cpp:85-120 | for every plan, the id returned is in [0, N!) and its permutation has minimum cost over all permutations, if some cost is below INT_MAX |
| TravelingSalesman.OptimalityCondition | examples/stdpar/tsp/route_cost.h:14-17 | over unbounded costs, every plan returns an optimal route if and only if some path costs less than the initial INT_MAX; `MachineTour.AlwaysOptimalCondition` is the statement for `int` costs |
| TravelingSalesman.CostIsPlanIndependent | examples/stdpar/tsp/tsp.cpp:89-94 | any two plans return the same cost |
| TravelingSalesman.ReturnedRoutes | examples/stdpar/tsp/tsp.cpp:89-94 | a result occurs under some plan if and only if it is an optimal route with its cost |
| TravelingSalesman.ReversedRoute | examples/stdpar/tsp/tsp.cpp:61 | on a symmetric matrix every id has a different id of equal cost, the reversed path |
| TravelingSalesman.RouteIsNotDetermined | examples/stdpar/tsp/tsp.cpp:94-111 | on a symmetric matrix every possible result has another possible result with a different route and the same cost |
| TravelingSalesman.PartialCosts | examples/stdpar/tsp/tsp.cpp:97-111 | with distances in [0, bound] every partial sum of the `int` accumulator lies in [0, (k-1) * bound] |
| TravelingSalesman.BoundedDistancesBelowLimit | examples/stdpar/tsp/tsp.cpp:97-111 | distances with (N-1) * bound < INT_MAX meet the hypothesis of optimality |
| TravelingSalesman.InitDistanceMatrixSmall | examples/stdpar/tsp/tsp_utils.h:682-704 | copies the first n rows and columns while the row length changes from size to n |
| TravelingSalesman.SolveTravelingSalesman | examples/stdpar/tsp/tsp.cpp:126-148 | the printed route is a cheapest open path through the first n cities of the full matrix, and the printed cost is its cost |
| VectorAdd.GridStridePartition | examples/hipfort/vecadd/hip_implementation.cpp:6-9 | a thread visits index i in its m-th iteration if and only if block, thread and m are the mixed-radix digits of i: each index once, by one thread |
| VectorAdd.WrappedPartition | examples/hipfort/vecadd/hip_implementation.cpp:6-9 | with index and stride computed in 32 bits, no index is visited twice if and only if there are fewer than 2^32 threads |
| VectorAdd.WrappedVisitExact | examples/hipfort/vecadd/hip_implementation.cpp:6-9 | below 2^32 threads the 32-bit index and stride are the exact ones |
| VectorAdd.Launch.Step | examples/hipfort/vecadd/hip_implementation.cpp:9-10 | one memory access of one thread: the test and the load of a[i], the load of b[i], or the store of the sum and the advance by the stride; no other thread and at most the element at its index changes, and progress is made unless the thread is done |
| VectorAdd.Launch.Store | examples/hipfort/vecadd/hip_implementation.cpp:9-10 | the store touches only an index owned by the thread and not yet written |
| VectorAdd.Launch.RunToCompletion | examples/hipfort/vecadd/hip_implementation.cpp:4-11 | every interleaving ends, with each element written exactly once and equal to the sum of the original inputs |
| VectorAdd.VectorAdd | examples/hipfort/vecadd/hip_implementation.cpp:15-19 | the launched kernel adds elementwise even if the output aliases an input, and leaves the elements from n on alone |
| MatrixMul.EntryAt | examples/hip/matrixmul/matrixmul.cpp:42 | the row-major position of (i, j) is in the buffer and decodes to (i, j) |
| MatrixMul.SingleEntryTimes | examples/hip/matrixmul/matrixmul.cpp:37-42 | a left factor with the single entry w at (u, v) gives w times row v of the right factor in row u, and zeros elsewhere |
| MatrixMul.TimesSingleEntry | examples/hip/matrixmul/matrixmul.cpp:37-42 | a right factor with the single entry w at (u, v) gives column u of the left factor times w in column v, and zeros elsewhere |
| MatrixMul.ProductAdds | examples/hip/matrixmul/matrixmul.cpp:37-42 | the product is additive in each factor; with the two rows above this determines it |
| MatrixMul.IdentityTimes | examples/hip/matrixmul/matrixmul.cpp:37-42 | c is the product of the identity and B if and only if c is B |
| MatrixMul.TimesIdentity | examples/hip/matrixmul/matrixmul.cpp:37-42 | c is the product of A and the identity if and only if c is A |
| MatrixMul.PartialSums | examples/hip/matrixmul/matrixmul.cpp:37-40 | with entries in [-b, b] every product lies within b * b and every partial sum of k terms within k * b * b, so the `int` arithmetic is exact if ACols * b * b is an `int` |
| MatrixMul.Launch.Step | examples/hip/matrixmul/matrixmul.cpp:33-43 | one step of one block: the bounds test, one product added to the sum, or the store of the sum; every other block and entry is unchanged |
| MatrixMul.Launch.Write | examples/hip/matrixmul/matrixmul.cpp:42 | a block writes its own entry and no other block's |
| MatrixMul.CoveredAt | examples/hip/matrixmul/matrixmul.cpp:33-36 | the entry (i, j) of the result has a block if and only if i < gridX and j < gridY |
| MatrixMul.Launch.RunToCompletion | examples/hip/matrixmul/matrixmul.cpp:32-44 | every schedule of the blocks ends; every entry that has a block is the entry of the product, every other one is as before, and if the grid covers the result it is the matrix product |
| MatrixMul.NoMismatches | examples/hip/matrixmul/matrixmul.cpp:71-74 | the error count is zero if and only if every entry is right |
| MatrixMul.MismatchesCount | examples/hip/matrixmul/matrixmul.cpp:71-74 | the running error count is the number of wrong positions seen so far |
| MatrixMul.CheckMatrix | examples/hip/matrixmul/matrixmul.cpp:62-78 | the result is the number of positions with a wrong entry, and 0 exactly for the product |
| MatrixMul.MultiplyAndCheck | examples/hip/matrixmul/matrixmul.cpp:162-192 | one block per entry, then the check: the product is computed and no error is found |
| FloatSum.ExpectIsTotal | examples/openmp/atomic_vs_reduction/atomic_vs_reduction.c:8-9 | `expect`, rounded where the source rounds, is exactly N(N-1)/2 if that is at most 2^24 |
| FloatSum.SizeBound | examples/openmp/atomic_vs_reduction/atomic_vs_reduction.c:8 | the total fits in 24 bits if and only if N <= 5793 |
| FloatSum.SourceSizeIsExact | examples/openmp/atomic_vs_reduction/atomic_vs_reduction.c:8 | the N of the program, 5001, meets the bound |
| FloatSum.Conservation | examples/openmp/atomic_vs_reduction/atomic_vs_reduction.c:32-36 | committed plus remaining work is the total, whatever has been committed |
| FloatSum.AtomicSum.CasStep | examples/openmp/atomic_vs_reduction/atomic_vs_reduction.c:34-35 | a compare-and-swap adds the iteration's value if the accumulator is unchanged and reloads otherwise |
| FloatSum.AtomicSum.RunCasLoops | examples/openmp/atomic_vs_reduction/atomic_vs_reduction.c:32-36 | every interleaving of the compare-and-swap loops ends at the exact total |
| FloatSum.AtomicSum.RunFastAtomics | examples/openmp/atomic_vs_reduction/atomic_vs_reduction.c:16-20 | every order of the hardware atomic additions ends at the exact total |
| FloatSum.ReductionSum | examples/openmp/atomic_vs_reduction/atomic_vs_reduction.c:48-51 | every order and grouping of the reduction, with any number of private zeros, gives the exact total |
| FloatSum.CompareSums | examples/openmp/atomic_vs_reduction/atomic_vs_reduction.c:3-61 | the three sums equal `expect` and the return code is 0 under all schedules |
| Sorting.SortedUnique | examples/tools/roctracer/check_trace.py:296-297 | a sorted list is determined by its elements |
| Sorting.SortDeterminedByElements | examples/tools/roctracer/check_trace.py:293-297 | two lists sort to the same list if and only if they have the same elements with multiplicity |
| TraceText.ReprAllInjective | examples/tools/roctracer/check_trace.py:293-294 | the concatenation of printed lists determines the lists |
| TraceText.ReprAppend | examples/tools/roctracer/check_trace.py:294-298 | the printed list: items in quotes, separated by a comma and a blank, in brackets |
| TraceText.SplitUnlines | examples/tools/roctracer/check_trace.py:286-296 | splitting the accumulated text gives the lines back and one empty string |
| TraceText.DecimalReadsBack | examples/tools/roctracer/check_trace.py:291 | reading the printed count gives the count, and it has no leading zero |
| TraceText.DecimalOfValue | examples/tools/roctracer/check_trace.py:291 | every string of digits without a leading zero is the printed form of its value |
| TraceText.DecimalInjective | examples/tools/roctracer/check_trace.py:291 | different counts print differently |
| TraceText.LexIsTotalOrder | examples/tools/roctracer/check_trace.py:297 | the ordering of strings that sorting uses is total |
| TraceText.LexByFirstDifference | examples/tools/roctracer/check_trace.py:297 | a string precedes another if and only if it is a prefix of it or has the smaller character at the first difference |
| TraceChecker.RecordRule | examples/tools/roctracer/check_trace.py:248-265 | a tool record decides whatever else the line matches, a callback record without a tool record, an activity record without either; marker lines and lines without a record are no events |
| TraceChecker.SilentLine | examples/tools/roctracer/check_trace.py:248-265 | a marker or a line without a record can be deleted anywhere |
| TraceChecker.CountOfName | examples/tools/roctracer/check_trace.py:248-275 | the count of a name that the patterns let through is the number of lines whose last record has that name, and 0 for every other name |
| TraceChecker.EventsOfThread | examples/tools/roctracer/check_trace.py:277-285 | the events of a thread come from exactly the lines that record a checked event for it, in the order of the lines |
| TraceChecker.DestutterIsCanonical | examples/tools/roctracer/check_trace.py:277-285 | each thread list has no adjacent equal uncounted events; lists without such repetitions are left alone, and only those |
| TraceChecker.DestutterIdempotent | examples/tools/roctracer/check_trace.py:277-285 | de-stuttering twice is de-stuttering once |
| TraceChecker.RepetitionIsInvisible | examples/tools/roctracer/check_trace.py:279-281 | repeating an uncounted event in place never changes the list |
| TraceChecker.RankedListsOfProjections | examples/tools/roctracer/check_trace.py:277-294 | the lists depend only on the per-thread projections of the trace |
| TraceChecker.RankedListAt | examples/tools/roctracer/check_trace.py:277-294 | the i-th list is the de-stuttered projection to the thread with the i-th smallest number |
| TraceChecker.SingleThread | examples/tools/roctracer/check_trace.py:277-294 | a trace with one thread has one list, made from all its names in order |
| TraceChecker.LineInterleavingIsInvisible | examples/tools/roctracer/check_trace.py:218-294 | exchanging two adjacent lines of a trace changes nothing, unless both record events of the same thread |
| TraceChecker.RankedListsCharacterised | examples/tools/roctracer/check_trace.py:277-294 | the lists in thread order are equal if and only if an order-preserving one-to-one matching of the threads pairs threads with equal lists |
| TraceChecker.RenamingIsInvisible | examples/tools/roctracer/check_trace.py:293-294 | renaming the threads changes nothing if the order of the thread numbers that occur is kept |
| TraceChecker.CountLineInjective | examples/tools/roctracer/check_trace.py:287-291 | a line determines the event and, unless the event is uncounted, its count |
| TraceChecker.TextOfOneName | examples/tools/roctracer/check_trace.py:286-298 | the exact text for a trace with one event name: with its count, or without it if the count does not matter |
| TraceChecker.CountTextsAgree | examples/tools/roctracer/check_trace.py:286-298 | two count texts are equal if and only if the events are the same and the counts of the counted ones agree |
| TraceChecker.LineOrderIsInvisible | examples/tools/roctracer/check_trace.py:271-275 | any rearrangement of the lines gives the same events and counts |
| TraceChecker.OrderTextsAgree | examples/tools/roctracer/check_trace.py:292-294 | two order texts are equal if and only if the lists in thread order are equal |
| TraceVerdict.RecordOrder | examples/tools/roctracer/check_trace.py:277-285 | one line updates the dictionary so that it describes the longer trace |
| TraceVerdict.RecordCount | examples/tools/roctracer/check_trace.py:271-275 | one line updates the counters so that they count the longer trace |
| TraceVerdict.RenderCounts | examples/tools/roctracer/check_trace.py:286-298 | the text of the counters, in dictionary order, split and sorted |
| TraceVerdict.RenderOrder | examples/tools/roctracer/check_trace.py:292-294 | the lists printed in the order of the thread numbers |
| TraceVerdict.ReprAllAppend | examples/tools/roctracer/check_trace.py:292-294 | the printed lists follow each other with nothing in between |
| TraceVerdict.GenEventsInfo | examples/tools/roctracer/check_trace.py:218-299 | the line loop computes the specified text and dictionary for each metric |
| TraceVerdict.CheckTraceStatus | examples/tools/roctracer/check_trace.py:138-214 | status 0 exactly if checking is off or the trace is listed and passes at its level, and 1 otherwise |
| TraceVerdict.PassedMeansEquivalent | examples/tools/roctracer/check_trace.py:191-214 | at a level with a metric, a trace passes if and only if it has the same events and counts, or the same lists in thread order, as the reference |
| TraceVerdict.VerdictByText | examples/tools/roctracer/check_trace.py:178-214 | for each known level text: `--check-none` passes, `--check-diff` if and only if the files are equal, `--check-count` and `--check-events` if and only if events and counts agree, `--check-order` if and only if the lists in thread order are equal |
| TraceVerdict.CountVerdict | examples/tools/roctracer/check_trace.py:191-214 | at `--check-count` and `--check-events` a trace passes if and only if each event that the patterns let through is recorded by lines of both traces or of none, and by equally many if its count matters |
| TraceVerdict.OrderVerdict | examples/tools/roctracer/check_trace.py:191-214 | at `--check-order` a trace passes if and only if an order-preserving matching of the threads pairs equal lists |
| TraceVerdict.OrderLevelSeesOrder | examples/tools/roctracer/check_trace.py:191-214 | two events of one thread in the opposite order fail at `--check-order` and pass at `--check-count` |
| TraceVerdict.ToolRecordIsCounted | examples/tools/roctracer/check_trace.py:261-275 | a line with a tool record, whatever else it matches, makes the comparison with an empty trace fail |
| TraceVerdict.LevelsThatCanFail | examples/tools/roctracer/check_trace.py:178-214 | for every configuration, some pair of traces fails at a level if and only if files are compared or the patterns of its metric let some event name through |
| TraceVerdict.ComparingLevels | examples/tools/roctracer/check_trace.py:178-214 | with patterns that let everything through, a level can fail if and only if it is one of the four comparing ones |
| TraceVerdict.MisspelledLevelPasses | examples/tools/roctracer/golden_traces/tests_trace_cmp_levels.txt:11-12 | the text `--check-event` is no known level: two traces with different events pass with it and fail with `--check-events` |
| TraceVerdict.UnknownLevelPasses | examples/tools/roctracer/check_trace.py:191-209 | for any two event names, traces that differ in events and order pass at an unknown level and fail at the level for events |
| TraceDiff.CommonPrefixUnique | examples/tools/roctracer/check_trace.py:117-129 | the first index of difference is unique |
| TraceDiff.DiffLists | examples/tools/roctracer/check_trace.py:112-129 | the nested loops find the first difference or the end of the shorter list |
| TraceDiff.DiffOrder | examples/tools/roctracer/check_trace.py:103-135 | the loops give exactly the reports of all common ranks, or all lists of the only trace with events |
| TraceDiff.RankReportMeaning | examples/tools/roctracer/check_trace.py:111-130 | for a common rank there is one report if and only if the lists differ: it names both threads, the first index of difference and the two events there, or the length of the shorter list if that is a prefix |
| TraceDiff.ReportsExplain | examples/tools/roctracer/check_trace.py:103-132 | for two traces with events the reports come in the order of the ranks, each explains the two lists of its rank, and every rank with different lists is explained |
| TraceDiff.OneSidedReports | examples/tools/roctracer/check_trace.py:103-135 | if only one trace has events, all its lists are reported, on its side |
| TraceDiff.AllListsAreRanked | examples/tools/roctracer/check_trace.py:199-201 | the lists that are compared for the report are the ones whose text decides the verdict, and the threads named are those of that rank |
| TraceDiff.SilentFailure | examples/tools/roctracer/check_trace.py:103-135 | for all traces, empty ones included, nothing is reported if and only if the lists are equal, or both traces have events and the lists of one are a proper prefix of the lists of the other |
| TraceDiff.SecondThreadUnreported | examples/tools/roctracer/check_trace.py:110-132 | threads [1] against [1, 2], alike on thread 1: the lists differ and nothing is reported |
| BabelStream.Transform | examples/stdpar/babelstream/STDDataStream.cpp:71-89 | a parallel transform in any order computes each element from the original inputs, also in place |
| BabelStream.Dot | examples/stdpar/babelstream/STDDataStream.cpp:94-98 | the reduction over the two arrays, carried out along its plan, is the generalized sum of the elementwise products |
| BabelStream.DataStream.constructor | examples/stdpar/babelstream/STDDataStream.cpp:38-43 | three separate arrays, each uniformly filled |
| BabelStream.DataStream.RunKernel | examples/stdpar/babelstream/STDDataStream.cpp:53-90 | each kernel, with nstream in two in-place passes, meets the elementwise specification |
| BabelStream.IndicesStream.RunKernel | examples/stdpar/babelstream/STDIndicesStream.cpp:57-101 | each kernel, with nstream in one pass, meets the same elementwise specification |
| BabelStream.Stream.RunKernels | examples/stdpar/babelstream/main.cpp:245-286 | any sequence of kernel calls has the same elementwise effect on either implementation |
| BabelStream.Stream.Copy | examples/stdpar/babelstream/STDDataStream.cpp:53-58 | c becomes a, element by element; a and b keep their contents, in both implementations |
| BabelStream.Stream.Mul | examples/stdpar/babelstream/STDDataStream.cpp:60-65 | b becomes scalar * c; a and c keep their contents |
| BabelStream.Stream.Add | examples/stdpar/babelstream/STDDataStream.cpp:67-72 | c becomes a + b; a and b keep their contents |
| BabelStream.Stream.Triad | examples/stdpar/babelstream/STDDataStream.cpp:74-79 | a becomes b + scalar * c; b and c keep their contents |
| BabelStream.Stream.Nstream | examples/stdpar/babelstream/STDDataStream.cpp:81-90 | a becomes a + b + scalar * c, added from the left; b and c keep their contents |
| BabelCheck.LockstepCondition | examples/stdpar/babelstream/main.cpp:523-539 | the simulation equals the arrays for all iteration counts and values if and only if, for Nstream, the two groupings of the sum agree in the arithmetic |
| BabelCheck.IterationsAgree | examples/stdpar/babelstream/main.cpp:115-147 | lockstep after any number of iterations |
| BabelCheck.AllClosedForm | examples/stdpar/babelstream/main.cpp:526-531 | after k All iterations over the reals, goldA is (2s + s^2)^k times startA |
| BabelCheck.AllClosedFormBC | examples/stdpar/babelstream/main.cpp:526-531 | goldB and goldC are s and 1 + s times the previous goldA |
| BabelCheck.NstreamClosedForm | examples/stdpar/babelstream/main.cpp:535-537 | after k Nstream iterations over the reals, goldA is startA + k (startB + s startC) |
| BabelCheck.TriadIsIdempotent | examples/stdpar/babelstream/main.cpp:532-534 | any positive number of Triad iterations equals one, in any arithmetic |
| BabelCheck.UniformDot | examples/stdpar/babelstream/STDDataStream.cpp:93-98 | over the reals the dot product of uniform arrays is the product of the two values times n, under every reduction plan |
| BabelCheck.NoError | examples/stdpar/babelstream/main.cpp:545-550 | the accumulated error is zero if and only if every element equals the simulated value |
| BabelCheck.ErrorOfDeviations | examples/stdpar/babelstream/main.cpp:545-550 | deviations of size d in either direction add up to d for each element |
| BabelCheck.ErrorAdds | examples/stdpar/babelstream/main.cpp:545-550 | the errors of two parts of an array add up |
| BabelCheck.UniformError | examples/stdpar/babelstream/main.cpp:545-558 | on a uniform array the average error exceeds the tolerance if and only if the value is above or below the simulated one by more than that |
| BabelCheck.RejectedSums | examples/stdpar/babelstream/main.cpp:551-569 | the sum is rejected if and only if it is off by more than 1e-8 of the magnitude of the expected sum, on either side |
| BabelCheck.CheckSolution | examples/stdpar/babelstream/main.cpp:513-575 | each failure flag is raised exactly when its error exceeds the tolerance, against the simulated values |
| BabelCheck.RunBenchmark | examples/stdpar/babelstream/main.cpp:105-196 | the benchmark loops apply the kernels of the selection num_times, and All ends with the dot product of the final arrays |
| BabelCheck.RunAndCheck | examples/stdpar/babelstream/main.cpp:309-345 | over the reals no implementation, selection, iteration count or reduction order fails validation |

## Left out

- TravelingSalesman.FindBestRoute: the `int` cost accumulator is unbounded here; `MachineTour.FindBestRouteOnMachine` is the same computation with overflow checks.
- TravelingSalesman.RouteIdCost: unbounded costs, as above; `MachineTour.MachineRouteCost` has the overflow checks.
- TravelingSalesman.BestRouteBounds: a fact about unbounded costs, which are those of every run free of overflow.
- TravelingSalesman.SolveTravelingSalesman: holds for every N in unbounded arithmetic; `MachineTour` says when the machine arithmetic agrees. `nbRepeat` of 0, which leaves the route -1 and fails an assertion of the constructor, is excluded. Timing and printing are not modelled.
- MachineRoute.WrappedUnranksUpTo13: N above 34 is not considered under wrap-around, where the loop divides by zero; N! above 2^64 is not a `route_id`, so only the 64-bit ids are claimed for N > 20.
- VectorAdd.VectorAdd: index arithmetic is exact here, which `VectorAdd.WrappedPartition` justifies below 2^32 threads. A negative `n`, which the comparison turns into a huge bound and an access out of bounds, and partially overlapping buffers are not considered, only identical or disjoint ones.
- MatrixMul.CheckMatrix: `int` products and sums are unbounded; by `MatrixMul.PartialSums` those of `main`, with entries below 10 and three terms, stay below 244.
- MatrixMul.Launch.Step: unbounded sums, within the range that `MatrixMul.PartialSums` gives.
- FloatSum.ReductionSum: of rounding only exactness on integers with 24-bit significands is assumed; nothing is claimed for sums above 2^24, where the result may depend on the schedule.
- BabelCheck.RunAndCheck: validation is over the reals; for `float` and `double` the lockstep results that need no law apply, but rounding inside `dot` and in the averages is not modelled.
- BabelStream.Transform: elements are visited in any order but one at a time; a kernel that is vectorised or run by several threads reads and writes the same separate elements.
- TraceVerdict.GenEventsInfo: regular expressions are taken as matched; a line is the outcome of the three record patterns and of the before/after test, and the configured patterns are predicates.
- TraceText.ReprAllInjective: `str()` of a string is modelled for strings without quotes, backslashes and control characters, as word characters are.
- The count branch of `diff_strings`, which searches rendered text with regular expressions taken from it.
- `parse_trace_levels`, `filecmp.cmp` and the file reading of check_trace.py: their outcomes are parameters.
- The literal table of city distances, and `makeCityMap`: any matrix is allowed.
- `counting_iterator` and `ranged`: modelled as the integer interval that they enumerate.
- Device discovery, memory allocation and copies, timers, command lines and all output.
- examples/stress, the veccopy, vmulsum, hello and reduction demos: elementwise loops that would only add easy members.
- The build scripts under bin and trunk.

# count_if benchmark: a verified model of its counting core

The program benchmarks ways of counting the even elements of a large
vector of `int`. Besides timing library calls, it contains three pieces of
logic of its own, and those are what this project models and proves
things about.

- **`is_even` and `custom_parallel_count_if`** (modules `Counting` and
  `Chunking`). The chunk size is `ceil(n / k)`, and worker `i` is given
  `[i * chunk_size, min(i * chunk_size + chunk_size, n))`. An empty range
  gets no task. Each task counts the even values in its range, and once
  every future is joined the partial counts are added up. The
  asynchronous tasks share nothing and are all joined before the sum is
  read, so the model treats them as a sequential map over the workers
  followed by a fold. The reference every strategy must match is the
  sequential `std::count_if(data, is_even)`, written `SeqCount`.
- **The candidate worker counts `k_values`** (module `Candidates`). They
  are derived from the hardware concurrency `H`, an `unsigned int`. Five
  to seven values are pushed, then the list is sorted with `std::sort` and
  deduplicated with `std::unique` and `erase`. The unsigned arithmetic
  wraps modulo 2^32, and the conversion to `int` on `push_back` keeps the
  value modulo 2^32 (C++20). Both are written out.
- **The third phase of `main`** (module `Driver`). It loops over
  `k_values`, skips `k == 0`, runs the custom count for every other `k`,
  and keeps the first `k` with the strictly smallest elapsed time. The
  starting best is `best_k = -1` with the largest `double` as its time.

Clock readings are inputs. `times[i]` is the elapsed time reported for
the `i`-th candidate, an exact real. The starting best time is the
parameter `top`. The hardware concurrency is the parameter `h`. The data
set is an arbitrary `seq<int>`.

Error paths follow the code:

- An empty data set returns 0 before any division.
- A worker count of 0 with non-empty data divides by zero at
  main.cpp:47, which C++ leaves undefined. Callers must exclude it, and
  the driver's `k == 0` skip does.
- A negative worker count with non-empty data makes `futures.reserve`
  receive a huge `size_t`. It throws `std::length_error`, which the model
  returns as `LengthError`. In the sweep that exception is uncaught, so
  the sweep ends as `Aborted`.

Two consequences of the code as written:

- A zero hardware-concurrency reading is not replaced by 1: for `H == 0`,
  `k_values` is `{0, 1, 32}` (`KValuesUnknownHardware`), and only the
  `k == 0` skip keeps the 0 away from the division.
- No worker count is validated: 0 divides by zero at main.cpp:47, and a
  negative count throws from `reserve`.

The candidates stay non-negative only for realistic `H`. For every `H` up to
715 827 882 no candidate is negative, and 0 appears only for `H == 0`
(`KValuesNonNegative`). From `H >= 2^31 / 3`, `3 * H` no longer fits in an
`int` and converts to a negative candidate. From `H >= 2^32 / 3` the
unsigned products also wrap. At `H = 2^31` both `-2^31` and 0 are
candidates (`KValuesWrapAround`).

## Model

| member | source | states |
|---|---|---|
| Counting.CRem | main.cpp:16 | C++ `%` for a positive divisor: the dividend is divisor times the truncated quotient plus the remainder, and the remainder is in `[0, b)` for a non-negative dividend and in `(-b, 0]` for a negative one |
| Counting.IsEvenIffDivisible | main.cpp:15-17 | `is_even(n)` holds exactly when 2 divides `n`, negative odd values included; it is symmetric under negation and alternates between consecutive integers |
| Counting.SeqCountAtMostLength | main.cpp:96 | the sequential `count_if` never exceeds the number of elements |
| Counting.SeqCountExtremes | main.cpp:96 | the count is 0 exactly when no element is even, and equals the length exactly when every element is even |
| Counting.SeqCountAppend | main.cpp:96 | the count of a concatenation is the sum of the counts of its parts |
| Counting.CountChunk | main.cpp:61-67 | one task's loop returns the sequential count of `data[start..end)`, and that is at most `end - start` |
| Chunking.ChunkSize | main.cpp:47 | `(n + k - 1) / k` is the ceiling of `n / k`: `k` chunks of that size reach `n`, one size less does not when `n > 0`, and it is 0 exactly for `n == 0` |
| Chunking.WorkerChunks | main.cpp:52-58 | the ranges that get a task are at most one per considered worker, and each satisfies `start < end <= n` |
| Chunking.WorkerChunksArePrefix | main.cpp:52-58 | worker `j` keeps its own range as the `j`-th task, because the loop skips only empty ranges and, with `chunk_size >= 1`, every skipped worker comes after the last worker that gets a task |
| Chunking.ChunksPartition | main.cpp:47-58 | for every `k >= 1` the chunks tile `[0, n)`: at most `k` of them, every index in some chunk, no two overlapping, each starting where the previous one ends |
| Chunking.EmptyDataNoChunks | main.cpp:41-43 | an empty data set produces no chunk for any `k >= 1` |
| Chunking.ParallelCount | main.cpp:40-76 | empty data gives 0, and the `length_error` happens exactly for non-empty data with a negative worker count |
| Chunking.ParallelCountAtMostSize | main.cpp:40-76 | whatever the worker count, a returned total never exceeds the data size |
| Chunking.WorkerPartialsMatchChunks | main.cpp:52-69 | there is one partial count per non-empty chunk, in order, and each is the sequential count of its chunk |
| Chunking.WorkerPartialsSum | main.cpp:52-73 | after the first `i` workers the partial counts add up to the sequential count of the prefix they cover |
| Chunking.ParallelCountExact | main.cpp:40-76 | for every `k >= 1` the parallel count equals the sequential count of the whole data set |
| Chunking.ParallelCountIndependentOfK | main.cpp:40-76 | any two worker counts of at least 1 give the same result |
| Chunking.ChunksTenByThree | main.cpp:47-58 | 10 elements over 3 workers: chunk size 4, ranges `[0,4)`, `[4,8)`, `[8,10)` |
| Chunking.CountsTwoToEleven | main.cpp:61-67 | the values 2 to 11 cut at 4 and 8 hold 2, 2 and 1 even values |
| Chunking.PartialsTwoToEleven | main.cpp:52-69 | the values 2 to 11 over 3 workers give the partial counts 2, 2, 1 in worker order |
| Chunking.ParallelCountTwoToEleven | main.cpp:40-76 | the values 2 to 11 over 3 workers count 5 |
| Chunking.SpawnOne | main.cpp:53-68 | one turn of the spawning loop adds at most one partial count, exactly the one the next worker contributes |
| Chunking.SpawnWorkers | main.cpp:52-69 | the spawning loop yields the partial counts of all `num_threads` workers in push order |
| Chunking.JoinAll | main.cpp:71-73 | the joining loop's total is the sum of all partial counts |
| Chunking.CustomParallelCountIf | main.cpp:40-76 | the method returns 0 for empty data and the sequential count for every `k >= 1`, and throws `length_error` exactly for non-empty data with a negative `k` |
| Candidates.ToInt | main.cpp:135-145 | the `unsigned`-to-`int` conversion lands in the 32-bit `int` range, is congruent to its input modulo 2^32, and leaves values below 2^31 unchanged |
| Candidates.Insert | main.cpp:147 | inserting into a sorted list keeps it sorted and adds exactly the new element to its multiset |
| Candidates.Sort | main.cpp:147 | `std::sort` yields a sorted permutation of its input |
| Candidates.SortedPermutationUnique | main.cpp:147 | two sorted permutations of the same multiset are equal, so the sort result is determined |
| Candidates.Unique | main.cpp:148 | `unique` plus `erase` keeps the same elements, never grows the list, keeps the first element, leaves no adjacent duplicates, and turns a sorted list into a strictly ascending one |
| Candidates.KValues | main.cpp:134-148 | `k_values` is strictly ascending, so free of duplicates, holds exactly the pushed values, and always contains 1 and 32 |
| Candidates.AscendingDeterminedBySet | main.cpp:147-148 | two strictly ascending lists with the same elements are equal, so only the set of pushed values matters |
| Candidates.KValuesIdempotent | main.cpp:147-148 | sorting and deduplicating `k_values` again changes nothing |
| Candidates.KValuesUnknownHardware | main.cpp:134-148 | for `H == 0` the list is `[0, 1, 32]` |
| Candidates.KValuesOneCore | main.cpp:134-148 | for `H == 1` the list is `[1, 2, 32]` |
| Candidates.KValuesEightCores | main.cpp:134-148 | for `H == 8` the list is `[1, 4, 8, 12, 16, 24, 32]` |
| Candidates.PushedWithoutWrap | main.cpp:134-145 | for `H <= 715827882` nothing wraps: the pushed values are the plain integers `1`, `H/2` (when `H > 1`), `H`, `H + H/2` (or `H + 1`), `2H`, `3H` (when `H > 2`) and `32`, none negative, with 0 only for `H == 0` |
| Candidates.KValuesNonNegative | main.cpp:136-143 | for `H <= 715827882` no candidate is negative, 0 is a candidate exactly when `H == 0`, and every other candidate is at least 1 |
| Candidates.KValuesWrapAround | main.cpp:139-141 | for `H = 2^31` the conversion yields the candidate `-2^31`, and the wrapped product `2 * H` yields 0 |
| Driver.NonZero | main.cpp:158 | the candidates surviving the skip are exactly the non-zero ones, never more than there were, and a strictly ascending candidate list stays strictly ascending |
| Driver.NonZeroAppend | main.cpp:157-158 | the skip works candidate by candidate: filtering a concatenation is filtering each part, so order and multiplicity are kept |
| Driver.SweepAborts | main.cpp:157-160 | the sweep aborts exactly when the data is non-empty and some candidate is negative |
| Driver.SweepRecords | main.cpp:157-162 | a completed sweep records exactly the non-zero candidates, in order, each with the sequential count |
| Driver.SweepTimes | main.cpp:159-162 | every record carries the time measured for its own candidate |
| Driver.SweepTimesInOrder | main.cpp:157-162 | the times of the records are, in order, the times of the candidates that survive the skip, one for one |
| Driver.SelectBest | main.cpp:153-167 | the best time is at most every recorded time and at most the start value; a best below the start value belongs to a record none of whose predecessors is as fast, so ties go to the earliest; with no record faster than the start value, `-1` stays |
| Driver.SweepAbortStays | main.cpp:157-161 | once a negative candidate has thrown, the sweep stays aborted whatever follows |
| Driver.RunCandidate | main.cpp:158-167 | one turn of the candidate loop extends the sweep and the running best as `Sweep` and `SelectBest` prescribe, or reports the abort |
| Driver.BenchmarkCustom | main.cpp:153-168 | the loop over the candidates computes `Sweep`, and when it completes its best is `SelectBest` of the records |
| Driver.SweepNonNegative | main.cpp:157-160 | with no negative candidate the sweep completes, and every run uses at least one worker and counts exactly |
| Driver.SweepOverCandidates | main.cpp:134-160 | for every `H <= 715827882` the sweep over `k_values` completes, with every run using at least one worker and returning the sequential count |
| Driver.SelectBestTieKeepsFirst | main.cpp:164-167 | for the records `(1, 2.0)`, `(4, 0.5)`, `(8, 0.5)` the best is `k = 4` with time 0.5 |

## Left out

- Threads and futures (`std::async`, `f.get()`): the tasks are modelled as a sequential map followed by a sum. The source joins every future before reading the sum, so nothing depends on scheduling.
- `generate_random_vector`: it needs a random generator. The data is an arbitrary `seq<int>`.
- `measure_time` and the `double` durations: they need the clock and floating point. Times are exact reals given as inputs, and `numeric_limits<double>::max()` is the parameter `top`.
- The `std::count_if` baselines, with and without execution policies: they are library calls. `SeqCount` is their specification.
- Console output and formatting.
- The ratio of best K to hardware threads: it is floating point, and it divides by zero when `H == 0`.
- `std::thread::hardware_concurrency`: it asks the platform. It is the parameter `h`.
- `size_t` overflow of `data_size + num_threads - 1` and of `i * chunk_size`: this needs data sizes near 2^64. Sizes are unbounded naturals.
- Memory exhaustion from spawning many tasks: it cannot be expressed in the model.
- Data values are unbounded integers: `n % 2` cannot overflow for any `int`, so nothing is lost.
- Driver.BenchmarkCustom: after an abort, the running best is not constrained. The exception is uncaught in the source and the program terminates without reporting it.
- Timing of skipped candidates: `times` has one entry per candidate, and the entry of a skipped 0 is never read. The source does not time a skipped candidate.

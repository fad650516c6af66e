/**
 The hand-written fork-join count `custom_parallel_count_if`: the data is cut
 into one contiguous chunk per worker, each non-empty chunk is counted by its
 own task, and the partial counts are summed once every task has finished.
 The tasks share nothing and are all joined before the sum is read, so they
 are modelled as a sequential map over the workers followed by a fold.
 */
module Chunking {
  import opened Counting

  function Min(a: int, b: int): int {
    if a <= b then a else b
  }

  /** A half-open index range `[start, end)` handed to one worker. */
  datatype Chunk = Chunk(start: nat, end: nat) {
    predicate IsEmpty() {
      start >= end
    }

    predicate Contains(x: int) {
      start <= x < end
    }
  }

  /** What `custom_parallel_count_if` returns: the total, or the
      `std::length_error` that `futures.reserve` throws when a negative
      worker count is converted to a huge `size_t`. */
  datatype CountResult = Ok(total: nat) | LengthError

  /** The chunk size `(data_size + num_threads - 1) / num_threads`: the
      ceiling of `n / k`, the least size with which `k` chunks reach `n`. */
  function ChunkSize(n: nat, k: nat): (cs: nat)
    requires k >= 1
    ensures cs * k >= n
    ensures n > 0 ==> cs >= 1 && (cs - 1) * k < n
    ensures n == 0 ==> cs == 0
  {
    var q := (n + k - 1) / k;
    assert n + k - 1 == q * k + (n + k - 1) % k;
    q
  }

  /** Where worker `i` starts, `i * chunk_size`, written as repeated
      addition so that proofs about consecutive workers stay linear. */
  function Start(i: nat, cs: nat): nat {
    if i == 0 then 0 else Start(i - 1, cs) + cs
  }

  lemma {:induction false} StartIsProduct(i: nat, cs: nat)
    ensures Start(i, cs) == i * cs
  {
    if i > 0 {
      StartIsProduct(i - 1, cs);
      assert (i - 1) * cs + cs == i * cs;
    }
  }

  /** The range worker `i` is given before the emptiness test:
      `[i * chunk_size, min(i * chunk_size + chunk_size, data_size))`. */
  function Assigned(n: nat, cs: nat, i: nat): Chunk {
    Chunk(Start(i, cs), Min(Start(i, cs) + cs, n))
  }

  /** The chunks that get a task once workers `0 .. i-1` have been
      considered, in order; an empty range is skipped, not stopped at. */
  function WorkerChunks(n: nat, cs: nat, i: nat): (r: seq<Chunk>)
    ensures |r| <= i
    ensures forall j :: 0 <= j < |r| ==> r[j].start < r[j].end <= n
  {
    if i == 0 then []
    else
      var c := Assigned(n, cs, i - 1);
      WorkerChunks(n, cs, i - 1) + (if c.IsEmpty() then [] else [c])
  }

  /** The chunk list for `k` workers over `n` elements. */
  function Chunks(n: nat, k: nat): seq<Chunk>
    requires k >= 1
  {
    WorkerChunks(n, ChunkSize(n, k), k)
  }

  /** The partial counts the tasks of workers `0 .. i-1` return, in the
      order their futures are kept: one per non-empty range. */
  function WorkerPartials(data: seq<int>, cs: nat, i: nat): seq<nat> {
    if i == 0 then []
    else
      var c := Assigned(|data|, cs, i - 1);
      WorkerPartials(data, cs, i - 1) + (if c.IsEmpty() then [] else [SeqCount(data[c.start..c.end])])
  }

  /** Worker `i` starts at `i * cs`, and considering it appends the count
      of its range exactly when that range is non-empty. */
  lemma SpawnStep(data: seq<int>, cs: nat, i: nat)
    ensures Assigned(|data|, cs, i) == Chunk(i * cs, Min(i * cs + cs, |data|))
    ensures var c := Assigned(|data|, cs, i);
      WorkerPartials(data, cs, i + 1)
      == WorkerPartials(data, cs, i) + (if c.IsEmpty() then [] else [SeqCount(data[c.start..c.end])])
  {
    StartIsProduct(i, cs);
  }

  /** The left-to-right sum `total_count += f.get()`. */
  function Sum(xs: seq<nat>): nat {
    if |xs| == 0 then 0 else Sum(xs[..|xs| - 1]) + xs[|xs| - 1]
  }

  /** `custom_parallel_count_if(data, k)`. With non-empty data a zero `k`
      divides by zero, which the source leaves undefined; callers skip it. */
  function ParallelCount(data: seq<int>, k: int): (r: CountResult)
    requires |data| == 0 || k != 0
    ensures |data| == 0 ==> r == Ok(0)
    ensures r.LengthError? <==> |data| > 0 && k < 0
  {
    if |data| == 0 then Ok(0)
    else if k < 0 then LengthError
    else
      var cs := ChunkSize(|data|, k);
      Ok(Sum(WorkerPartials(data, cs, k)))
  }

  // ---------------------------------------------------------------------
  // Chunk layout

  /** `cs` lays `[lo, hi)` out without gaps or overlap, in order: the last
      chunk is non-empty and ends at `hi`, and the others tile the rest. */
  predicate Tiles(cs: seq<Chunk>, lo: int, hi: int)
    decreases |cs|
  {
    if |cs| == 0 then lo == hi
    else
      var c := cs[|cs| - 1];
      c.start < c.end == hi && Tiles(cs[..|cs| - 1], lo, c.start)
  }

  /** Index `x` lies in one of the chunks. */
  ghost predicate InSome(cs: seq<Chunk>, x: int) {
    exists j :: 0 <= j < |cs| && cs[j].Contains(x)
  }

  /** No index lies in two different chunks. */
  ghost predicate Disjoint(cs: seq<Chunk>) {
    forall j, l, x :: 0 <= j < |cs| && 0 <= l < |cs| && cs[j].Contains(x) && cs[l].Contains(x) ==> j == l
  }

  /** Considering workers `0 .. i-1` lays out exactly `[0, min(i*cs, n))`. */
  lemma {:induction false} WorkerChunksTile(n: nat, cs: nat, i: nat)
    ensures Tiles(WorkerChunks(n, cs, i), 0, Min(Start(i, cs), n))
  {
    if i > 0 {
      WorkerChunksTile(n, cs, i - 1);
      var c := Assigned(n, cs, i - 1);
      var prev := WorkerChunks(n, cs, i - 1);
      assert c.end == Min(Start(i, cs), n);
      if !c.IsEmpty() {
        var cur := prev + [c];
        assert WorkerChunks(n, cs, i) == cur;
        assert cur[..|cur| - 1] == prev;
        assert Min(Start(i - 1, cs), n) == c.start;
      } else {
        assert WorkerChunks(n, cs, i) == prev;
      }
    }
  }

  /** Every chunk is the range of the worker with the same index: the
      workers that get a task are exactly `0 .. |chunks|-1`, and the skipped
      ones all come after them. */
  lemma {:induction false} WorkerChunksArePrefix(n: nat, cs: nat, i: nat)
    requires cs >= 1
    ensures forall j :: 0 <= j < |WorkerChunks(n, cs, i)| ==> WorkerChunks(n, cs, i)[j] == Assigned(n, cs, j)
    ensures forall j :: |WorkerChunks(n, cs, i)| <= j < i ==> Assigned(n, cs, j).IsEmpty()
  {
    if i > 0 {
      WorkerChunksArePrefix(n, cs, i - 1);
      var prev := WorkerChunks(n, cs, i - 1);
      var c := Assigned(n, cs, i - 1);
      if !c.IsEmpty() {
        assert WorkerChunks(n, cs, i) == prev + [c];
      } else {
        assert WorkerChunks(n, cs, i) == prev;
      }
    }
  }

  /** The shape `Tiles` promises, spelled out: every chunk is a non-empty
      part of `[lo, hi)`, consecutive chunks meet, earlier chunks end before
      later ones start, and the first starts at `lo` and the last ends at `hi`. */
  lemma {:induction false} TilesShape(cs: seq<Chunk>, lo: int, hi: int)
    requires Tiles(cs, lo, hi)
    ensures lo <= hi
    ensures forall j :: 0 <= j < |cs| ==> lo <= cs[j].start < cs[j].end <= hi
    ensures forall j :: 0 <= j < |cs| - 1 ==> cs[j].end == cs[j + 1].start
    ensures forall j, l :: 0 <= j < l < |cs| ==> cs[j].end <= cs[l].start
    ensures |cs| > 0 ==> cs[0].start == lo && cs[|cs| - 1].end == hi
    decreases |cs|
  {
    if |cs| > 0 {
      var p := cs[..|cs| - 1];
      TilesShape(p, lo, cs[|cs| - 1].start);
      assert forall j :: 0 <= j < |p| ==> p[j] == cs[j];
    }
  }

  /** Every index of `[lo, hi)` lies in some chunk of a tiling. */
  lemma {:induction false} TilesCover(cs: seq<Chunk>, lo: int, hi: int, x: int)
    requires Tiles(cs, lo, hi)
    requires lo <= x < hi
    ensures InSome(cs, x)
    decreases |cs|
  {
    var c := cs[|cs| - 1];
    if x < c.start {
      var p := cs[..|cs| - 1];
      TilesCover(p, lo, c.start, x);
      var j :| 0 <= j < |p| && p[j].Contains(x);
      assert cs[j] == p[j];
    } else {
      assert cs[|cs| - 1].Contains(x);
    }
  }

  /** The chunks for any `k >= 1` partition `[0, n)`: each index lies in
      exactly one chunk, at most `k` chunks are made, each is a non-empty
      part of the data, and each starts where the previous one ends. */
  lemma ChunksPartition(n: nat, k: nat)
    requires k >= 1
    ensures Tiles(Chunks(n, k), 0, n)
    ensures |Chunks(n, k)| <= k
    ensures forall x :: 0 <= x < n ==> InSome(Chunks(n, k), x)
    ensures Disjoint(Chunks(n, k))
    ensures forall j :: 0 <= j < |Chunks(n, k)| - 1 ==> Chunks(n, k)[j].end == Chunks(n, k)[j + 1].start
  {
    var cs := ChunkSize(n, k);
    WorkerChunksTile(n, cs, k);
    StartIsProduct(k, cs);
    assert Min(Start(k, cs), n) == n;
    var c := Chunks(n, k);
    TilesShape(c, 0, n);
    forall x | 0 <= x < n
      ensures InSome(c, x)
    {
      TilesCover(c, 0, n, x);
    }
  }

  /** An empty data set makes no chunks, for every worker count. */
  lemma EmptyDataNoChunks(k: nat)
    requires k >= 1
    ensures Chunks(0, k) == []
  {
    ChunksPartition(0, k);
  }

  // ---------------------------------------------------------------------
  // Aggregation

  /** The partial counts are the counts of the chunks, one for one. */
  lemma {:induction false} WorkerPartialsMatchChunks(data: seq<int>, cs: nat, i: nat)
    ensures |WorkerPartials(data, cs, i)| == |WorkerChunks(|data|, cs, i)|
    ensures forall j :: 0 <= j < |WorkerChunks(|data|, cs, i)| ==>
      WorkerPartials(data, cs, i)[j] == SeqCount(data[WorkerChunks(|data|, cs, i)[j].start..WorkerChunks(|data|, cs, i)[j].end])
  {
    if i > 0 {
      WorkerPartialsMatchChunks(data, cs, i - 1);
      var prevC := WorkerChunks(|data|, cs, i - 1);
      var prevP := WorkerPartials(data, cs, i - 1);
      assert forall j :: 0 <= j < |prevC| ==> WorkerChunks(|data|, cs, i)[j] == prevC[j];
      assert forall j :: 0 <= j < |prevP| ==> WorkerPartials(data, cs, i)[j] == prevP[j];
    }
  }

  /** Appending one value adds it to the sum. */
  lemma SumSnoc(xs: seq<nat>, x: nat)
    ensures Sum(xs + [x]) == Sum(xs) + x
  {
    assert (xs + [x])[..|xs|] == xs;
  }

  /** One more worker adds its chunk's count to the sum, or nothing when
      its range is empty. */
  lemma WorkerPartialsStep(data: seq<int>, cs: nat, i: nat)
    requires i > 0
    ensures var c := Assigned(|data|, cs, i - 1);
      Sum(WorkerPartials(data, cs, i))
      == Sum(WorkerPartials(data, cs, i - 1)) + (if c.IsEmpty() then 0 else SeqCount(data[c.start..c.end]))
  {
    var c := Assigned(|data|, cs, i - 1);
    if !c.IsEmpty() {
      SumSnoc(WorkerPartials(data, cs, i - 1), SeqCount(data[c.start..c.end]));
    } else {
      assert WorkerPartials(data, cs, i) == WorkerPartials(data, cs, i - 1);
    }
  }

  /** After workers `0 .. i-1` the partial counts add up to the sequential
      count of `data[..min(i*cs, n)]`: no element is dropped or counted twice. */
  lemma {:induction false} WorkerPartialsSum(data: seq<int>, cs: nat, i: nat)
    ensures Sum(WorkerPartials(data, cs, i)) == SeqCount(data[..Min(Start(i, cs), |data|)])
  {
    if i > 0 {
      WorkerPartialsSum(data, cs, i - 1);
      WorkerPartialsStep(data, cs, i);
      var c := Assigned(|data|, cs, i - 1);
      if !c.IsEmpty() {
        SeqCountSplit(data, 0, c.start, c.end);
        assert data[0..c.start] == data[..c.start];
        assert data[0..c.end] == data[..c.end];
      }
    }
  }

  /** The parallel count is exact: for every worker count `k >= 1` it is the
      sequential count of the whole data set. */
  lemma ParallelCountExact(data: seq<int>, k: int)
    requires k >= 1
    ensures ParallelCount(data, k) == Ok(SeqCount(data))
  {
    if |data| > 0 {
      var cs := ChunkSize(|data|, k);
      WorkerPartialsSum(data, cs, k);
      StartIsProduct(k, cs);
      assert Min(Start(k, cs), |data|) == |data|;
      assert data[..|data|] == data;
    }
  }

  /** The total never exceeds the size of the data set, whatever the
      worker count. */
  lemma ParallelCountAtMostSize(data: seq<int>, k: int)
    requires |data| == 0 || k != 0
    ensures ParallelCount(data, k).Ok? ==> ParallelCount(data, k).total <= |data|
  {
    if |data| > 0 && k >= 1 {
      ParallelCountExact(data, k);
      SeqCountAtMostLength(data);
    }
  }

  /** Changing the worker count changes only the timing, never the result. */
  lemma ParallelCountIndependentOfK(data: seq<int>, k1: int, k2: int)
    requires k1 >= 1 && k2 >= 1
    ensures ParallelCount(data, k1) == ParallelCount(data, k2)
  {
    ParallelCountExact(data, k1);
    ParallelCountExact(data, k2);
  }

  /** Ten elements over three workers: chunk size 4, ranges `[0, 4)`,
      `[4, 8)` and `[8, 10)`. */
  lemma ChunksTenByThree(n: nat, k: nat)
    requires n == 10 && k == 3
    ensures ChunkSize(n, k) == 4
    ensures Chunks(n, k) == [Chunk(0, 4), Chunk(4, 8), Chunk(8, 10)]
  {
    assert Start(3, 4) == 12;
    assert WorkerChunks(n, 4, 1) == [Chunk(0, 4)];
    assert WorkerChunks(n, 4, 2) == [Chunk(0, 4), Chunk(4, 8)];
  }

  /** The values `2, 3, ..., 11` cut at 4 and 8: two, two and one even
      values. */
  lemma CountsTwoToEleven(data: seq<int>)
    requires data == [2, 3, 4, 5, 6, 7, 8, 9, 10, 11]
    ensures SeqCount(data[0..4]) == 2
    ensures SeqCount(data[4..8]) == 2
    ensures SeqCount(data[8..10]) == 1
  {
    assert data[0..4] == [2, 3] + [4, 5];
    assert data[4..8] == [6, 7] + [8, 9];
    assert data[8..10] == [10, 11];
    assert SeqCount([2, 3]) == 1 && SeqCount([4, 5]) == 1;
    assert SeqCount([6, 7]) == 1 && SeqCount([8, 9]) == 1;
    assert SeqCount([10, 11]) == 1;
    SeqCountAppend([2, 3], [4, 5]);
    SeqCountAppend([6, 7], [8, 9]);
  }

  /** The same values over three workers: the partial counts are 2, 2
      and 1, in worker order. */
  lemma PartialsTwoToEleven(data: seq<int>, k: int)
    requires data == [2, 3, 4, 5, 6, 7, 8, 9, 10, 11] && k == 3
    ensures WorkerPartials(data, ChunkSize(|data|, k), k) == [2, 2, 1]
  {
    ChunksTenByThree(|data|, k);
    CountsTwoToEleven(data);
    assert WorkerPartials(data, 4, 1) == [2];
    assert WorkerPartials(data, 4, 2) == [2, 2];
  }

  /** The same run as a whole: the partial counts add up to 5. */
  lemma ParallelCountTwoToEleven(data: seq<int>, k: int)
    requires data == [2, 3, 4, 5, 6, 7, 8, 9, 10, 11] && k == 3
    ensures ParallelCount(data, k) == Ok(5)
  {
    PartialsTwoToEleven(data, k);
    assert Sum([2, 2, 1]) == 5 by {
      assert [2, 2, 1][..2] == [2, 2];
      assert [2, 2][..1] == [2];
    }
  }

  // ---------------------------------------------------------------------
  // The two loops of the source

  /** One turn of the spawning loop: worker `i` gets
      `[i * chunk_size, min(i * chunk_size + chunk_size, data_size))`; an
      empty range spawns nothing, a non-empty one a task with its count. */
  method SpawnOne(data: seq<int>, cs: nat, i: nat) returns (spawned: seq<nat>)
    ensures WorkerPartials(data, cs, i + 1) == WorkerPartials(data, cs, i) + spawned
    ensures |spawned| <= 1
  {
    var startIdx := i * cs;
    var endIdx := Min(startIdx + cs, |data|);
    SpawnStep(data, cs, i);
    if startIdx >= endIdx {
      spawned := [];
    } else {
      var local := CountChunk(data, startIdx, endIdx);
      spawned := [local];
    }
  }

  /** The spawning loop of `custom_parallel_count_if`: every worker index
      below `numThreads` is considered in order, and the partial counts of
      the tasks are kept in the order their futures are pushed. */
  method SpawnWorkers(data: seq<int>, cs: nat, numThreads: nat) returns (partials: seq<nat>)
    ensures partials == WorkerPartials(data, cs, numThreads)
  {
    partials := [];
    var i := 0;
    while i < numThreads
      invariant 0 <= i <= numThreads
      invariant partials == WorkerPartials(data, cs, i)
    {
      var spawned := SpawnOne(data, cs, i);
      partials := partials + spawned;
      i := i + 1;
    }
  }

  /** The joining loop: wait for each future in order and add its partial
      count to the running total. */
  method JoinAll(partials: seq<nat>) returns (total: nat)
    ensures total == Sum(partials)
  {
    total := 0;
    var f := 0;
    while f < |partials|
      invariant 0 <= f <= |partials|
      invariant total == Sum(partials[..f])
    {
      assert partials[..f + 1][..f] == partials[..f];
      total := total + partials[f];
      f := f + 1;
    }
    assert partials[..|partials|] == partials;
  }

  /** `custom_parallel_count_if`: the early return for empty data, the
      chunk size, the spawning loop and the joining loop. */
  method CustomParallelCountIf(data: seq<int>, numThreads: int) returns (r: CountResult)
    requires |data| == 0 || numThreads != 0
    ensures |data| == 0 ==> r == Ok(0)
    ensures numThreads >= 1 ==> r == Ok(SeqCount(data))
    ensures r.LengthError? <==> |data| > 0 && numThreads < 0
  {
    if |data| == 0 {
      return Ok(0);
    }
    if numThreads < 0 {
      // `futures.reserve(num_threads)` with a negative count
      return LengthError;
    }
    var cs := ChunkSize(|data|, numThreads);
    var partials := SpawnWorkers(data, cs, numThreads);
    var total := JoinAll(partials);
    r := Ok(total);
    ParallelCountExact(data, numThreads);
  }
}

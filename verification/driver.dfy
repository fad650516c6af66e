/**
 Phase 3 of the benchmark driver: every candidate worker count `k` from
 `k_values` except 0 is run once on the same large data set, the elapsed
 time of each run is recorded, and the `k` with the smallest time is kept.
 Elapsed times come from the clock, so they are inputs here: `times[i]` is
 what the clock reported for the `i`-th candidate. They are exact reals,
 not doubles; `top` is the starting best time, `numeric_limits<double>::max()`.
 */
module Driver {
  import opened Counting
  import opened Chunking
  import opened Candidates

  /** One timed run of the custom algorithm. */
  datatype Record = Record(k: int, time: real, count: nat)

  /** The sweep either runs every candidate, or stops with the uncaught
      `std::length_error` a negative worker count raises. */
  datatype SweepResult = Completed(records: seq<Record>) | Aborted

  /** The running best: `best_k` and `best_time`. */
  datatype Best = Best(k: int, time: real)

  /** The candidates that survive the `k == 0` skip, in order. */
  function NonZero(ks: seq<int>): (r: seq<int>)
    ensures |r| <= |ks|
    ensures forall x :: x in r <==> x in ks && x != 0
    ensures StrictlyAscending(ks) ==> StrictlyAscending(r)
  {
    if |ks| == 0 then []
    else
      var p := ks[..|ks| - 1];
      var last := ks[|ks| - 1];
      assert forall x :: x in ks <==> x in p || x == last;
      assert StrictlyAscending(ks) && last != 0 ==> StrictlyAscending(NonZero(p) + [last]) by {
        if StrictlyAscending(ks) && last != 0 {
          assert StrictlyAscending(p);
          assert forall x :: x in p ==> x < last;
          AscendingSnoc(NonZero(p), last);
        }
      }
      NonZero(p) + (if last == 0 then [] else [last])
  }

  /** A value above every element extends a strictly ascending list. */
  lemma AscendingSnoc(q: seq<int>, x: int)
    requires StrictlyAscending(q)
    requires forall y :: y in q ==> y < x
    ensures StrictlyAscending(q + [x])
  {
    var r := q + [x];
    forall i, j | 0 <= i < j < |r|
      ensures r[i] < r[j]
    {
      if j == |q| {
        assert r[i] == q[i] && q[i] in q;
      } else {
        assert r[i] == q[i] && r[j] == q[j];
      }
    }
  }

  /** The skip works candidate by candidate: filtering a concatenation is
      filtering each part, so order and multiplicity are kept. */
  lemma {:induction false} NonZeroAppend(a: seq<int>, b: seq<int>)
    ensures NonZero(a + b) == NonZero(a) + NonZero(b)
    decreases |b|
  {
    if |b| == 0 {
      assert a + b == a;
    } else {
      var b' := b[..|b| - 1];
      assert (a + b)[..|a + b| - 1] == a + b';
      assert (a + b)[|a + b| - 1] == b[|b| - 1];
      NonZeroAppend(a, b');
    }
  }

  /** The times of the candidates that survive the `k == 0` skip, in order. */
  function NonZeroTimes(ks: seq<int>, times: seq<real>): (r: seq<real>)
    requires |times| == |ks|
    ensures |r| == |NonZero(ks)|
  {
    if |ks| == 0 then []
    else
      var n := |ks| - 1;
      NonZeroTimes(ks[..n], times[..n]) + (if ks[n] == 0 then [] else [times[n]])
  }

  /** The worker counts of a list of records. */
  function KsOf(rs: seq<Record>): seq<int> {
    seq(|rs|, i requires 0 <= i < |rs| => rs[i].k)
  }

  /** The times of a list of records. */
  function TimesOf(rs: seq<Record>): seq<real> {
    seq(|rs|, i requires 0 <= i < |rs| => rs[i].time)
  }

  /** The sweep over the candidates `ks`: zero is skipped, every other `k`
      is counted with `custom_parallel_count_if` and recorded with its time.
      The `k == 0` skip is what makes the sweep defined for every `ks`. */
  function Sweep(data: seq<int>, ks: seq<int>, times: seq<real>): SweepResult
    requires |times| == |ks|
    decreases |ks|
  {
    if |ks| == 0 then Completed([])
    else
      var n := |ks| - 1;
      var prev := Sweep(data, ks[..n], times[..n]);
      var k := ks[n];
      if prev.Aborted? then Aborted
      else if k == 0 then prev
      else
        match ParallelCount(data, k)
        case LengthError => Aborted
        case Ok(c) => Completed(prev.records + [Record(k, times[n], c)])
  }

  /** The sweep aborts exactly when the data is non-empty and some
      candidate is negative. */
  lemma {:induction false} SweepAborts(data: seq<int>, ks: seq<int>, times: seq<real>)
    requires |times| == |ks|
    ensures Sweep(data, ks, times).Aborted? <==> |data| > 0 && exists i :: 0 <= i < |ks| && ks[i] < 0
    decreases |ks|
  {
    if |ks| > 0 {
      var n := |ks| - 1;
      SweepAborts(data, ks[..n], times[..n]);
      assert forall i :: 0 <= i < n ==> ks[..n][i] == ks[i];
      assert (exists i :: 0 <= i < |ks| && ks[i] < 0) <==>
        (exists i :: 0 <= i < n && ks[..n][i] < 0) || ks[n] < 0;
    }
  }

  /** A completed sweep holds one record per non-zero candidate, in order,
      each carrying the sequential count. */
  lemma {:induction false} SweepRecords(data: seq<int>, ks: seq<int>, times: seq<real>)
    requires |times| == |ks|
    ensures var r := Sweep(data, ks, times);
      r.Completed? ==>
        KsOf(r.records) == NonZero(ks) &&
        forall i :: 0 <= i < |r.records| ==> r.records[i].count == SeqCount(data)
    decreases |ks|
  {
    if |ks| > 0 {
      var n := |ks| - 1;
      SweepRecords(data, ks[..n], times[..n]);
      var prev := Sweep(data, ks[..n], times[..n]);
      var k := ks[n];
      assert NonZero(ks) == NonZero(ks[..n]) + (if k == 0 then [] else [k]);
      if prev.Completed? && k != 0 && ParallelCount(data, k).Ok? {
        var c := ParallelCount(data, k).total;
        assert c == SeqCount(data) by {
          if k >= 1 {
            ParallelCountExact(data, k);
          }
        }
        var rs := prev.records + [Record(k, times[n], c)];
        assert Sweep(data, ks, times) == Completed(rs);
        assert KsOf(rs) == KsOf(prev.records) + [k];
        assert forall i :: 0 <= i < |prev.records| ==> rs[i] == prev.records[i];
      }
    }
  }

  /** Every record carries the time measured for its own candidate. */
  lemma {:induction false} SweepTimes(data: seq<int>, ks: seq<int>, times: seq<real>)
    requires |times| == |ks|
    ensures var r := Sweep(data, ks, times);
      r.Completed? ==> forall i :: 0 <= i < |r.records| ==>
        exists j :: 0 <= j < |ks| && ks[j] == r.records[i].k && times[j] == r.records[i].time
    decreases |ks|
  {
    if |ks| > 0 {
      var n := |ks| - 1;
      var ks0, ts0 := ks[..n], times[..n];
      SweepTimes(data, ks0, ts0);
      var prev := Sweep(data, ks0, ts0);
      var k := ks[n];
      if prev.Completed? && k != 0 && ParallelCount(data, k).Ok? {
        var rs := prev.records + [Record(k, times[n], ParallelCount(data, k).total)];
        assert Sweep(data, ks, times) == Completed(rs);
        forall i | 0 <= i < |rs|
          ensures exists j :: 0 <= j < |ks| && ks[j] == rs[i].k && times[j] == rs[i].time
        {
          if i == |prev.records| {
            assert ks[n] == rs[i].k && times[n] == rs[i].time;
          } else {
            var j :| 0 <= j < n && ks0[j] == prev.records[i].k && ts0[j] == prev.records[i].time;
            assert ks[j] == rs[i].k && times[j] == rs[i].time;
          }
        }
      }
    }
  }

  /** The `i`-th record carries the time of the `i`-th candidate that
      survives the skip. */
  lemma {:induction false} SweepTimesInOrder(data: seq<int>, ks: seq<int>, times: seq<real>)
    requires |times| == |ks|
    ensures var r := Sweep(data, ks, times);
      r.Completed? ==> TimesOf(r.records) == NonZeroTimes(ks, times)
    decreases |ks|
  {
    if |ks| > 0 {
      var n := |ks| - 1;
      SweepTimesInOrder(data, ks[..n], times[..n]);
      var prev := Sweep(data, ks[..n], times[..n]);
      var k := ks[n];
      if prev.Completed? && k != 0 && ParallelCount(data, k).Ok? {
        var rs := prev.records + [Record(k, times[n], ParallelCount(data, k).total)];
        assert Sweep(data, ks, times) == Completed(rs);
        assert TimesOf(rs) == TimesOf(prev.records) + [times[n]];
      }
    }
  }

  /** The best-K rule: a record replaces the running best only when its
      time is strictly smaller, so on a tie the earliest record stays;
      with no record beating `top` the sentinel `best_k = -1` stays. */
  function SelectBest(rs: seq<Record>, top: real): (b: Best)
    ensures b.time <= top
    ensures forall i :: 0 <= i < |rs| ==> b.time <= rs[i].time
    ensures b.time == top ==> b.k == -1
    ensures (forall i :: 0 <= i < |rs| ==> top <= rs[i].time) ==> b == Best(-1, top)
    ensures b.time < top ==>
      exists i :: 0 <= i < |rs| && rs[i].k == b.k && rs[i].time == b.time &&
                  (forall j :: 0 <= j < i ==> b.time < rs[j].time)
    decreases |rs|
  {
    if |rs| == 0 then Best(-1, top)
    else
      var p := rs[..|rs| - 1];
      var prev := SelectBest(p, top);
      var r := rs[|rs| - 1];
      assert forall i :: 0 <= i < |p| ==> p[i] == rs[i];
      if r.time < prev.time then Best(r.k, r.time) else prev
  }

  /** One more candidate extends the sweep by what that candidate does. */
  lemma SweepSnoc(data: seq<int>, ks: seq<int>, times: seq<real>, i: nat)
    requires |times| == |ks| && i < |ks|
    ensures var prev := Sweep(data, ks[..i], times[..i]);
      Sweep(data, ks[..i + 1], times[..i + 1]) ==
        if prev.Aborted? then Aborted
        else if ks[i] == 0 then prev
        else if ks[i] < 0 && |data| > 0 then Aborted
        else Completed(prev.records + [Record(ks[i], times[i], SeqCount(data))])
  {
    var ks', ts' := ks[..i + 1], times[..i + 1];
    assert ks'[..i] == ks[..i] && ks'[i] == ks[i];
    assert ts'[..i] == times[..i] && ts'[i] == times[i];
    if ks[i] >= 1 {
      ParallelCountExact(data, ks[i]);
    }
  }

  /** Once the sweep has aborted, running more candidates does not revive it. */
  lemma {:induction false} SweepAbortStays(data: seq<int>, ks: seq<int>, times: seq<real>, i: nat)
    requires |times| == |ks|
    requires 0 < i <= |ks|
    requires Sweep(data, ks[..i], times[..i]) == Aborted
    ensures Sweep(data, ks, times) == Aborted
    decreases |ks| - i
  {
    if i < |ks| {
      SweepSnoc(data, ks, times, i);
      SweepAbortStays(data, ks, times, i + 1);
    } else {
      assert ks[..i] == ks;
      assert times[..i] == times;
    }
  }

  /** The body of the candidate loop for one `k`: skip 0, otherwise run
      `custom_parallel_count_if` and let a strictly faster run replace the
      best. */
  method RunCandidate(data: seq<int>, ks: seq<int>, times: seq<real>, i: nat,
                      records: seq<Record>, best: Best, top: real)
    returns (aborted: bool, records': seq<Record>, best': Best)
    requires |times| == |ks| && i < |ks|
    requires Sweep(data, ks[..i], times[..i]) == Completed(records)
    requires best == SelectBest(records, top)
    ensures aborted <==> Sweep(data, ks[..i + 1], times[..i + 1]).Aborted?
    ensures !aborted ==> Sweep(data, ks[..i + 1], times[..i + 1]) == Completed(records')
    ensures !aborted ==> best' == SelectBest(records', top)
  {
    SweepSnoc(data, ks, times, i);
    var k := ks[i];
    aborted, records', best' := false, records, best;
    if k != 0 {
      var result := CustomParallelCountIf(data, k);
      if result.LengthError? {
        aborted := true;
        return;
      }
      var rec := Record(k, times[i], result.total);
      assert result.total == SeqCount(data) by {
        if k < 0 {
          assert |data| == 0;
        } else {
          ParallelCountExact(data, k);
        }
      }
      records' := records + [rec];
      assert records'[..|records|] == records;
      if rec.time < best.time {
        best' := Best(rec.k, rec.time);
      }
    }
  }

  /** The third phase of `main`: walk the candidates in order (`k_values`
      in the program), run each non-zero one and keep the first fastest.
      A negative `k` ends the sweep with the exception `futures.reserve`
      throws, and the best found so far is not reported. */
  method BenchmarkCustom(data: seq<int>, ks: seq<int>, times: seq<real>, top: real)
    returns (sweep: SweepResult, best: Best)
    requires |times| == |ks|
    ensures sweep == Sweep(data, ks, times)
    ensures sweep.Completed? ==> best == SelectBest(sweep.records, top)
  {
    var records: seq<Record> := [];
    best := Best(-1, top);
    var i := 0;
    while i < |ks|
      invariant 0 <= i <= |ks|
      invariant Sweep(data, ks[..i], times[..i]) == Completed(records)
      invariant best == SelectBest(records, top)
    {
      var aborted;
      aborted, records, best := RunCandidate(data, ks, times, i, records, best, top);
      if aborted {
        SweepAbortStays(data, ks, times, i + 1);
        return Aborted, best;
      }
      i := i + 1;
    }
    assert ks[..|ks|] == ks;
    assert times[..|times|] == times;
    sweep := Completed(records);
  }

  /** The sweep completes, every recorded run used at least one worker and
      counted exactly what the sequential count counts. */
  ghost predicate RunsEveryCandidate(data: seq<int>, ks: seq<int>, times: seq<real>)
    requires |times| == |ks|
  {
    var r := Sweep(data, ks, times);
    r.Completed? &&
    forall i :: 0 <= i < |r.records| ==> r.records[i].k >= 1 && r.records[i].count == SeqCount(data)
  }

  /** A sweep over candidates none of which is negative runs them all. */
  lemma {:induction false} SweepNonNegative(data: seq<int>, ks: seq<int>, times: seq<real>)
    requires |times| == |ks|
    requires forall k :: k in ks ==> k >= 0
    ensures RunsEveryCandidate(data, ks, times)
  {
    SweepAborts(data, ks, times);
    SweepRecords(data, ks, times);
    var r := Sweep(data, ks, times);
    assert forall i :: 0 <= i < |ks| ==> ks[i] in ks;
    forall i | 0 <= i < |r.records|
      ensures r.records[i].k >= 1
    {
      assert KsOf(r.records)[i] == r.records[i].k;
      assert r.records[i].k in NonZero(ks);
    }
  }

  /** For every realistic hardware concurrency the sweep over `k_values`
      runs every candidate but 0 with at least one worker, and each run
      counts exactly what the sequential `std::count_if` counts. */
  lemma {:induction false} SweepOverCandidates(data: seq<int>, h: UInt32, times: seq<real>)
    requires h <= MaxSafeHardware
    requires |times| == |KValues(h)|
    ensures RunsEveryCandidate(data, KValues(h), times)
  {
    KValuesNonNegative(h);
    SweepNonNegative(data, KValues(h), times);
  }

  /** The worked case of three records `(1, 2.0)`, `(4, 0.5)`, `(8, 0.5)`:
      the tie at 0.5 goes to the earlier `k = 4`. */
  lemma SelectBestTieKeepsFirst(top: real, c: nat)
    requires top > 2.0
    ensures SelectBest([Record(1, 2.0, c), Record(4, 0.5, c), Record(8, 0.5, c)], top) == Best(4, 0.5)
  {
  }
}

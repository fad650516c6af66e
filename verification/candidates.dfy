/**
 The candidate worker counts `k_values` the benchmark tries, derived from
 the reported hardware concurrency `H` (an `unsigned int`): the values are
 pushed into a `std::vector<int>`, sorted with `std::sort` and deduplicated
 with `std::unique` followed by `erase`.
 */
module Candidates {

  const Two32: int := 0x1_0000_0000

  /** An `unsigned int`, as `std::thread::hardware_concurrency` returns it. */
  type UInt32 = x: int | 0 <= x < Two32

  /** Unsigned addition, which wraps around modulo 2^32. */
  function UAdd(a: UInt32, b: UInt32): UInt32 {
    (a + b) % Two32
  }

  /** Unsigned multiplication by a small constant, modulo 2^32. */
  function UMul(a: UInt32, m: nat): UInt32 {
    (a * m) % Two32
  }

  /** Conversion of an `unsigned int` to `int` on `push_back`: the value is
      kept modulo 2^32 in the range of a 32-bit `int` (C++20). */
  function ToInt(x: UInt32): (r: int)
    ensures -0x8000_0000 <= r < 0x8000_0000
    ensures (r - x) % Two32 == 0
    ensures x < 0x8000_0000 ==> r == x
  {
    if x < 0x8000_0000 then x else x - Two32
  }

  /** The values pushed into `k_values`, in push order, before sorting. */
  function Pushed(h: UInt32): seq<int> {
    [1]
    + (if h > 1 then [ToInt(h / 2)] else [])
    + [ToInt(h), ToInt(UAdd(h, if h > 1 then h / 2 else 1)), ToInt(UMul(h, 2))]
    + (if h > 2 then [ToInt(UMul(h, 3))] else [])
    + [32]
  }

  ghost predicate Sorted(s: seq<int>) {
    forall i, j :: 0 <= i < j < |s| ==> s[i] <= s[j]
  }

  ghost predicate StrictlyAscending(s: seq<int>) {
    forall i, j :: 0 <= i < j < |s| ==> s[i] < s[j]
  }

  /** Inserts `x` into a sorted sequence before the first element not
      smaller than it. */
  function Insert(x: int, s: seq<int>): (r: seq<int>)
    requires Sorted(s)
    ensures Sorted(r)
    ensures multiset(r) == multiset(s) + multiset{x}
  {
    if |s| == 0 then [x]
    else if x <= s[0] then [x] + s
    else
      var t := Insert(x, s[1..]);
      assert s == [s[0]] + s[1..];
      ConsSorted(s[0], t, s[1..], x);
      [s[0]] + t
  }

  /** Putting `h` in front of a sorted `t` keeps it sorted when every
      element of `t` is `x` or an element of `rest`, all of them `>= h`. */
  lemma ConsSorted(h: int, t: seq<int>, rest: seq<int>, x: int)
    requires Sorted(t)
    requires h <= x
    requires forall k :: 0 <= k < |rest| ==> h <= rest[k]
    requires multiset(t) == multiset(rest) + multiset{x}
    ensures Sorted([h] + t)
  {
    forall k | 0 <= k < |t|
      ensures h <= t[k]
    {
      assert t[k] in multiset(t);
      if t[k] != x {
        assert t[k] in multiset(rest);
      }
    }
  }

  /** `std::sort`: some sorted permutation of the input. Which algorithm
      produces it does not matter, because a sorted permutation is unique
      (`SortedPermutationUnique`). */
  function Sort(s: seq<int>): (r: seq<int>)
    ensures Sorted(r)
    ensures multiset(r) == multiset(s)
  {
    if |s| == 0 then []
    else
      assert s == [s[0]] + s[1..];
      Insert(s[0], Sort(s[1..]))
  }

  /** `std::unique` followed by `erase`: of every run of equal adjacent
      elements only the first is kept. */
  function Unique(s: seq<int>): (r: seq<int>)
    ensures forall x :: x in r <==> x in s
    ensures |r| <= |s|
    ensures |s| > 0 ==> |r| > 0 && r[0] == s[0]
    ensures forall i :: 0 <= i < |r| - 1 ==> r[i] != r[i + 1]
    ensures Sorted(s) ==> StrictlyAscending(r)
  {
    if |s| <= 1 then s
    else
      var t := Unique(s[1..]);
      assert forall x :: x in s <==> x == s[0] || x in s[1..];
      if s[0] == s[1] then t else [s[0]] + t
  }

  /** `k_values` after sort and unique: strictly ascending, so free of
      duplicates, holding exactly the pushed values, always 1 and 32. */
  function KValues(h: UInt32): (ks: seq<int>)
    ensures StrictlyAscending(ks)
    ensures forall x :: x in ks <==> x in Pushed(h)
    ensures 1 in ks && 32 in ks
  {
    assert 1 in Pushed(h) && 32 in Pushed(h);
    var sorted := Sort(Pushed(h));
    assert forall x :: x in sorted <==> x in multiset(Pushed(h));
    Unique(sorted)
  }

  // ---------------------------------------------------------------------
  // What the sort and the deduplication determine

  /** Two sorted sequences with the same elements, counted with
      multiplicity, are equal: `std::sort` has only one possible result. */
  lemma {:induction false} SortedPermutationUnique(a: seq<int>, b: seq<int>)
    requires Sorted(a) && Sorted(b)
    requires multiset(a) == multiset(b)
    ensures a == b
    decreases |a|
  {
    if |a| == 0 {
      assert |multiset(b)| == 0;
    } else {
      assert |b| == |multiset(b)| == |multiset(a)| == |a|;
      assert a[0] in multiset(b);
      assert b[0] in multiset(a);
      assert a[0] == b[0];
      assert a == [a[0]] + a[1..];
      assert b == [b[0]] + b[1..];
      assert multiset(a) == multiset{a[0]} + multiset(a[1..]);
      assert multiset(b) == multiset{b[0]} + multiset(b[1..]);
      assert multiset(a[1..]) == multiset(a) - multiset{a[0]};
      assert multiset(b[1..]) == multiset(b) - multiset{b[0]};
      SortedPermutationUnique(a[1..], b[1..]);
    }
  }

  /** Sequences with the same elements are both empty or both not. */
  lemma NonEmptyBySet(a: seq<int>, b: seq<int>)
    requires forall x :: x in a <==> x in b
    ensures |a| > 0 <==> |b| > 0
  {
    if |a| > 0 {
      var x := a[0];
      assert x in a;
      assert x in b;
    }
    if |b| > 0 {
      var x := b[0];
      assert x in b;
      assert x in a;
    }
  }

  /** Two strictly ascending sequences with the same elements are equal:
      after sort and unique only the set of pushed values matters. */
  lemma {:induction false} AscendingDeterminedBySet(a: seq<int>, b: seq<int>)
    requires StrictlyAscending(a) && StrictlyAscending(b)
    requires forall x :: x in a <==> x in b
    ensures a == b
    decreases |a|
  {
    NonEmptyBySet(a, b);
    if |a| > 0 {
      assert a[0] in b && b[0] in a;
      assert a[0] == b[0];
      forall x
        ensures x in a[1..] <==> x in b[1..]
      {
        assert x in a <==> x == a[0] || x in a[1..];
        assert x in b <==> x == b[0] || x in b[1..];
      }
      AscendingDeterminedBySet(a[1..], b[1..]);
      assert a == [a[0]] + a[1..];
      assert b == [b[0]] + b[1..];
    }
  }

  /** Sorting and deduplicating `k_values` once more changes nothing. */
  lemma KValuesIdempotent(h: UInt32)
    ensures Unique(Sort(KValues(h))) == KValues(h)
  {
    var ks := KValues(h);
    SortedPermutationUnique(Sort(ks), ks);
    AscendingDeterminedBySet(Unique(ks), ks);
  }

  // ---------------------------------------------------------------------
  // Worked cases

  /** A strictly ascending list with exactly the pushed values is what
      `k_values` ends up as. */
  lemma KValuesFromSet(h: UInt32, expected: seq<int>)
    requires StrictlyAscending(expected)
    requires forall x :: x in expected <==> x in Pushed(h)
    ensures KValues(h) == expected
  {
    AscendingDeterminedBySet(KValues(h), expected);
  }

  /** When the hardware concurrency is unknown (`H == 0`) the list is
      `{0, 1, 32}`; the driver's `k == 0` skip keeps the 0 from ever
      reaching the division in the chunk size. */
  lemma KValuesUnknownHardware(h: UInt32)
    requires h == 0
    ensures KValues(h) == [0, 1, 32]
  {
    assert Pushed(h) == [1, 0, 1, 0, 32];
    KValuesFromSet(h, [0, 1, 32]);
  }

  /** A single core: `{1, 2, 32}`. */
  lemma KValuesOneCore(h: UInt32)
    requires h == 1
    ensures KValues(h) == [1, 2, 32]
  {
    assert Pushed(h) == [1, 1, 2, 2, 32];
    KValuesFromSet(h, [1, 2, 32]);
  }

  /** Eight logical cores: `{1, 4, 8, 12, 16, 24, 32}`. */
  lemma KValuesEightCores(h: UInt32)
    requires h == 8
    ensures KValues(h) == [1, 4, 8, 12, 16, 24, 32]
  {
    assert Pushed(h) == [1, 4, 8, 12, 16, 24, 32];
    KValuesFromSet(h, [1, 4, 8, 12, 16, 24, 32]);
  }

  /** Largest `H` for which `3 * H` still fits in an `int`. */
  const MaxSafeHardware: int := 0x2AAA_AAAA

  /** For every realistic `H` no candidate is negative, and 0 is a
      candidate exactly when `H == 0`; so after the `k == 0` skip every
      worker count the driver uses is at least 1. */
  lemma KValuesNonNegative(h: UInt32)
    requires h <= MaxSafeHardware
    ensures forall k :: k in KValues(h) ==> k >= 0
    ensures 0 in KValues(h) <==> h == 0
    ensures forall k :: k in KValues(h) && k != 0 ==> k >= 1
  {
    PushedWithoutWrap(h);
  }

  /** Below `MaxSafeHardware` nothing wraps: the pushed values are the
      plain integers `1, H/2, H, H + H/2 (or H + 1), 2H, 3H, 32`. */
  lemma PushedWithoutWrap(h: UInt32)
    requires h <= MaxSafeHardware
    ensures Pushed(h) == [1] + (if h > 1 then [h / 2] else [])
      + [h, h + (if h > 1 then h / 2 else 1), 2 * h]
      + (if h > 2 then [3 * h] else []) + [32]
    ensures forall k :: k in Pushed(h) ==> k >= 0 && (k == 0 ==> h == 0)
    ensures h == 0 ==> 0 in Pushed(h)
  {
    var half := if h > 1 then h / 2 else 1;
    assert UAdd(h, half) == h + half;
    assert UMul(h, 2) == 2 * h;
    assert UMul(h, 3) == 3 * h;
    assert ToInt(h + half) == h + half;
    assert ToInt(2 * h) == 2 * h;
    assert ToInt(3 * h) == 3 * h;
  }

  /** For `H = 2^31` the unsigned products wrap and the conversion to `int`
      turns `H` itself into `-2^31`, a negative worker count. */
  lemma KValuesWrapAround()
    ensures -0x8000_0000 in KValues(0x8000_0000)
    ensures 0 in KValues(0x8000_0000)
  {
    assert Pushed(0x8000_0000)[2] == -0x8000_0000;
    assert Pushed(0x8000_0000)[4] == 0;
  }
}

/**
 The predicate and the sequential count that every counting strategy of the
 benchmark must agree with: `is_even` and `std::count_if(data, is_even)`.
 */
module Counting {

  /** C++ `/` on `int` for a positive divisor: the quotient truncates toward
      zero (Dafny's `/` is Euclidean and rounds negative quotients down). */
  function CDiv(a: int, b: int): int
    requires b > 0
  {
    if a >= 0 then a / b else -((-a) / b)
  }

  /** C++ `%` on `int` for a positive divisor: what is left after the
      truncating quotient, so a non-zero remainder takes the sign of the
      dividend (Dafny's `%` is never negative). */
  function CRem(a: int, b: int): (r: int)
    requires b > 0
    ensures a == b * CDiv(a, b) + r
    ensures a >= 0 ==> 0 <= r < b
    ensures a < 0 ==> -b < r <= 0
  {
    if a >= 0 then a % b
    else
      assert -a == b * ((-a) / b) + (-a) % b;
      -((-a) % b)
  }

  /** `is_even`: the remainder of `n` by 2, as C++ computes it, is zero. */
  predicate IsEven(n: int) {
    CRem(n, 2) == 0
  }

  /** For negative odd `n` the C++ remainder is -1, not 1; the test still
      agrees with divisibility by two. */
  lemma IsEvenIffDivisible(n: int)
    ensures IsEven(n) <==> n % 2 == 0
    ensures IsEven(n) <==> IsEven(-n)
    ensures IsEven(n) <==> !IsEven(n + 1)
  {
  }

  /** Contribution of one element to a count. */
  function Hit(x: int): nat {
    if IsEven(x) then 1 else 0
  }

  /** The sequential count `std::count_if(s.begin(), s.end(), is_even)`,
      a left-to-right fold. This is the reference every strategy must meet. */
  function SeqCount(s: seq<int>): nat {
    if |s| == 0 then 0 else SeqCount(s[..|s| - 1]) + Hit(s[|s| - 1])
  }

  /** No count exceeds the number of elements counted. */
  lemma {:induction false} SeqCountAtMostLength(s: seq<int>)
    ensures SeqCount(s) <= |s|
    decreases |s|
  {
    if |s| > 0 {
      SeqCountAtMostLength(s[..|s| - 1]);
    }
  }

  /** The count is zero exactly when no element is even, and equals the
      length exactly when every element is. */
  lemma {:induction false} SeqCountExtremes(s: seq<int>)
    ensures SeqCount(s) == 0 <==> forall i :: 0 <= i < |s| ==> !IsEven(s[i])
    ensures SeqCount(s) == |s| <==> forall i :: 0 <= i < |s| ==> IsEven(s[i])
    decreases |s|
  {
    if |s| > 0 {
      var p := s[..|s| - 1];
      SeqCountExtremes(p);
      SeqCountAtMostLength(p);
      assert forall i :: 0 <= i < |p| ==> p[i] == s[i];
    }
  }

  /** Counting distributes over concatenation, so a count may be split at
      any point and the parts added. */
  lemma {:induction false} SeqCountAppend(a: seq<int>, b: seq<int>)
    ensures SeqCount(a + b) == SeqCount(a) + SeqCount(b)
    decreases |b|
  {
    if |b| == 0 {
      assert a + b == a;
    } else {
      var b' := b[..|b| - 1];
      assert (a + b)[..|a + b| - 1] == a + b';
      assert (a + b)[|a + b| - 1] == b[|b| - 1];
      SeqCountAppend(a, b');
    }
  }

  /** The count over `[lo, hi)` is the count over `[lo, mid)` plus the count
      over `[mid, hi)`. */
  lemma SeqCountSplit(data: seq<int>, lo: nat, mid: nat, hi: nat)
    requires lo <= mid <= hi <= |data|
    ensures SeqCount(data[lo..hi]) == SeqCount(data[lo..mid]) + SeqCount(data[mid..hi])
  {
    assert data[lo..hi] == data[lo..mid] + data[mid..hi];
    SeqCountAppend(data[lo..mid], data[mid..hi]);
  }

  /** The body of one worker task: walk `[start, end)` with a private
      counter and bump it for every element `is_even` accepts. */
  method CountChunk(data: seq<int>, start: nat, end: nat) returns (local: nat)
    requires start <= end <= |data|
    ensures local == SeqCount(data[start..end])
    ensures local <= end - start
  {
    local := 0;
    var j := start;
    while j < end
      invariant start <= j <= end
      invariant local == SeqCount(data[start..j])
    {
      assert data[start..j + 1][..j - start] == data[start..j];
      if IsEven(data[j]) {
        local := local + 1;
      }
      j := j + 1;
    }
    SeqCountAtMostLength(data[start..end]);
  }
}

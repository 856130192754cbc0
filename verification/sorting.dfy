/** Orderings and statistics used by the pipeline: the descending value
    sort behind the load-duration curves and the median, the maximum behind
    the peak metrics, the mean, and `sorted(set(...))` on hour lists. */
module Sorting {
  import opened Series

  predicate NonIncreasing(s: seq<real>) {
    forall i, j :: 0 <= i < j < |s| ==> s[i] >= s[j]
  }

  predicate StrictlyIncreasing(s: seq<int>) {
    forall i, j :: 0 <= i < j < |s| ==> s[i] < s[j]
  }

  /** Inserts `x` into a non-increasing sequence, keeping it non-increasing. */
  function InsertDesc(x: real, s: seq<real>): (r: seq<real>)
    requires NonIncreasing(s)
    ensures NonIncreasing(r)
    ensures multiset(r) == multiset(s) + multiset{x}
    ensures |r| == |s| + 1 && (r[0] == x || (|s| > 0 && r[0] == s[0]))
  {
    if |s| == 0 || x >= s[0] then [x] + s
    else
      var tail := InsertDesc(x, s[1..]);
      assert s == [s[0]] + s[1..];
      assert s[0] >= tail[0];
      [s[0]] + tail
  }

  /** `sort_values(ascending=False)`: a non-increasing permutation. */
  function SortDesc(s: seq<real>): (r: seq<real>)
    ensures NonIncreasing(r)
    ensures multiset(r) == multiset(s)
    ensures |r| == |s|
  {
    if |s| == 0 then []
    else
      assert s == [s[0]] + s[1..];
      InsertDesc(s[0], SortDesc(s[1..]))
  }

  /** Largest element, as pandas `max()`. */
  function MaxOf(s: seq<real>): (m: real)
    requires |s| > 0
    ensures forall i :: 0 <= i < |s| ==> s[i] <= m
    ensures m in s
  {
    if |s| == 1 then s[0]
    else
      var rest := MaxOf(s[1..]);
      if s[0] >= rest then s[0] else rest
  }

  /** Smallest element, as pandas `min()`. */
  function MinOf(s: seq<real>): (m: real)
    requires |s| > 0
    ensures forall i :: 0 <= i < |s| ==> m <= s[i]
    ensures m in s
  {
    if |s| == 1 then s[0]
    else
      var rest := MinOf(s[1..]);
      if s[0] <= rest then s[0] else rest
  }

  /** The median as pandas computes it: the middle element of the sorted
      values, or the mean of the two middle ones when the count is even;
      `None` (NaN) for no values. */
  function Median(s: seq<real>): (m: Option<real>)
    ensures m.None? <==> |s| == 0
  {
    if |s| == 0 then None else Some(Middle(SortDesc(s)))
  }

  function Middle(d: seq<real>): real
    requires |d| > 0
  {
    var n := |d|;
    if n % 2 == 1 then d[n / 2] else (d[n / 2 - 1] + d[n / 2]) / 2.0
  }

  /** The median lies between the smallest and the largest value. */
  lemma MedianWithinRange(s: seq<real>)
    requires |s| > 0
    ensures Median(s).Some?
    ensures MinOf(s) <= Median(s).value <= MaxOf(s)
  {
    var d := SortDesc(s);
    forall i | 0 <= i < |d|
      ensures MinOf(s) <= d[i] <= MaxOf(s)
    {
      SortedWithin(s, d, i);
    }
    MiddleWithin(d, MinOf(s), MaxOf(s));
  }

  lemma MiddleWithin(d: seq<real>, lo: real, hi: real)
    requires |d| > 0 && forall i :: 0 <= i < |d| ==> lo <= d[i] <= hi
    ensures lo <= Middle(d) <= hi
  {
    var n := |d|;
    assert 0 <= n / 2 < n;
    if n % 2 == 0 {
      assert 0 <= n / 2 - 1;
    }
  }

  lemma SortedWithin(s: seq<real>, d: seq<real>, i: int)
    requires |s| > 0 && multiset(d) == multiset(s) && 0 <= i < |d|
    ensures MinOf(s) <= d[i] <= MaxOf(s)
  {
    assert d[i] in multiset(d);
    assert d[i] in multiset(s);
    var j :| 0 <= j < |s| && s[j] == d[i];
  }

  /** Two non-increasing orderings of the same values are the same
      sequence. */
  lemma {:induction false} SortedUnique(a: seq<real>, b: seq<real>)
    requires NonIncreasing(a) && NonIncreasing(b) && multiset(a) == multiset(b)
    ensures a == b
  {
    assert |a| == |multiset(a)| == |b|;
    if |a| > 0 {
      SameHead(a, b);
      SameHead(b, a);
      assert a == [a[0]] + a[1..];
      assert b == [b[0]] + b[1..];
      assert multiset(a) == multiset{a[0]} + multiset(a[1..]);
      assert multiset(b) == multiset{a[0]} + multiset(b[1..]);
      forall x
        ensures multiset(a[1..])[x] == multiset(b[1..])[x]
      {
        assert multiset(a)[x] == multiset{a[0]}[x] + multiset(a[1..])[x];
        assert multiset(b)[x] == multiset{a[0]}[x] + multiset(b[1..])[x];
      }
      assert multiset(a[1..]) == multiset(b[1..]);
      SortedUnique(a[1..], b[1..]);
    }
  }

  /** The head of a non-increasing sequence is at least every value of
      another sequence with the same values. */
  lemma SameHead(a: seq<real>, b: seq<real>)
    requires NonIncreasing(b) && multiset(a) == multiset(b) && |a| > 0 && |b| > 0
    ensures a[0] <= b[0]
  {
    assert a[0] in multiset(b);
    var j :| 0 <= j < |b| && b[j] == a[0];
  }

  /** The median depends on the values only, not on their order. */
  lemma MedianOfPermutation(s: seq<real>, t: seq<real>)
    requires multiset(s) == multiset(t)
    ensures Median(s) == Median(t)
  {
    assert |s| == |multiset(s)| == |t|;
    SortedUnique(SortDesc(s), SortDesc(t));
  }

  /** On values already in order the median is the middle value, or the
      mean of the two middle values when the count is even. */
  lemma MedianOfSorted(s: seq<real>)
    requires |s| > 0 && NonIncreasing(s)
    ensures Median(s) == Some(if |s| % 2 == 1 then s[|s| / 2] else (s[|s| / 2 - 1] + s[|s| / 2]) / 2.0)
  {
    SortedUnique(SortDesc(s), s);
  }

  /** Inserts `x` into a strictly increasing sequence unless present. */
  function InsertUnique(x: int, s: seq<int>): (r: seq<int>)
    requires StrictlyIncreasing(s)
    ensures StrictlyIncreasing(r)
    ensures forall k :: k in r <==> k in s || k == x
    ensures |r| > 0 && (r[0] == x || (|s| > 0 && r[0] == s[0]))
  {
    if |s| == 0 then [x]
    else if x < s[0] then [x] + s
    else if x == s[0] then s
    else
      var tail := InsertUnique(x, s[1..]);
      assert s == [s[0]] + s[1..];
      assert s[0] < tail[0];
      [s[0]] + tail
  }

  /** `sorted(set(xs))`: the distinct elements of `xs` in increasing order. */
  function SortedDistinct(xs: seq<int>): (r: seq<int>)
    ensures StrictlyIncreasing(r)
    ensures forall k :: k in r <==> k in xs
  {
    if |xs| == 0 then []
    else
      assert forall k :: k in xs <==> k == xs[0] || k in xs[1..];
      InsertUnique(xs[0], SortedDistinct(xs[1..]))
  }

  lemma {:induction false} SumBounds(xs: seq<real>, lo: real, hi: real)
    requires forall i :: 0 <= i < |xs| ==> lo <= xs[i] <= hi
    ensures (|xs| as real) * lo <= Sum(xs) <= (|xs| as real) * hi
  {
    if |xs| > 0 {
      SumBounds(xs[1..], lo, hi);
    }
  }

  /** `np.mean` of a nonempty list: the value that, taken once per element,
      gives the sum. */
  function Mean(xs: seq<real>): (m: real)
    requires |xs| > 0
    ensures m * (|xs| as real) == Sum(xs)
  {
    Sum(xs) / (|xs| as real)
  }

  lemma MeanBetween(xs: seq<real>, lo: real, hi: real)
    requires |xs| > 0 && forall i :: 0 <= i < |xs| ==> lo <= xs[i] <= hi
    ensures lo <= Mean(xs) <= hi
  {
    SumBounds(xs, lo, hi);
    QuotientBounds(Sum(xs), |xs| as real, lo, hi);
  }

  lemma QuotientBounds(total: real, n: real, lo: real, hi: real)
    requires n > 0.0 && n * lo <= total <= n * hi
    ensures lo <= total / n <= hi
  {
  }

  /** The mean lies between the smallest and the largest value. */
  lemma MeanWithinRange(xs: seq<real>)
    requires |xs| > 0
    ensures MinOf(xs) <= Mean(xs) <= MaxOf(xs)
  {
    MeanBetween(xs, MinOf(xs), MaxOf(xs));
  }
}

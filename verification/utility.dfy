/** Order statistics and averaging over real-valued series.

    The running mean (`SafeAverage`) and the quickselect lower median (`GetMedian`)
    that the decomposition, the trend filter and the anomaly score all share.
    Doubles are modelled as `real`, so rounding and overflow are not part of the model.
 */
module Utility {

  /** A value that may be absent. */
  datatype Option<T> = None | Some(value: T)

  /** Sum of a sequence, accumulated from the front. */
  function Sum(s: seq<real>): real
  {
    if |s| == 0 then 0.0 else Sum(s[..|s| - 1]) + s[|s| - 1]
  }

  /** The arithmetic mean, `Sum / Count`, of a non-empty sequence (LINQ `Average`). */
  function Average(s: seq<real>): real
    requires |s| > 0
  {
    Sum(s) / (|s| as real)
  }

  /** Welford-style running mean: starting from 0, the t-th item (1-based) moves the
      average by `(x - avg) / t`.  Over the reals this is exactly the arithmetic mean,
      and 0 for an empty sequence. */
  function SafeAverage(s: seq<real>): (avg: real)
    ensures |s| == 0 ==> avg == 0.0
    ensures |s| > 0 ==> avg == Average(s)
  {
    if |s| == 0 then 0.0
    else
      var prev := SafeAverage(s[..|s| - 1]);
      WelfordStep(prev, s[|s| - 1], |s|, Sum(s[..|s| - 1]));
      prev + (s[|s| - 1] - prev) / (|s| as real)
  }

  /** One running-mean update turns the mean of t - 1 items into the mean of t items. */
  lemma WelfordStep(prev: real, x: real, t: int, sum: real)
    requires t >= 1
    requires t == 1 ==> prev == 0.0 && sum == 0.0
    requires t > 1 ==> prev == sum / ((t - 1) as real)
    ensures prev + (x - prev) / (t as real) == (sum + x) / (t as real)
  {
    var n := t as real;
    if t > 1 {
      assert prev * (n - 1.0) == sum;
      calc {
        prev + (x - prev) / n;
        (prev * n + x - prev) / n;
        (prev * (n - 1.0) + x) / n;
        (sum + x) / n;
      }
    }
  }

  lemma {:induction false} SumAppend(a: seq<real>, b: seq<real>)
    ensures Sum(a + b) == Sum(a) + Sum(b)
    decreases |b|
  {
    if |b| == 0 {
      assert a + b == a;
    } else {
      assert (a + b)[..|a + b| - 1] == a + b[..|b| - 1];
      SumAppend(a, b[..|b| - 1]);
    }
  }

  /** A sum of non-negative terms is non-negative, and it is zero only when every term is. */
  lemma {:induction false} SumNonNegative(s: seq<real>)
    requires forall i :: 0 <= i < |s| ==> s[i] >= 0.0
    ensures Sum(s) >= 0.0
    ensures Sum(s) == 0.0 <==> forall i :: 0 <= i < |s| ==> s[i] == 0.0
  {
    if |s| > 0 {
      SumNonNegative(s[..|s| - 1]);
    }
  }

  /** The mean of non-negative values is non-negative, and zero exactly when all of them are. */
  lemma SafeAverageNonNegative(s: seq<real>)
    requires forall i :: 0 <= i < |s| ==> s[i] >= 0.0
    ensures SafeAverage(s) >= 0.0
    ensures SafeAverage(s) == 0.0 <==> forall i :: 0 <= i < |s| ==> s[i] == 0.0
  {
    SumNonNegative(s);
    if |s| > 0 {
      QuotientSign(Sum(s), |s| as real);
    }
  }

  lemma QuotientSign(x: real, n: real)
    requires x >= 0.0 && n > 0.0
    ensures x / n >= 0.0
    ensures x / n == 0.0 <==> x == 0.0
  {
  }

  /** Subtracting a constant from every term lowers the sum by count times that constant. */
  lemma {:induction false} SumShift(s: seq<real>, c: real, r: seq<real>)
    requires |r| == |s|
    requires forall i :: 0 <= i < |s| ==> r[i] == s[i] - c
    ensures Sum(r) == Sum(s) - (|s| as real) * c
  {
    if |s| > 0 {
      SumShift(s[..|s| - 1], c, r[..|r| - 1]);
    }
  }

  // ---------------------------------------------------------------------------
  // Order statistics, characterised by counting

  /** `x` lies below `v`: strictly, or also when equal if `inclusive`. */
  predicate Below(x: real, v: real, inclusive: bool)
  {
    x < v || (inclusive && x == v)
  }

  /** Number of entries of `s` below `v`. */
  function CountBelow(s: seq<real>, v: real, inclusive: bool): nat
  {
    if |s| == 0 then 0
    else CountBelow(s[..|s| - 1], v, inclusive) + (if Below(s[|s| - 1], v, inclusive) then 1 else 0)
  }

  /** `v` is the k-th smallest entry (0-based) of `s`: at most k entries are smaller
      than `v`, and more than k entries are no larger than `v`. */
  predicate IsOrderStat(s: seq<real>, k: int, v: real)
  {
    CountBelow(s, v, false) <= k < CountBelow(s, v, true)
  }

  lemma {:induction false} CountBelowBound(s: seq<real>, v: real, inclusive: bool)
    ensures CountBelow(s, v, inclusive) <= |s|
  {
    if |s| > 0 {
      CountBelowBound(s[..|s| - 1], v, inclusive);
    }
  }

  lemma {:induction false} CountBelowAppend(a: seq<real>, b: seq<real>, v: real, inclusive: bool)
    ensures CountBelow(a + b, v, inclusive) == CountBelow(a, v, inclusive) + CountBelow(b, v, inclusive)
    decreases |b|
  {
    if |b| == 0 {
      assert a + b == a;
    } else {
      assert (a + b)[..|a + b| - 1] == a + b[..|b| - 1];
      CountBelowAppend(a, b[..|b| - 1], v, inclusive);
    }
  }

  lemma {:induction false} CountBelowAll(s: seq<real>, v: real, inclusive: bool)
    requires forall i :: 0 <= i < |s| ==> Below(s[i], v, inclusive)
    ensures CountBelow(s, v, inclusive) == |s|
  {
    if |s| > 0 {
      CountBelowAll(s[..|s| - 1], v, inclusive);
    }
  }

  lemma {:induction false} CountBelowNone(s: seq<real>, v: real, inclusive: bool)
    requires forall i :: 0 <= i < |s| ==> !Below(s[i], v, inclusive)
    ensures CountBelow(s, v, inclusive) == 0
  {
    if |s| > 0 {
      CountBelowNone(s[..|s| - 1], v, inclusive);
    }
  }

  /** The inclusive count exceeds the strict one by the multiplicity of `v`. */
  lemma {:induction false} CountBelowMultiplicity(s: seq<real>, v: real)
    ensures CountBelow(s, v, true) == CountBelow(s, v, false) + multiset(s)[v]
  {
    if |s| > 0 {
      CountBelowMultiplicity(s[..|s| - 1], v);
      assert s == s[..|s| - 1] + [s[|s| - 1]];
    }
  }

  /** Counts depend only on the multiset of entries. */
  lemma {:induction false} CountBelowPermutation(a: seq<real>, b: seq<real>, v: real, inclusive: bool)
    requires multiset(a) == multiset(b)
    ensures CountBelow(a, v, inclusive) == CountBelow(b, v, inclusive)
    decreases |a|
  {
    if |a| == 0 {
      assert |b| == |multiset(b)| == 0;
    } else {
      var x := a[|a| - 1];
      var a' := a[..|a| - 1];
      assert a == a' + [x];
      assert x in multiset(b);
      var k :| 0 <= k < |b| && b[k] == x;
      MultisetRemove(b, k);
      CountBelowPermutation(a', b[..k] + b[k + 1..], v, inclusive);
      CountBelowRemove(b, k, v, inclusive);
    }
  }

  /** Taking out the entry at k removes one copy of it from the multiset. */
  lemma MultisetRemove<T>(b: seq<T>, k: nat)
    requires k < |b|
    ensures multiset(b[..k] + b[k + 1..]) == multiset(b) - multiset{b[k]}
  {
    assert b == b[..k] + [b[k]] + b[k + 1..];
  }

  /** Taking one entry out of the middle and counting it at the end leaves the count. */
  lemma CountBelowRemove(b: seq<real>, k: nat, v: real, inclusive: bool)
    requires k < |b|
    ensures CountBelow(b, v, inclusive)
      == CountBelow(b[..k] + b[k + 1..], v, inclusive) + (if Below(b[k], v, inclusive) then 1 else 0)
  {
    var x, lo, hi := b[k], b[..k], b[k + 1..];
    var lox := lo + [x];
    assert b == lox + hi;
    assert lox[..|lo|] == lo;
    CountBelowAppend(lox, hi, v, inclusive);
    CountBelowAppend(lo, hi, v, inclusive);
  }

  /** Every entry no larger than `v` is smaller than a larger `w`. */
  lemma {:induction false} CountBelowMonotone(s: seq<real>, v: real, w: real)
    requires v < w
    ensures CountBelow(s, v, true) <= CountBelow(s, w, false)
  {
    if |s| > 0 {
      CountBelowMonotone(s[..|s| - 1], v, w);
    }
  }

  /** An order statistic is an entry of the sequence, and it is unique. */
  lemma OrderStatUnique(s: seq<real>, k: int, v: real, w: real)
    requires IsOrderStat(s, k, v) && IsOrderStat(s, k, w)
    ensures v == w
    ensures v in s
  {
    if v < w {
      CountBelowMonotone(s, v, w);
    } else if w < v {
      CountBelowMonotone(s, w, v);
    }
    CountBelowMultiplicity(s, v);
  }

  // ---------------------------------------------------------------------------
  // A reference sort, used to define the median independently of quickselect

  predicate Sorted(s: seq<real>)
  {
    forall i, j :: 0 <= i < j < |s| ==> s[i] <= s[j]
  }

  lemma SortedCons(a: real, t: seq<real>)
    requires Sorted(t)
    requires forall k :: 0 <= k < |t| ==> a <= t[k]
    ensures Sorted([a] + t)
  {
    forall i, j | 0 <= i < j < |[a] + t|
      ensures ([a] + t)[i] <= ([a] + t)[j]
    {
      if i > 0 {
        assert ([a] + t)[i] == t[i - 1];
      }
      assert ([a] + t)[j] == t[j - 1];
    }
  }

  function Insert(x: real, s: seq<real>): (r: seq<real>)
    requires Sorted(s)
    ensures Sorted(r)
    ensures multiset(r) == multiset(s) + multiset{x}
    ensures |r| == |s| + 1
  {
    if |s| == 0 then [x]
    else if x <= s[0] then [x] + s
    else
      var tail := Insert(x, s[1..]);
      assert s == [s[0]] + s[1..];
      assert forall k :: 0 <= k < |tail| ==> s[0] <= tail[k] by {
        forall k | 0 <= k < |tail|
          ensures s[0] <= tail[k]
        {
          assert tail[k] in multiset(tail);
          assert tail[k] == x || tail[k] in multiset(s[1..]);
        }
      }
      SortedCons(s[0], tail);
      [s[0]] + tail
  }

  /** Insertion sort: a sorted permutation of its input. */
  function Sort(s: seq<real>): (r: seq<real>)
    ensures Sorted(r)
    ensures multiset(r) == multiset(s)
    ensures |r| == |s|
  {
    if |s| == 0 then []
    else
      assert s == s[..|s| - 1] + [s[|s| - 1]];
      Insert(s[|s| - 1], Sort(s[..|s| - 1]))
  }

  /** At most k entries of a sorted sequence are smaller than its entry at position k. */
  lemma SortedCountSmaller(t: seq<real>, k: int)
    requires Sorted(t) && 0 <= k < |t|
    ensures CountBelow(t, t[k], false) <= k
  {
    assert t == t[..k] + t[k..];
    CountBelowAppend(t[..k], t[k..], t[k], false);
    CountBelowBound(t[..k], t[k], false);
    CountBelowNone(t[k..], t[k], false);
  }

  /** At least k + 1 entries of a sorted sequence are no larger than its entry at position k. */
  lemma SortedCountNoLarger(t: seq<real>, k: int)
    requires Sorted(t) && 0 <= k < |t|
    ensures CountBelow(t, t[k], true) > k
  {
    assert t == t[..k + 1] + t[k + 1..];
    CountBelowAppend(t[..k + 1], t[k + 1..], t[k], true);
    CountBelowAll(t[..k + 1], t[k], true);
  }

  /** The entry at position k of a sorted sequence is its k-th order statistic. */
  lemma SortedOrderStat(t: seq<real>, k: int)
    requires Sorted(t) && 0 <= k < |t|
    ensures IsOrderStat(t, k, t[k])
  {
    SortedCountSmaller(t, k);
    SortedCountNoLarger(t, k);
  }

  /** The lower median: the element at index (n-1)/2 of the sorted input. */
  function Median(s: seq<real>): (r: real)
    requires |s| > 0
    ensures IsOrderStat(s, (|s| - 1) / 2, r)
    ensures r in s
  {
    var t := Sort(s);
    var k := (|s| - 1) / 2;
    SortedOrderStat(t, k);
    CountBelowPermutation(t, s, t[k], false);
    CountBelowPermutation(t, s, t[k], true);
    assert t[k] in multiset(t);
    t[k]
  }

  /** Any value with the lower-median counting property is the median. */
  lemma MedianUnique(s: seq<real>, v: real)
    requires |s| > 0
    requires IsOrderStat(s, (|s| - 1) / 2, v)
    ensures v == Median(s)
  {
    OrderStatUnique(s, (|s| - 1) / 2, v, Median(s));
  }

  // ---------------------------------------------------------------------------
  // Quickselect

  /** When the final position of the pivot `t[left]` is `i - 1`, the pivot is the
      (i-1)-th order statistic of the whole array. */
  lemma QuickselectHit(t: seq<real>, left: int, i: int, right: int)
    requires 0 <= left < i <= right + 1 <= |t|
    requires forall p, q :: 0 <= p < left <= q < |t| ==> t[p] <= t[q]
    requires forall p, q :: 0 <= p <= right < q < |t| ==> t[p] <= t[q]
    requires forall k :: left < k < i ==> t[k] < t[left]
    requires forall k :: i <= k <= right ==> t[k] >= t[left]
    ensures IsOrderStat(t, i - 1, t[left])
  {
    NoneSmallerAfter(t, left, i, right);
    HitSmaller(t, left, i);
    NoLargerBefore(t, left, i);
    HitNoLarger(t, left, i);
  }

  /** Only entries before the pivot's final place i - 1 can be smaller than it. */
  lemma HitSmaller(t: seq<real>, left: int, i: int)
    requires 0 <= left < i <= |t| && CountBelow(t[i..], t[left], false) == 0
    ensures CountBelow(t, t[left], false) <= i - 1
  {
    var v := t[left];
    var lo, rest, hi := t[..left], t[left + 1..i], t[i..];
    var lv := lo + [v];
    var lvr := lv + rest;
    assert t == lvr + hi;
    CountBelowAppend(lvr, hi, v, false);
    CountBelowAppend(lv, rest, v, false);
    CountBelowAppend(lo, [v], v, false);
    CountBelowBound(lo, v, false);
    CountBelowNone([v], v, false);
    CountBelowBound(rest, v, false);
  }

  /** No entry from i on is smaller than the pivot t[left]. */
  lemma NoneSmallerAfter(t: seq<real>, left: int, i: int, right: int)
    requires 0 <= left < i <= right + 1 <= |t|
    requires forall p, q :: 0 <= p <= right < q < |t| ==> t[p] <= t[q]
    requires forall k :: i <= k <= right ==> t[k] >= t[left]
    ensures CountBelow(t[i..], t[left], false) == 0
  {
    var hi := t[i..];
    forall k | 0 <= k < |hi|
      ensures !Below(hi[k], t[left], false)
    {
      assert hi[k] == t[i + k];
    }
    CountBelowNone(hi, t[left], false);
  }

  /** Every entry before i is no larger than the pivot t[left]. */
  lemma NoLargerBefore(t: seq<real>, left: int, i: int)
    requires 0 <= left < i <= |t|
    requires forall p, q :: 0 <= p < left <= q < |t| ==> t[p] <= t[q]
    requires forall k :: left < k < i ==> t[k] < t[left]
    ensures CountBelow(t[..i], t[left], true) == i
  {
    var front := t[..i];
    forall k | 0 <= k < |front|
      ensures Below(front[k], t[left], true)
    {
      assert front[k] == t[k];
    }
    CountBelowAll(front, t[left], true);
  }

  /** So at least i entries are no larger than the pivot. */
  lemma HitNoLarger(t: seq<real>, left: int, i: int)
    requires 0 <= left < i <= |t| && CountBelow(t[..i], t[left], true) == i
    ensures CountBelow(t, t[left], true) >= i
  {
    assert t == t[..i] + t[i..];
    CountBelowAppend(t[..i], t[i..], t[left], true);
  }

  /** The elements before `left` are no larger than any from `left` on, and those up to
      `right` are no larger than any after `right`: the active range [left, right] of
      quickselect holds exactly the order statistics of its positions. */
  ghost predicate RangeIsolated(a: seq<real>, left: int, right: int)
  {
    && (forall p, q :: 0 <= p < left <= q < |a| ==> a[p] <= a[q])
    && (forall p, q :: 0 <= p <= right < q < |a| ==> a[p] <= a[q])
  }

  /** A pivot that partitions a permutation of `s` into exactly (|s|-1)/2 smaller
      entries on its left is the lower median of `s`. */
  lemma HitIsMedian(t: seq<real>, s: seq<real>, left: int, i: int, right: int)
    requires multiset(t) == multiset(s) && |t| == |s|
    requires 0 <= left < i <= right + 1 <= |t| && i - 1 == (|s| - 1) / 2
    requires RangeIsolated(t, left, right)
    requires forall k :: left < k < i ==> t[k] < t[left]
    requires forall k :: i <= k <= right ==> t[k] >= t[left]
    ensures t[left] == Median(s)
  {
    QuickselectHit(t, left, i, right);
    CountBelowPermutation(t, s, t[left], false);
    CountBelowPermutation(t, s, t[left], true);
    MedianUnique(s, t[left]);
  }

  /** Two sequences that agree from n on and hold the same multiset agree as
      multisets on their first n entries too. */
  lemma PrefixMultiset<T>(r: seq<T>, a: seq<T>, n: nat)
    requires |r| == |a| && n <= |a| && r[n..] == a[n..]
    requires multiset(r) == multiset(a)
    ensures multiset(r[..n]) == multiset(a[..n])
  {
    assert r == r[..n] + r[n..];
    assert a == a[..n] + a[n..];
    assert multiset(r) == multiset(r[..n]) + multiset(r[n..]);
    assert multiset(a) == multiset(a[..n]) + multiset(a[n..]);
    assert multiset(r[..n]) == multiset(r) - multiset(r[n..]);
  }

  /** The three pieces of x + y around the positions |x| and |x| + h. */
  lemma ConcatParts<T>(x: seq<T>, y: seq<T>, h: nat)
    requires h <= |y|
    ensures (x + y)[..|x|] == x
    ensures (x + y)[|x|..|x| + h] == y[..h]
    ensures (x + y)[|x| + h..] == y[h..]
  {
  }

  /** `s` with the entries at positions i and j exchanged. */
  function Swap<T>(s: seq<T>, i: int, j: int): (r: seq<T>)
    requires 0 <= i < |s| && 0 <= j < |s|
    ensures multiset(r) == multiset(s)
  {
    s[i := s[j]][j := s[i]]
  }

  /** Each swapped entry lands in the other's place, and nothing else moves. */
  lemma SwapExchanges<T>(s: seq<T>, i: int, j: int)
    requires 0 <= i < |s| && 0 <= j < |s|
    ensures |Swap(s, i, j)| == |s| && Swap(s, i, j)[i] == s[j] && Swap(s, i, j)[j] == s[i]
    ensures forall k :: 0 <= k < |s| && k != i && k != j ==> Swap(s, i, j)[k] == s[k]
  {
  }

  /** Exchanging two entries inside the active range keeps it isolated. */
  lemma SwapKeepsIsolated(a: seq<real>, i: int, j: int, left: int, right: int)
    requires 0 <= left <= i <= right < |a| && left <= j <= right
    requires RangeIsolated(a, left, right)
    ensures RangeIsolated(Swap(a, i, j), left, right)
  {
    var b := Swap(a, i, j);
    forall p, q | 0 <= p < left <= q < |b|
      ensures b[p] <= b[q]
    {
      assert b[p] == a[p];
    }
    forall p, q | 0 <= p <= right < q < |b|
      ensures b[p] <= b[q]
    {
      assert b[q] == a[q];
    }
  }

  /** After a partition pass the pivot `u[left]` is moved to position i - 1; then both
      [left, i-2] and [i, right] are isolated ranges. */
  lemma PlacePivot(u: seq<real>, left: int, i: int, right: int)
    requires 0 <= left < i <= right + 1 <= |u|
    requires RangeIsolated(u, left, right)
    requires forall k :: left < k < i ==> u[k] < u[left]
    requires forall k :: i <= k <= right ==> u[k] >= u[left]
    ensures RangeIsolated(Swap(u, i - 1, left), left, i - 2)
    ensures RangeIsolated(Swap(u, i - 1, left), i, right)
  {
    var t := Swap(u, i - 1, left);
    assert forall k :: left <= k < i - 1 ==> t[k] < u[left];
    assert forall k :: i - 1 <= k <= right ==> t[k] >= u[left];
    assert forall k :: 0 <= k < left || right < k < |u| ==> t[k] == u[k];
  }

  /** One partition pass around the pivot `a[left]`: afterwards the entries in
      (left, i) are smaller than the pivot and those in [i, right] are not, the pivot
      stays at `a[left]`, and the result is a permutation of `a` that keeps the range
      isolated. */
  method Partition(a: seq<real>, left: int, right: int) returns (b: seq<real>, i: int)
    requires 0 <= left <= right < |a|
    requires RangeIsolated(a, left, right)
    ensures |b| == |a| && left + 1 <= i <= right + 1
    ensures b[left] == a[left]
    ensures multiset(b) == multiset(a)
    ensures RangeIsolated(b, left, right)
    ensures forall k :: left < k < i ==> b[k] < b[left]
    ensures forall k :: i <= k <= right ==> b[k] >= b[left]
  {
    b := a;
    i := left + 1;
    var j := right;
    while i <= j
      invariant |b| == |a|
      invariant left + 1 <= i <= j + 1 <= right + 1
      invariant b[left] == a[left]
      invariant multiset(b) == multiset(a)
      invariant RangeIsolated(b, left, right)
      invariant forall k :: left < k < i ==> b[k] < b[left]
      invariant forall k :: j < k <= right ==> b[k] >= b[left]
      decreases j + 1 - i
    {
      if b[i] < b[left] {
        i := i + 1;
      } else if b[j] >= b[left] {
        j := j - 1;
      } else {
        SwapKeepsIsolated(b, i, j, left, right);
        b := Swap(b, i, j);
        i := i + 1;
        j := j - 1;
      }
    }
  }

  /** Hoare-style quickselect on a copy of the input: repeatedly partitions around
      the first element of the active range and narrows the range to the side that
      holds position (n-1)/2, until the pivot lands there.  Returns the lower median;
      the caller's sequence is left as it was. */
  method GetMedian(s: seq<real>) returns (r: real)
    requires |s| > 0
    ensures r == Median(s)
  {
    var a := s;
    var left := 0;
    var right := |a| - 1;
    var m := (left + right) / 2;
    while left <= right
      invariant |a| == |s|
      invariant 0 <= left <= m <= right < |a|
      invariant multiset(a) == multiset(s)
      invariant RangeIsolated(a, left, right)
      decreases right - left
    {
      var i;
      a, i := Partition(a, left, right);
      if i - 1 == m {
        HitIsMedian(a, s, left, i, right);
        return a[left];
      }
      PlacePivot(a, left, i, right);
      if i - 1 != left {
        a := Swap(a, i - 1, left);
      }
      if m < i - 1 {
        right := i - 2;
      } else {
        left := i;
      }
    }
    assert false;
  }
}

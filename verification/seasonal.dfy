/** The simplified seasonal-trend decomposition: a clamped-window median trend, a
    period walk that picks each next period start by least squared difference from a
    seed period, a per-phase median of the collected periods, and the tiling of that
    median period over the series.

    All arrays become sequences and doubles become reals; an operation that fills an
    output array in place returns the filled sequence instead.
 */
module SeasonalTrendDecomposition {

  import Utility

  function Min(x: int, y: int): int
  {
    if x <= y then x else y
  }

  function Max(x: int, y: int): int
  {
    if x >= y then x else y
  }

  // ---------------------------------------------------------------------------
  // Centring and comparing periods

  /** The series shifted by its mean. */
  function RemoveAverage(s: seq<real>): (r: seq<real>)
    ensures |r| == |s|
    ensures Utility.Sum(r) == 0.0
    ensures forall i, j :: 0 <= i < |s| && 0 <= j < |s| ==> r[i] - r[j] == s[i] - s[j]
  {
    var avg := Utility.SafeAverage(s);
    var r := seq(|s|, i requires 0 <= i < |s| => s[i] - avg);
    Utility.SumShift(s, avg, r);
    if |s| > 0 then
      MulDivCancel(Utility.Sum(s), |s| as real);
      r
    else r
  }

  lemma MulDivCancel(x: real, n: real)
    requires n != 0.0
    ensures n * (x / n) == x
  {
  }

  /** The squared difference `(x - y) * (x - y)`: never negative, and zero exactly
      when the two values agree. */
  function SquaredError(x: real, y: real): (e: real)
    ensures e >= 0.0
    ensures e > 0.0 <==> x != y
  {
    var e := (x - y) * (x - y);
    SquareSign(x - y, e);
    e
  }

  // The product is passed in as `p` rather than written in the contract: stated
  // over a named value, the sign facts stay linear for the callers.
  lemma SquareSign(d: real, p: real)
    requires p == d * d
    ensures p >= 0.0
    ensures p > 0.0 <==> d != 0.0
  {
    if d < 0.0 {
      ProductPositive(-d, -d, p);
    } else if d > 0.0 {
      ProductPositive(d, d, p);
    }
  }

  lemma ProductPositive(x: real, y: real, p: real)
    requires x > 0.0 && y > 0.0 && p == x * y
    ensures p > 0.0
  {
  }

  /** Squared errors over the common prefix of two periods. */
  function Errors(a: seq<real>, b: seq<real>): (e: seq<real>)
    ensures |e| == Min(|a|, |b|)
    ensures forall i :: 0 <= i < |e| ==> e[i] >= 0.0 && (e[i] == 0.0 <==> a[i] == b[i])
  {
    seq(Min(|a|, |b|), i requires 0 <= i < Min(|a|, |b|) => SquaredError(a[i], b[i]))
  }

  /** Mean squared difference over the common prefix: never negative, and zero exactly
      when the two periods agree on that prefix. */
  function Difference(a: seq<real>, b: seq<real>): (d: real)
    ensures d >= 0.0
    ensures d == 0.0 <==> a[..Min(|a|, |b|)] == b[..Min(|a|, |b|)]
  {
    var e := Errors(a, b);
    var m := Min(|a|, |b|);
    Utility.SafeAverageNonNegative(e);
    assert (forall i :: 0 <= i < |e| ==> e[i] == 0.0) <==> a[..m] == b[..m] by {
      if forall i :: 0 <= i < |e| ==> e[i] == 0.0 {
        assert forall i :: 0 <= i < m ==> a[..m][i] == b[..m][i];
      }
      if a[..m] == b[..m] {
        assert forall i :: 0 <= i < m ==> a[i] == a[..m][i] == b[..m][i] == b[i];
      }
    }
    Utility.SafeAverage(e)
  }

  // ---------------------------------------------------------------------------
  // The period walk

  /** `Skip(x).Take(len)`: up to len entries starting at x, none when x is past
      the end. */
  function Window(a: seq<real>, x: nat, len: nat): (w: seq<real>)
    ensures |w| == if x <= |a| then Min(len, |a| - x) else 0
    ensures forall i :: 0 <= i < |w| ==> w[i] == a[x + i]
  {
    if x <= |a| then a[x..x + Min(len, |a| - x)] else []
  }

  /** How far the centred window starting at x is from the centred seed. */
  function Cost(a: seq<real>, seed: seq<real>, maxPeriod: nat): (cost: nat -> real)
    ensures forall x :: cost(x) >= 0.0
  {
    var centred := RemoveAverage(seed);
    (x: nat) => Difference(centred, RemoveAverage(Window(a, x, maxPeriod)))
  }

  /** The cost of each candidate start lo, lo + 1, ..., hi. */
  function Costs(cost: nat -> real, lo: nat, hi: nat): (c: seq<real>)
    requires lo <= hi
    ensures |c| == hi - lo + 1
    ensures forall k :: 0 <= k < |c| ==> c[k] == cost(lo + k)
  {
    seq(hi - lo + 1, k requires 0 <= k < hi - lo + 1 => cost(lo + k))
  }

  /** The position of the first least element: `OrderBy(c).First()`, since the sort
      is stable and the candidates come in increasing order. */
  function FirstMin(c: seq<real>): (k: nat)
    requires |c| > 0
    ensures k < |c|
    ensures forall j :: 0 <= j < |c| ==> c[k] <= c[j]
    ensures forall j :: 0 <= j < k ==> c[k] < c[j]
  {
    if |c| == 1 then 0
    else
      var best := FirstMin(c[..|c| - 1]);
      if c[|c| - 1] < c[best] then |c| - 1 else best
  }

  /** The candidate starts after `offset`: `offset + minPeriod ..= offset + maxPeriod`,
      keeping those inside the series.  None when there is none; otherwise the first
      candidate of least cost. */
  function NextOffset(n: nat, cost: nat -> real, maxPeriod: nat, minPeriod: nat, offset: nat): (next: Utility.Option<nat>)
    requires offset < n
    ensures next.Some? <==> offset + minPeriod <= Min(offset + maxPeriod, n - 1)
    ensures next.Some? ==> offset + minPeriod <= next.value <= offset + maxPeriod && next.value < n
    ensures next.Some? ==> forall y :: offset + minPeriod <= y <= Min(offset + maxPeriod, n - 1) ==>
      cost(next.value) <= cost(y)
    ensures next.Some? ==> forall y :: offset + minPeriod <= y < next.value ==> cost(next.value) < cost(y)
  {
    var lo, hi := offset + minPeriod, Min(offset + maxPeriod, n - 1);
    if lo <= hi then
      var c := Costs(cost, lo, hi);
      var k := FirstMin(c);
      assert forall y :: lo <= y <= hi ==> cost(lo + k) <= cost(y) by {
        forall y | lo <= y <= hi
          ensures cost(lo + k) <= cost(y)
        {
          assert c[y - lo] == cost(y);
        }
      }
      assert forall y :: lo <= y < lo + k ==> cost(lo + k) < cost(y) by {
        forall y | lo <= y < lo + k
          ensures cost(lo + k) < cost(y)
        {
          assert c[y - lo] == cost(y);
        }
      }
      Utility.Some(lo + k)
    else Utility.None
  }

  /** Each start of os lies before n and steps forward from the one before it (from
      `prev` for the first) by minPeriod to maxPeriod. */
  predicate Chain(n: nat, minPeriod: nat, maxPeriod: nat, prev: nat, os: seq<nat>)
    decreases |os|
  {
    |os| == 0 ||
    (prev + minPeriod <= os[0] <= prev + maxPeriod && os[0] < n &&
     Chain(n, minPeriod, maxPeriod, os[0], os[1..]))
  }

  /** The last start of a walk that began at prev. */
  function Last(prev: nat, os: seq<nat>): nat
  {
    if |os| == 0 then prev else os[|os| - 1]
  }

  /** The walk ends at `last` because no candidate start remains after it. */
  predicate Stopped(n: nat, minPeriod: nat, maxPeriod: nat, last: nat)
  {
    last + minPeriod > Min(last + maxPeriod, n - 1)
  }

  /** The period starts after `offset` that the `while (offset < a.Length)` loop
      records in a series of length n: each is the least-cost candidate after the one
      before, and the walk stops when no candidate is left. */
  function Walk(n: nat, cost: nat -> real, maxPeriod: nat, minPeriod: nat, offset: nat): (os: seq<nat>)
    requires minPeriod >= 1
    ensures Chain(n, minPeriod, maxPeriod, offset, os)
    ensures offset < n ==> Stopped(n, minPeriod, maxPeriod, Last(offset, os))
    decreases n - offset
  {
    if offset >= n then []
    else
      var next := NextOffset(n, cost, maxPeriod, minPeriod, offset);
      if next.None? then []
      else
        var rest := Walk(n, cost, maxPeriod, minPeriod, next.value);
        assert ([next.value] + rest)[1..] == rest;
        assert Last(offset, [next.value] + rest) == Last(next.value, rest);
        [next.value] + rest
  }

  /** All recorded period starts: 0, then the walk. */
  function Offsets(a: seq<real>, cost: nat -> real, maxPeriod: nat, minPeriod: nat): (os: seq<nat>)
    requires minPeriod >= 1
    ensures |os| > 0 && os[0] == 0
    ensures Increasing(os, maxPeriod)
    ensures 0 < |a| ==> forall k :: 0 <= k < |os| ==> os[k] < |a|
    ensures 0 < |a| ==> Stopped(|a|, minPeriod, maxPeriod, os[|os| - 1])
  {
    var walk := Walk(|a|, cost, maxPeriod, minPeriod, 0);
    ChainIncreasing(|a|, minPeriod, maxPeriod, 0, walk);
    [0] + walk
  }

  /** Starts in strictly increasing order. */
  predicate Ascending(os: seq<nat>)
  {
    forall i, j :: 0 <= i < j < |os| ==> os[i] < os[j]
  }

  /** Starts in strictly increasing order, each at most `gap` after the one before. */
  predicate Increasing(os: seq<nat>, gap: nat)
  {
    Ascending(os) && forall k :: 0 < k < |os| ==> os[k] <= os[k - 1] + gap
  }

  lemma {:induction false} ChainIncreasing(n: nat, minPeriod: nat, maxPeriod: nat, prev: nat, os: seq<nat>)
    requires minPeriod >= 1 && prev <= n
    requires Chain(n, minPeriod, maxPeriod, prev, os)
    ensures Increasing([prev] + os, maxPeriod)
    ensures forall k :: 0 <= k < |os| ==> os[k] < n
    decreases |os|
  {
    if |os| > 0 {
      var tail := os[1..];
      ChainIncreasing(n, minPeriod, maxPeriod, os[0], tail);
      assert os == [os[0]] + tail;
      ConsIncreasing(prev, os, maxPeriod);
      assert forall k :: 0 <= k < |os| ==> os[k] < n by {
        forall k | 0 <= k < |os|
          ensures os[k] < n
        {
          if k > 0 {
            assert os[k] == tail[k - 1];
          }
        }
      }
    }
  }

  /** A start placed before an increasing run, within `gap` of its first start,
      keeps it increasing. */
  lemma ConsIncreasing(prev: nat, os: seq<nat>, gap: nat)
    requires |os| > 0 && Increasing(os, gap) && prev < os[0] <= prev + gap
    ensures Increasing([prev] + os, gap)
  {
    var all := [prev] + os;
    assert Ascending(all) by {
      forall i, j | 0 <= i < j < |all|
        ensures all[i] < all[j]
      {
        assert all[j] == os[j - 1];
        if i > 0 {
          assert all[i] == os[i - 1];
        }
      }
    }
    forall k | 0 < k < |all|
      ensures all[k] <= all[k - 1] + gap
    {
      if k > 1 {
        assert all[k - 1] == os[k - 2] && all[k] == os[k - 1];
      }
    }
  }

  // ---------------------------------------------------------------------------
  // Collected periods and their per-phase median

  /** The centred full-length windows at the given starts, in order; a start whose
      window runs past the end contributes nothing. */
  function FullWindows(a: seq<real>, maxPeriod: nat, os: seq<nat>): (ps: seq<seq<real>>)
    ensures forall k :: 0 <= k < |ps| ==> |ps[k]| == maxPeriod
    ensures |ps| <= |os|
  {
    if |os| == 0 then []
    else
      var w := Window(a, os[0], maxPeriod);
      var rest := FullWindows(a, maxPeriod, os[1..]);
      if |w| == maxPeriod then [RemoveAverage(w)] + rest else rest
  }

  /** The periods whose phases are averaged: the centred first maxPeriod samples,
      then every full window the walk chose. */
  function Periods(a: seq<real>, cost: nat -> real, maxPeriod: nat, minPeriod: nat): (ps: seq<seq<real>>)
    requires minPeriod >= 1 && maxPeriod <= |a|
    ensures |ps| > 0 && ps[0] == RemoveAverage(a[..maxPeriod])
    ensures forall k :: 0 <= k < |ps| ==> |ps[k]| == maxPeriod
  {
    [RemoveAverage(a[..maxPeriod])] + FullWindows(a, maxPeriod, Walk(|a|, cost, maxPeriod, minPeriod, 0))
  }

  /** Phase i of every period. */
  function Column(ps: seq<seq<real>>, i: nat): (c: seq<real>)
    requires forall k :: 0 <= k < |ps| ==> i < |ps[k]|
    ensures |c| == |ps|
    ensures forall k :: 0 <= k < |ps| ==> c[k] == ps[k][i]
  {
    seq(|ps|, k requires 0 <= k < |ps| => ps[k][i])
  }

  /** The per-phase lower median of the periods. */
  function PeriodAverage(ps: seq<seq<real>>, maxPeriod: nat): (avg: seq<real>)
    requires |ps| > 0
    requires forall k :: 0 <= k < |ps| ==> |ps[k]| == maxPeriod
    ensures |avg| == maxPeriod
    ensures forall i :: 0 <= i < maxPeriod ==>
      Utility.IsOrderStat(Column(ps, i), (|ps| - 1) / 2, avg[i]) && avg[i] in Column(ps, i)
  {
    seq(maxPeriod, i requires 0 <= i < maxPeriod => Utility.Median(Column(ps, i)))
  }

  // ---------------------------------------------------------------------------
  // Copying and tiling

  /** How many entries `CopyArray` moves: the requested length clamped to what the
      source has after srcOffset and the destination has after destOffset. */
  function CopyLength(sourceSize: nat, srcOffset: nat, srcLength: int, destSize: nat, destOffset: nat): (len: nat)
    ensures len == 0 || (len <= srcLength && srcOffset + len <= sourceSize && destOffset + len <= destSize)
    ensures len == srcLength || srcOffset + len >= sourceSize || destOffset + len >= destSize
      || (len == 0 && srcLength < 0)
  {
    Max(0, Min(Min(srcLength, sourceSize - srcOffset), destSize - destOffset))
  }

  /** The destination after the copy, as one splice. */
  function Copy(source: seq<real>, srcOffset: nat, srcLength: int, dest: seq<real>, destOffset: nat): (r: seq<real>)
    ensures |r| == |dest|
    ensures var len := CopyLength(|source|, srcOffset, srcLength, |dest|, destOffset);
      forall g :: 0 <= g < |dest| ==>
        r[g] == if destOffset <= g < destOffset + len then source[g - destOffset + srcOffset] else dest[g]
  {
    var len := CopyLength(|source|, srcOffset, srcLength, |dest|, destOffset);
    if len == 0 then dest
    else dest[..destOffset] + source[srcOffset..srcOffset + len] + dest[destOffset + len..]
  }

  /** `CopyArray`: the element-by-element loop. */
  method CopyArray(source: seq<real>, srcOffset: nat, srcLength: int, dest: seq<real>, destOffset: nat)
    returns (r: seq<real>)
    ensures r == Copy(source, srcOffset, srcLength, dest, destOffset)
  {
    var len := Min(srcLength, |source| - srcOffset);
    len := Min(len, |dest| - destOffset);
    r := dest;
    var i := 0;
    while i < len
      invariant 0 <= i && (i <= len || i == 0)
      invariant |r| == |dest|
      invariant forall g :: 0 <= g < |dest| ==>
        r[g] == if destOffset <= g < destOffset + i then source[g - destOffset + srcOffset] else dest[g]
    {
      r := r[i + destOffset := source[i + srcOffset]];
      i := i + 1;
    }
  }

  /** The seasonal array after copying the period average to every start in order. */
  function Tile(seasonal: seq<real>, avg: seq<real>, os: seq<nat>): (r: seq<real>)
    ensures |r| == |seasonal|
  {
    if |os| == 0 then seasonal
    else Copy(avg, 0, |avg|, Tile(seasonal, avg, os[..|os| - 1]), os[|os| - 1])
  }

  /** The largest start that is at most g. */
  function Owner(os: seq<nat>, g: nat): (o: nat)
    requires |os| > 0 && os[0] <= g && Ascending(os)
    ensures o in os && o <= g
    ensures forall k :: 0 <= k < |os| && os[k] <= g ==> os[k] <= o
  {
    if os[|os| - 1] <= g then os[|os| - 1]
    else
      var o := Owner(os[..|os| - 1], g);
      assert forall k :: 0 <= k < |os| - 1 ==> os[k] == os[..|os| - 1][k];
      o
  }

  /** Every index up to maxPeriod past the last start holds the average at its
      distance from the start that owns it. */
  lemma {:induction false} TileCover(seasonal: seq<real>, avg: seq<real>, os: seq<nat>, g: nat)
    requires |os| > 0 && os[0] == 0 && Increasing(os, |avg|)
    requires g < |seasonal| && g < os[|os| - 1] + |avg|
    ensures g - Owner(os, g) < |avg|
    ensures Tile(seasonal, avg, os)[g] == avg[g - Owner(os, g)]
    decreases |os|
  {
    var n := |os|;
    var last := os[n - 1];
    var init := os[..n - 1];
    var before := Tile(seasonal, avg, init);
    assert Tile(seasonal, avg, os) == Copy(avg, 0, |avg|, before, last);
    if g < last {
      assert n > 1;
      InitIncreasing(os, |avg|);
      assert g < init[n - 2] + |avg| by {
        assert os[n - 2] < last <= os[n - 2] + |avg|;
      }
      TileCover(seasonal, avg, init, g);
      assert Owner(os, g) == Owner(init, g);
    } else {
      assert Owner(os, g) == last;
    }
  }

  lemma InitIncreasing(os: seq<nat>, gap: nat)
    requires |os| > 0 && Increasing(os, gap)
    ensures Increasing(os[..|os| - 1], gap)
  {
    var init := os[..|os| - 1];
    assert forall k :: 0 <= k < |init| ==> init[k] == os[k];
  }

  /** Indices the tiling does not reach keep their old value. */
  lemma {:induction false} TileFrame(seasonal: seq<real>, avg: seq<real>, os: seq<nat>, g: nat)
    requires |os| > 0 && Increasing(os, |avg|)
    requires os[|os| - 1] + |avg| <= g < |seasonal|
    ensures Tile(seasonal, avg, os)[g] == seasonal[g]
    decreases |os|
  {
    var n := |os|;
    var init := os[..n - 1];
    assert Tile(seasonal, avg, os) == Copy(avg, 0, |avg|, Tile(seasonal, avg, init), os[n - 1]);
    if n > 1 {
      InitIncreasing(os, |avg|);
      assert os[n - 2] < os[n - 1];
      TileFrame(seasonal, avg, init, g);
    }
  }

  // ---------------------------------------------------------------------------
  // One seasonal pass

  /** `SeasonalMean`'s two results: the period average it returns and the seasonal
      array it fills. */
  datatype SeasonalStep = SeasonalStep(periodAvg: seq<real>, seasonal: seq<real>)

  /** The offsets `SeasonalMean` records for the given seed. */
  function SeasonalOffsets(a: seq<real>, seed: seq<real>, maxPeriod: nat, minPeriod: nat): (os: seq<nat>)
    requires minPeriod >= 1
    ensures |os| > 0 && os[0] == 0 && Increasing(os, maxPeriod)
  {
    Offsets(a, Cost(a, seed, maxPeriod), maxPeriod, minPeriod)
  }

  /** `SeasonalMean`: walk the period starts, take the per-phase median of the full
      periods and tile it over the seasonal array. */
  function SeasonalMean(a: seq<real>, seed: seq<real>, maxPeriod: nat, minPeriod: nat, seasonal: seq<real>): (st: SeasonalStep)
    requires 1 <= minPeriod <= maxPeriod + 1 && maxPeriod <= |a| && |seasonal| == |a|
    ensures |st.periodAvg| == maxPeriod && |st.seasonal| == |a|
    ensures var ps := Periods(a, Cost(a, seed, maxPeriod), maxPeriod, minPeriod);
      forall i :: 0 <= i < maxPeriod ==>
        Utility.IsOrderStat(Column(ps, i), (|ps| - 1) / 2, st.periodAvg[i]) && st.periodAvg[i] in Column(ps, i)
    ensures var os := SeasonalOffsets(a, seed, maxPeriod, minPeriod);
      TiledBelow(st.seasonal, st.periodAvg, os, os[|os| - 1] + maxPeriod)
    ensures var os := SeasonalOffsets(a, seed, maxPeriod, minPeriod);
      forall g :: os[|os| - 1] + maxPeriod <= g < |a| ==> st.seasonal[g] == seasonal[g]
    ensures minPeriod <= maxPeriod ==>
      var os := SeasonalOffsets(a, seed, maxPeriod, minPeriod);
      |a| <= os[|os| - 1] + maxPeriod
  {
    var os := SeasonalOffsets(a, seed, maxPeriod, minPeriod);
    var ps := Periods(a, Cost(a, seed, maxPeriod), maxPeriod, minPeriod);
    var avg := PeriodAverage(ps, maxPeriod);
    TileCoverAll(seasonal, avg, os);
    TileFrameAll(seasonal, avg, os);
    assert minPeriod <= maxPeriod ==> |a| <= os[|os| - 1] + maxPeriod by {
      if minPeriod <= maxPeriod && |a| > 0 {
        StoppedCovers(|a|, minPeriod, maxPeriod, os[|os| - 1]);
      }
    }
    SeasonalStep(avg, Tile(seasonal, avg, os))
  }

  /** Below `bound`, s holds avg at each index's distance from the start that owns it. */
  predicate TiledBelow(s: seq<real>, avg: seq<real>, os: seq<nat>, bound: int)
  {
    |os| > 0 && os[0] == 0 && Ascending(os) &&
    forall g :: 0 <= g < |s| && g < bound ==> g - Owner(os, g) < |avg| && s[g] == avg[g - Owner(os, g)]
  }

  lemma TileCoverAll(seasonal: seq<real>, avg: seq<real>, os: seq<nat>)
    requires |os| > 0 && os[0] == 0 && Increasing(os, |avg|)
    ensures TiledBelow(Tile(seasonal, avg, os), avg, os, os[|os| - 1] + |avg|)
  {
    forall g | 0 <= g < |seasonal| && g < os[|os| - 1] + |avg|
      ensures g - Owner(os, g) < |avg| && Tile(seasonal, avg, os)[g] == avg[g - Owner(os, g)]
    {
      TileCover(seasonal, avg, os, g);
    }
  }

  lemma TileFrameAll(seasonal: seq<real>, avg: seq<real>, os: seq<nat>)
    requires |os| > 0 && Increasing(os, |avg|)
    ensures forall g :: os[|os| - 1] + |avg| <= g < |seasonal| ==> Tile(seasonal, avg, os)[g] == seasonal[g]
  {
    forall g | os[|os| - 1] + |avg| <= g < |seasonal|
      ensures Tile(seasonal, avg, os)[g] == seasonal[g]
    {
      TileFrame(seasonal, avg, os, g);
    }
  }

  /** When a period may be as long as the shortest step, the walk cannot stop
      further than maxPeriod before the end. */
  lemma StoppedCovers(n: nat, minPeriod: nat, maxPeriod: nat, last: nat)
    requires minPeriod <= maxPeriod && last < n
    requires Stopped(n, minPeriod, maxPeriod, last)
    ensures n <= last + maxPeriod
  {
  }

  /** A pass overwrites the whole seasonal array: what was there before does not
      matter. */
  lemma SeasonalMeanOverwrites(a: seq<real>, seed: seq<real>, maxPeriod: nat, minPeriod: nat, s1: seq<real>, s2: seq<real>)
    requires 1 <= minPeriod <= maxPeriod && maxPeriod <= |a| && |s1| == |a| && |s2| == |a|
    ensures SeasonalMean(a, seed, maxPeriod, minPeriod, s1) == SeasonalMean(a, seed, maxPeriod, minPeriod, s2)
  {
    var st1 := SeasonalMean(a, seed, maxPeriod, minPeriod, s1);
    var st2 := SeasonalMean(a, seed, maxPeriod, minPeriod, s2);
    assert st1.periodAvg == st2.periodAvg;
    var os := SeasonalOffsets(a, seed, maxPeriod, minPeriod);
    assert forall g :: 0 <= g < |a| ==> st1.seasonal[g] == st2.seasonal[g];
  }

  // ---------------------------------------------------------------------------
  // The trend

  /** The clamped window `[max(0, i - period), min(n - 1, i + period)]` around i. */
  function TrendWindow(a: seq<real>, period: nat, i: nat): (w: seq<real>)
    requires i < |a|
    ensures a[i] in w && |w| <= 2 * period + 1
    ensures forall x :: x in w ==> x in a
  {
    a[Max(0, i - period)..Min(|a| - 1, i + period) + 1]
  }

  /** The moving lower median over the clamped windows. */
  function Trend(a: seq<real>, period: nat): (trend: seq<real>)
    ensures |trend| == |a|
  {
    seq(|a|, i requires 0 <= i < |a| => Utility.Median(TrendWindow(a, period, i)))
  }

  /** Each trend value is the lower median of its window: at most half of the window
      lies below it and at most half above. */
  lemma TrendIsWindowMedian(a: seq<real>, period: nat, i: nat)
    requires i < |a|
    ensures var w := TrendWindow(a, period, i);
      Utility.IsOrderStat(w, (|w| - 1) / 2, Trend(a, period)[i]) && Trend(a, period)[i] in w
  {
  }

  /** `GetTrend`: one quickselect median per index. */
  method GetTrend(a: seq<real>, period: nat) returns (trend: seq<real>)
    ensures trend == Trend(a, period)
  {
    trend := [];
    var i := 0;
    while i < |a|
      invariant i <= |a| && trend == Trend(a, period)[..i]
    {
      var m := TrendAt(a, period, i);
      PrefixStep(Trend(a, period), i);
      trend := trend + [m];
      i := i + 1;
    }
    assert Trend(a, period)[..|a|] == Trend(a, period);
  }

  /** One trend value: the quickselect median of the clamped window around i. */
  method TrendAt(a: seq<real>, period: nat, i: nat) returns (m: real)
    requires i < |a|
    ensures m == Trend(a, period)[i]
  {
    var left := Max(0, i - period);
    var right := Min(|a| - 1, i + period);
    assert a[left..right + 1] == TrendWindow(a, period, i);
    m := Utility.GetMedian(a[left..right + 1]);
  }

  lemma PrefixStep<T>(s: seq<T>, i: nat)
    requires i < |s|
    ensures s[..i + 1] == s[..i] + [s[i]]
  {
  }

  /** With a zero period every window is the sample itself. */
  lemma TrendOfZeroPeriod(a: seq<real>)
    ensures Trend(a, 0) == a
  {
    var t := Trend(a, 0);
    forall i | 0 <= i < |a|
      ensures t[i] == a[i]
    {
      assert TrendWindow(a, 0, i) == [a[i]];
    }
  }

  // ---------------------------------------------------------------------------
  // The decomposition

  datatype DecompositionResult = DecompositionResult(trend: seq<real>, seasonal: seq<real>, residual: seq<real>)

  /** The `loop` passes of `SeasonalMean`, each seeded with the previous period
      average. */
  function Iterate(a: seq<real>, seed: seq<real>, maxPeriod: nat, minPeriod: nat, seasonal: seq<real>, loop: nat): (st: SeasonalStep)
    requires |seasonal| == |a|
    requires loop > 0 ==> 1 <= minPeriod <= maxPeriod + 1 && maxPeriod <= |a|
    ensures |st.seasonal| == |a|
    ensures loop == 0 ==> st == SeasonalStep(seed, seasonal)
    ensures loop > 0 && minPeriod <= maxPeriod ==> Tiled(st.seasonal, st.periodAvg) && |st.periodAvg| == maxPeriod
    decreases loop
  {
    if loop == 0 then SeasonalStep(seed, seasonal)
    else
      var next := SeasonalMean(a, seed, maxPeriod, minPeriod, seasonal);
      if minPeriod <= maxPeriod then
        SeasonalMeanTiled(a, seed, maxPeriod, minPeriod, seasonal);
        Iterate(a, next.periodAvg, maxPeriod, minPeriod, next.seasonal, loop - 1)
      else
        Iterate(a, next.periodAvg, maxPeriod, minPeriod, next.seasonal, loop - 1)
  }

  /** When a period may be as short as maxPeriod, one pass tiles the whole seasonal
      array with its period average. */
  lemma SeasonalMeanTiled(a: seq<real>, seed: seq<real>, maxPeriod: nat, minPeriod: nat, seasonal: seq<real>)
    requires 1 <= minPeriod <= maxPeriod && maxPeriod <= |a| && |seasonal| == |a|
    ensures var st := SeasonalMean(a, seed, maxPeriod, minPeriod, seasonal);
      TiledBy(st.seasonal, st.periodAvg, SeasonalOffsets(a, seed, maxPeriod, minPeriod))
  {
  }

  /** s is made of copies of avg laid down at the starts os, which cover all of s. */
  predicate TiledBy(s: seq<real>, avg: seq<real>, os: seq<nat>)
  {
    |os| > 0 && |s| <= os[|os| - 1] + |avg| && TiledBelow(s, avg, os, |s|)
  }

  ghost predicate Tiled(s: seq<real>, avg: seq<real>)
  {
    exists os :: TiledBy(s, avg, os)
  }

  /** The three components from the trend and the seasonal part: the residual is
      what the detrended series has left after the seasonal part. */
  function Assemble(a: seq<real>, trend: seq<real>, seasonal: seq<real>): (d: DecompositionResult)
    requires |trend| == |a| && |seasonal| == |a|
    ensures d.trend == trend && d.seasonal == seasonal && |d.residual| == |a|
    ensures forall i :: 0 <= i < |a| ==> a[i] == d.trend[i] + d.seasonal[i] + d.residual[i]
  {
    var detrend := Detrend(a, trend);
    var residual := seq(|a|, i requires 0 <= i < |a| => detrend[i] - seasonal[i]);
    DecompositionResult(trend, seasonal, residual)
  }

  /** The series with its trend taken out. */
  function Detrend(a: seq<real>, trend: seq<real>): (detrend: seq<real>)
    requires |trend| == |a|
    ensures |detrend| == |a|
  {
    seq(|a|, i requires 0 <= i < |a| => a[i] - trend[i])
  }

  /** The seasonal array `Decompose` allocates: all zero. */
  function Zeros(n: nat): (z: seq<real>)
    ensures |z| == n && forall i :: 0 <= i < n ==> z[i] == 0.0
  {
    seq(n, i => 0.0)
  }

  /** `Decompose`: the trend, then `loop` seasonal passes over the detrended series
      starting from the first maxPeriod raw samples, then the residual.  Only the last
      pass shows in the seasonal part, since each pass overwrites all of it; the first
      pass is seeded with the raw samples, later ones with the previous average. */
  function Decompose(a: seq<real>, maxPeriod: nat, minPeriod: nat, trendSmooth: nat, loop: nat): (d: DecompositionResult)
    requires loop > 0 ==> 1 <= minPeriod <= maxPeriod + 1 && maxPeriod <= |a|
    ensures |d.trend| == |a| && |d.seasonal| == |a| && |d.residual| == |a|
    ensures forall i :: 0 <= i < |a| ==> a[i] == d.trend[i] + d.seasonal[i] + d.residual[i]
    ensures d.trend == Trend(a, trendSmooth)
    ensures loop == 0 ==> forall i :: 0 <= i < |a| ==> d.seasonal[i] == 0.0 && d.residual[i] == a[i] - d.trend[i]
    ensures loop > 0 && minPeriod <= maxPeriod ==> exists avg :: |avg| == maxPeriod && Tiled(d.seasonal, avg)
    ensures loop == 1 ==>
      d.seasonal == SeasonalMean(Detrend(a, d.trend), a[..maxPeriod], maxPeriod, minPeriod, Zeros(|a|)).seasonal
    ensures loop > 0 && minPeriod <= maxPeriod ==>
      var detrend := Detrend(a, d.trend);
      var seed := Iterate(detrend, a[..maxPeriod], maxPeriod, minPeriod, Zeros(|a|), loop - 1).periodAvg;
      d.seasonal == SeasonalMean(detrend, seed, maxPeriod, minPeriod, Zeros(|a|)).seasonal
  {
    var trend := Trend(a, trendSmooth);
    Assemble(a, trend, SeasonalPart(a, trend, maxPeriod, minPeriod, loop))
  }

  /** The seasonal component: `loop` passes over the detrended series, the first
      seeded with the first maxPeriod raw samples; all zero when there is no pass. */
  function SeasonalPart(a: seq<real>, trend: seq<real>, maxPeriod: nat, minPeriod: nat, loop: nat): (s: seq<real>)
    requires |trend| == |a|
    requires loop > 0 ==> 1 <= minPeriod <= maxPeriod + 1 && maxPeriod <= |a|
    ensures |s| == |a|
    ensures loop == 0 ==> forall i :: 0 <= i < |a| ==> s[i] == 0.0
    ensures loop > 0 && minPeriod <= maxPeriod ==> exists avg :: |avg| == maxPeriod && Tiled(s, avg)
    ensures loop == 1 ==> s == SeasonalMean(Detrend(a, trend), a[..maxPeriod], maxPeriod, minPeriod, Zeros(|a|)).seasonal
    ensures loop > 0 && minPeriod <= maxPeriod ==>
      var detrend := Detrend(a, trend);
      var seed := Iterate(detrend, a[..maxPeriod], maxPeriod, minPeriod, Zeros(|a|), loop - 1).periodAvg;
      s == SeasonalMean(detrend, seed, maxPeriod, minPeriod, Zeros(|a|)).seasonal
  {
    var detrend := Detrend(a, trend);
    var seed := a[..Min(maxPeriod, |a|)];
    var st := Iterate(detrend, seed, maxPeriod, minPeriod, Zeros(|a|), loop);
    assert loop > 0 && minPeriod <= maxPeriod ==> |st.periodAvg| == maxPeriod && Tiled(st.seasonal, st.periodAvg);
    assert loop == 1 ==> st.seasonal == SeasonalMean(detrend, a[..maxPeriod], maxPeriod, minPeriod, Zeros(|a|)).seasonal by {
      if loop == 1 {
        assert seed == a[..maxPeriod];
        IterateOnce(detrend, seed, maxPeriod, minPeriod, Zeros(|a|));
      }
    }
    assert loop > 0 && minPeriod <= maxPeriod ==>
      var last := Iterate(detrend, a[..maxPeriod], maxPeriod, minPeriod, Zeros(|a|), loop - 1).periodAvg;
      st.seasonal == SeasonalMean(detrend, last, maxPeriod, minPeriod, Zeros(|a|)).seasonal by {
      if loop > 0 && minPeriod <= maxPeriod {
        assert seed == a[..maxPeriod];
        IterateLastPass(detrend, seed, maxPeriod, minPeriod, Zeros(|a|), loop);
      }
    }
    st.seasonal
  }

  /** A single pass is one `SeasonalMean` from the given seed. */
  lemma IterateOnce(a: seq<real>, seed: seq<real>, maxPeriod: nat, minPeriod: nat, seasonal: seq<real>)
    requires 1 <= minPeriod <= maxPeriod + 1 && maxPeriod <= |a| && |seasonal| == |a|
    ensures Iterate(a, seed, maxPeriod, minPeriod, seasonal, 1).seasonal
      == SeasonalMean(a, seed, maxPeriod, minPeriod, seasonal).seasonal
  {
    var next := SeasonalMean(a, seed, maxPeriod, minPeriod, seasonal);
    assert Iterate(a, next.periodAvg, maxPeriod, minPeriod, next.seasonal, 0).seasonal == next.seasonal;
  }

  /** After any positive number of passes the seasonal array is what the last pass
      alone makes of a zero array, seeded with the average the earlier passes left. */
  lemma {:induction false} IterateLastPass(a: seq<real>, seed: seq<real>, maxPeriod: nat, minPeriod: nat,
                                           seasonal: seq<real>, loop: nat)
    requires 1 <= minPeriod <= maxPeriod <= |a| && |seasonal| == |a| && loop > 0
    ensures Iterate(a, seed, maxPeriod, minPeriod, seasonal, loop).seasonal
      == SeasonalMean(a, Iterate(a, seed, maxPeriod, minPeriod, seasonal, loop - 1).periodAvg,
                      maxPeriod, minPeriod, Zeros(|a|)).seasonal
    decreases loop
  {
    if loop == 1 {
      FirstPass(a, seed, maxPeriod, minPeriod, seasonal);
    } else {
      var next := SeasonalMean(a, seed, maxPeriod, minPeriod, seasonal);
      var m := loop - 1;
      IterateLastPass(a, next.periodAvg, maxPeriod, minPeriod, next.seasonal, m);
      LaterPass(a, seed, maxPeriod, minPeriod, seasonal, loop, m);
    }
  }

  /** The inductive step: peeling off the first pass on both sides keeps the
      equation. */
  lemma LaterPass(a: seq<real>, seed: seq<real>, maxPeriod: nat, minPeriod: nat, seasonal: seq<real>, loop: nat, m: nat)
    requires 1 <= minPeriod <= maxPeriod <= |a| && |seasonal| == |a| && loop > 1 && m == loop - 1
    requires var next := SeasonalMean(a, seed, maxPeriod, minPeriod, seasonal);
      Iterate(a, next.periodAvg, maxPeriod, minPeriod, next.seasonal, m).seasonal
        == SeasonalMean(a, Iterate(a, next.periodAvg, maxPeriod, minPeriod, next.seasonal, m - 1).periodAvg,
                        maxPeriod, minPeriod, Zeros(|a|)).seasonal
    ensures Iterate(a, seed, maxPeriod, minPeriod, seasonal, loop).seasonal
      == SeasonalMean(a, Iterate(a, seed, maxPeriod, minPeriod, seasonal, loop - 1).periodAvg,
                      maxPeriod, minPeriod, Zeros(|a|)).seasonal
  {
    IterateStep(a, seed, maxPeriod, minPeriod, seasonal, loop);
    IterateStep(a, seed, maxPeriod, minPeriod, seasonal, loop - 1);
  }

  /** The base case: one pass from the seed, over any previous array. */
  lemma FirstPass(a: seq<real>, seed: seq<real>, maxPeriod: nat, minPeriod: nat, seasonal: seq<real>)
    requires 1 <= minPeriod <= maxPeriod <= |a| && |seasonal| == |a|
    ensures Iterate(a, seed, maxPeriod, minPeriod, seasonal, 1).seasonal
      == SeasonalMean(a, Iterate(a, seed, maxPeriod, minPeriod, seasonal, 0).periodAvg,
                      maxPeriod, minPeriod, Zeros(|a|)).seasonal
  {
    IterateOnce(a, seed, maxPeriod, minPeriod, seasonal);
    SeasonalMeanOverwrites(a, seed, maxPeriod, minPeriod, seasonal, Zeros(|a|));
  }

  /** The first of `loop` passes, peeled off. */
  lemma IterateStep(a: seq<real>, seed: seq<real>, maxPeriod: nat, minPeriod: nat, seasonal: seq<real>, loop: nat)
    requires 1 <= minPeriod <= maxPeriod <= |a| && |seasonal| == |a| && loop > 0
    ensures var next := SeasonalMean(a, seed, maxPeriod, minPeriod, seasonal);
      Iterate(a, seed, maxPeriod, minPeriod, seasonal, loop)
        == Iterate(a, next.periodAvg, maxPeriod, minPeriod, next.seasonal, loop - 1)
  {
  }
}

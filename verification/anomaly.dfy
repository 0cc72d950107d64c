/** The anomaly score: NaN-run interpolation, the period estimate from the peak of
    the spectrum, the seasonal-trend decomposition and the median-absolute-deviation
    normalisation of its residual.

    A double that may be NaN is a `Sample`; every other double is a `real`.  The
    twiddle factors of the transform (`Math.Cos`/`Math.Sin`) are a parameter.
 */
module AnomalyDetector {

  import Utility
  import FourierTransform
  import SeasonalTrendDecomposition

  datatype Sample = NaN | Val(v: real)

  // ---------------------------------------------------------------------------
  // NaN runs

  /** The first index of the NaN run that contains j. */
  function RunStart(a: seq<Sample>, j: nat): (s: nat)
    requires j < |a| && a[j].NaN?
    ensures s <= j && (s == 0 || a[s - 1].Val?)
    ensures forall k :: s <= k <= j ==> a[k].NaN?
  {
    if j == 0 || a[j - 1].Val? then j else RunStart(a, j - 1)
  }

  /** One past the last index of the NaN run that contains j. */
  function RunEnd(a: seq<Sample>, j: nat): (e: nat)
    requires j < |a| && a[j].NaN?
    ensures j < e <= |a| && (e == |a| || a[e].Val?)
    ensures forall k :: j <= k < e ==> a[k].NaN?
    decreases |a| - j
  {
    if j + 1 == |a| || a[j + 1].Val? then j + 1 else RunEnd(a, j + 1)
  }

  /** What a NaN at j, in the run s..e-1, becomes: the straight line between the
      valid neighbours of an interior run, the one neighbour's value for a run at
      either edge, and NaN still when there is no valid sample at all. */
  function FillValue(a: seq<Sample>, s: nat, e: nat, j: nat): Sample
    requires s <= j < e <= |a|
    requires s == 0 || a[s - 1].Val?
    requires e == |a| || a[e].Val?
  {
    if s == 0 && e == |a| then NaN
    else if s == 0 then Val(a[e].v)
    else if e == |a| then Val(a[s - 1].v)
    else
      Val(Line(a[s - 1].v, (a[e].v - a[s - 1].v) / ((e - s + 1) as real), j - s + 1))
  }

  /** The point k steps of size step to the right of left. */
  function Line(left: real, step: real, k: nat): real
  {
    if k == 0 then left else Line(left, step, k - 1) + step
  }

  /** The line in closed form. */
  lemma {:induction false} LineClosed(left: real, step: real, k: nat)
    ensures Line(left, step, k) == left + step * (k as real)
  {
    if k > 0 {
      LineClosed(left, step, k - 1);
      assert step * (k as real) == step * ((k - 1) as real) + step;
    }
  }

  /** n equal steps of (right - left) / n lead from left to right. */
  lemma LineReaches(left: real, right: real, n: nat)
    requires n > 0
    ensures Line(left, (right - left) / (n as real), n) == right
  {
    LineClosed(left, (right - left) / (n as real), n);
    DivTimes(right - left, n as real);
  }

  /** The series after interpolation. */
  function Interpolated(a: seq<Sample>): (r: seq<Sample>)
    ensures |r| == |a|
    ensures forall j :: 0 <= j < |a| && a[j].Val? ==> r[j] == a[j]
  {
    seq(|a|, j requires 0 <= j < |a| =>
      if a[j].Val? then a[j] else FillValue(a, RunStart(a, j), RunEnd(a, j), j))
  }

  /** Once one sample is valid, no NaN is left. */
  lemma NoNaNRemains(a: seq<Sample>, j: nat)
    requires j < |a|
    requires exists k :: 0 <= k < |a| && a[k].Val?
    ensures Interpolated(a)[j].Val?
  {
    var k :| 0 <= k < |a| && a[k].Val?;
    if a[j].NaN? {
      var s, e := RunStart(a, j), RunEnd(a, j);
      assert s > 0 || e < |a| by {
        if k <= j {
          assert !(s <= k);
        } else {
          assert !(k < e);
        }
      }
    }
  }

  /** A series with no valid sample is left as it is. */
  lemma AllNaNUnchanged(a: seq<Sample>)
    requires forall k :: 0 <= k < |a| ==> a[k].NaN?
    ensures Interpolated(a) == a
  {
    forall j | 0 <= j < |a|
      ensures Interpolated(a)[j] == a[j]
    {
      var s, e := RunStart(a, j), RunEnd(a, j);
      assert s == 0 && e == |a|;
    }
  }

  /** Inside the run s..e-1 the filled value is the run's `FillValue`. */
  lemma FilledInRun(a: seq<Sample>, s: nat, e: nat, j: nat)
    requires s <= j < e <= |a| && Open(a, s, e) && (e == |a| || a[e].Val?)
    ensures Interpolated(a)[j] == FillValue(a, s, e, j)
  {
    RunBounds(a, s, e, j);
  }

  /** An interior run s..e-1 is filled with the points of the line that leaves the
      left neighbour in steps of (right - left) / (e - s + 1), the k-th sample of the
      run being k + 1 steps along; e - s + 1 steps reach the right neighbour. */
  lemma InteriorRunIsLinear(a: seq<Sample>, s: nat, e: nat)
    requires 0 < s < e < |a| && Open(a, s, e) && a[e].Val?
    ensures var left, step := a[s - 1].v, (a[e].v - a[s - 1].v) / ((e - s + 1) as real);
      (forall j :: s <= j < e ==> Interpolated(a)[j] == Val(Line(left, step, j - s + 1))) &&
      Line(left, step, e - s + 1) == a[e].v
  {
    forall j | s <= j < e
      ensures Interpolated(a)[j] == Val(Line(a[s - 1].v, (a[e].v - a[s - 1].v) / ((e - s + 1) as real), j - s + 1))
    {
      FilledInRun(a, s, e, j);
    }
    LineReaches(a[s - 1].v, a[e].v, e - s + 1);
  }

  lemma RunEndStep(a: seq<Sample>, j: nat)
    requires j + 1 < |a| && a[j].NaN? && a[j + 1].NaN?
    ensures RunEnd(a, j + 1) == RunEnd(a, j)
  {
  }

  lemma DivTimes(x: real, n: real)
    requires n != 0.0
    ensures x / n * n == x
  {
  }

  // ---------------------------------------------------------------------------
  // The in-place interpolation loop

  /** `InterpolateNaN`: one pass that remembers where the current NaN run began and
      fills it when the run ends, using `unit = (right - left) / (i - nanStart + 1)`
      for every kind of run. */
  method InterpolateNaN(a: seq<Sample>) returns (r: seq<Sample>)
    ensures r == Interpolated(a)
  {
    r := a;
    var nanStart := -1;
    var i := 0;
    while i <= |a|
      invariant 0 <= i <= |a| + 1 && |r| == |a|
      invariant nanStart == -1 || 0 <= nanStart < i <= |a|
      invariant i > |a| ==> nanStart == -1
      invariant nanStart >= 0 ==> Open(a, nanStart, i)
      invariant nanStart < 0 && 0 < i <= |a| ==> a[i - 1].Val?
      invariant forall k :: 0 <= k < Done(nanStart, i, |a|) ==> r[k] == Interpolated(a)[k]
      invariant forall k :: Done(nanStart, i, |a|) <= k < |a| ==> r[k] == a[k]
    {
      if i < |a| && r[i].NaN? {
        if nanStart < 0 {
          nanStart := i;
        }
      } else if nanStart >= 0 {
        r := CloseRun(a, r, nanStart, i);
        nanStart := -1;
      }
      i := i + 1;
    }
  }

  /** The end of the NaN run nanStart..i-1: take the valid neighbours (the one there
      is, at an edge) and fill the run; with neither the run stays NaN. */
  method CloseRun(a: seq<Sample>, r0: seq<Sample>, nanStart: nat, i: nat) returns (r: seq<Sample>)
    requires nanStart < i <= |a| && |r0| == |a| && Open(a, nanStart, i) && (i == |a| || a[i].Val?)
    requires forall k :: 0 <= k < nanStart ==> r0[k] == Interpolated(a)[k]
    requires forall k :: nanStart <= k < |a| ==> r0[k] == a[k]
    ensures |r| == |a|
    ensures forall k :: 0 <= k < i ==> r[k] == Interpolated(a)[k]
    ensures forall k :: i <= k < |a| ==> r[k] == a[k]
  {
    r := r0;
    var left := if nanStart > 0 then r[nanStart - 1] else NaN;
    var right := if i < |a| then r[i] else left;
    if left.NaN? {
      left := right;
    }
    if !left.NaN? && !right.NaN? {
      var unit := (right.v - left.v) / ((i - nanStart + 1) as real);
      r := FillRun(a, r, nanStart, i, left.v, unit);
    } else {
      AllNaNRun(a, nanStart, i);
    }
  }

  /** The samples before the first one not yet final. */
  function Done(nanStart: int, i: nat, n: nat): nat
  {
    if nanStart >= 0 then nanStart else if i <= n then i else n
  }

  /** s..i-1 is an unfinished NaN run: all NaN, and s starts it. */
  predicate Open(a: seq<Sample>, s: nat, i: nat)
    requires s < i <= |a|
  {
    (s == 0 || a[s - 1].Val?) && forall k :: s <= k < i ==> a[k].NaN?
  }

  /** Inside a run that ends at e, every sample has that run. */
  lemma RunBounds(a: seq<Sample>, s: nat, e: nat, k: nat)
    requires s <= k < e <= |a| && Open(a, s, e)
    requires e == |a| || a[e].Val?
    ensures RunStart(a, k) == s && RunEnd(a, k) == e
    decreases e - k
  {
    if k + 1 < e {
      RunBounds(a, s, e, k + 1);
      RunEndStep(a, k);
    }
    StartOfRun(a, s, k);
  }

  lemma {:induction false} StartOfRun(a: seq<Sample>, s: nat, k: nat)
    requires s <= k < |a| && (s == 0 || a[s - 1].Val?)
    requires forall m :: s <= m <= k ==> a[m].NaN?
    ensures RunStart(a, k) == s
    decreases k - s
  {
    if k > s {
      StartOfRun(a, s, k - 1);
    }
  }

  /** A run that spans the whole series stays NaN. */
  lemma AllNaNRun(a: seq<Sample>, s: nat, e: nat)
    requires s < e <= |a| && Open(a, s, e) && (e == |a| || a[e].Val?)
    requires s == 0 && e == |a|
    ensures forall k :: s <= k < e ==> Interpolated(a)[k] == a[k]
  {
    forall k | s <= k < e
      ensures Interpolated(a)[k] == a[k]
    {
      RunBounds(a, s, e, k);
    }
  }

  /** The fill loop for the run s..e-1. */
  method FillRun(a: seq<Sample>, r0: seq<Sample>, s: nat, e: nat, left: real, unit: real)
    returns (r: seq<Sample>)
    requires s < e <= |a| && |r0| == |a| && Open(a, s, e) && (e == |a| || a[e].Val?)
    requires !(s == 0 && e == |a|)
    requires left == (if s > 0 then a[s - 1].v else a[e].v)
    requires unit == ((if e < |a| then a[e].v else left) - left) / ((e - s + 1) as real)
    ensures |r| == |a|
    ensures forall k :: 0 <= k < |a| && !(s <= k < e) ==> r[k] == r0[k]
    ensures forall k :: s <= k < e ==> r[k] == Interpolated(a)[k]
  {
    r := r0;
    var j := s;
    while j < e
      invariant s <= j <= e && |r| == |a|
      invariant forall k :: 0 <= k < |a| && !(s <= k < j) ==> r[k] == r0[k]
      invariant forall k :: s <= k < j ==> r[k] == Interpolated(a)[k]
    {
      assert Val(left + unit * ((j - s + 1) as real)) == Interpolated(a)[j] by {
        RunBounds(a, s, e, j);
        FillMatches(a, s, e, j, left, unit);
      }
      r := r[j := Val(left + unit * ((j - s + 1) as real))];
      j := j + 1;
    }
  }

  /** The one formula of the loop agrees with the three cases of `FillValue`: at an
      edge the step is zero. */
  lemma FillMatches(a: seq<Sample>, s: nat, e: nat, j: nat, left: real, unit: real)
    requires s <= j < e <= |a| && (s == 0 || a[s - 1].Val?) && (e == |a| || a[e].Val?)
    requires !(s == 0 && e == |a|)
    requires left == (if s > 0 then a[s - 1].v else a[e].v)
    requires unit == ((if e < |a| then a[e].v else left) - left) / ((e - s + 1) as real)
    ensures FillValue(a, s, e, j) == Val(left + unit * ((j - s + 1) as real))
  {
    if s == 0 || e == |a| {
      assert unit == 0.0;
      ZeroTimes((j - s + 1) as real);
    } else {
      LineClosed(left, unit, j - s + 1);
    }
  }

  lemma ZeroTimes(x: real)
    ensures 0.0 * x == 0.0
  {
  }

  /** A leading run takes the first valid value after it, a trailing run the last
      valid value before it. */
  lemma EdgeRunCopies(a: seq<Sample>, s: nat, e: nat)
    requires s < e <= |a| && Open(a, s, e) && (e == |a| || a[e].Val?)
    requires (s == 0) != (e == |a|)
    ensures forall j :: s <= j < e ==> Interpolated(a)[j] == (if s == 0 then a[e] else a[s - 1])
  {
    forall j | s <= j < e
      ensures Interpolated(a)[j] == (if s == 0 then a[e] else a[s - 1])
    {
      FilledInRun(a, s, e, j);
    }
  }

  // ---------------------------------------------------------------------------
  // The peak of the spectrum

  /** The first index of a largest value. */
  function FirstMax(c: seq<real>): (k: nat)
    requires |c| > 0
    ensures k < |c|
    ensures forall j :: 0 <= j < |c| ==> c[j] <= c[k]
    ensures forall j :: 0 <= j < k ==> c[j] < c[k]
  {
    if |c| == 1 then 0
    else
      var best := FirstMax(c[..|c| - 1]);
      if c[|c| - 1] > c[best] then |c| - 1 else best
  }

  /** The index in lo..hi (both included) whose coefficient has the largest modulus,
      the first such on a tie (a stable descending sort keeps the input order among
      equals).  Squared moduli are compared in place of moduli. */
  function Peak(spectrum: seq<FourierTransform.Complex>, lo: nat, hi: nat): (index: nat)
    requires lo <= hi < |spectrum|
    ensures lo <= index <= hi
    ensures forall i :: lo <= i <= hi ==> FourierTransform.Norm2(spectrum[i]) <= FourierTransform.Norm2(spectrum[index])
    ensures forall i :: lo <= i < index ==> FourierTransform.Norm2(spectrum[i]) < FourierTransform.Norm2(spectrum[index])
  {
    var norms := seq(hi - lo + 1, i requires 0 <= i <= hi - lo => FourierTransform.Norm2(spectrum[lo + i]));
    var k := FirstMax(norms);
    assert forall i :: lo <= i <= hi ==> FourierTransform.Norm2(spectrum[i]) == norms[i - lo];
    lo + k
  }

  /** An index of the band with the two properties of `Peak` is the peak. */
  lemma PeakUnique(spectrum: seq<FourierTransform.Complex>, lo: nat, hi: nat, k: nat)
    requires lo <= k <= hi < |spectrum|
    requires forall i :: lo <= i <= hi ==> FourierTransform.Norm2(spectrum[i]) <= FourierTransform.Norm2(spectrum[k])
    requires forall i :: lo <= i < k ==> FourierTransform.Norm2(spectrum[i]) < FourierTransform.Norm2(spectrum[k])
    ensures k == Peak(spectrum, lo, hi)
  {
  }

  /** The band searched for the peak: fftLength/64 ..= fftLength/16. */
  function BandLow(fftLength: nat): nat
  {
    fftLength / 64
  }

  function BandHigh(fftLength: nat): nat
  {
    fftLength / 16
  }

  /** For a power of two of at least 64 the band is non-empty, starts at 1 or later and
      ends below fftLength - 1; it starts at 1 exactly when fftLength is 64. */
  lemma BandBounds(fftLength: nat)
    requires FourierTransform.IsPowerOfTwo(fftLength) && 64 <= fftLength
    ensures 1 <= BandLow(fftLength) <= BandHigh(fftLength) && BandHigh(fftLength) + 1 < fftLength
    ensures BandLow(fftLength) == 1 <==> fftLength == 64
  {
    if fftLength != 64 {
      assert FourierTransform.IsPowerOfTwo(64) by {
        FourierTransform.Pow2IsPowerOfTwo(6);
      }
      PowerGap(64, fftLength);
    }
  }

  /** Of two different powers of two the larger is at least twice the smaller. */
  lemma {:induction false} PowerGap(m: nat, n: nat)
    requires FourierTransform.IsPowerOfTwo(m) && FourierTransform.IsPowerOfTwo(n) && m < n
    ensures 2 * m <= n
    decreases m
  {
    if m > 1 {
      PowerGap(m / 2, n / 2);
    }
  }

  // ---------------------------------------------------------------------------
  // Periods

  datatype Failure = NoValidSample | DivideByZero

  datatype Result<T> = Ok(value: T) | Err(failure: Failure)

  /** The period range of a peak at `index`: fftLength / (index - 1) down to
      fftLength / (index + 1), in integer division. */
  datatype PeriodRange = PeriodRange(maxPeriod: nat, minPeriod: nat)

  /** The period range of a peak; a peak at 1 divides by zero. */
  function Periods(fftLength: nat, index: nat): (r: Result<PeriodRange>)
    requires index >= 1
    ensures r.Err? <==> index == 1
    ensures r.Err? ==> r.failure == DivideByZero
    ensures r.Ok? ==> r.value.maxPeriod * (index - 1) <= fftLength < (r.value.maxPeriod + 1) * (index - 1)
    ensures r.Ok? ==> r.value.minPeriod * (index + 1) <= fftLength < (r.value.minPeriod + 1) * (index + 1)
  {
    if index == 1 then Err(DivideByZero)
    else
      var maxPeriod, minPeriod := fftLength / (index - 1), fftLength / (index + 1);
      DivBounds(fftLength, index - 1);
      DivBounds(fftLength, index + 1);
      Ok(PeriodRange(maxPeriod, minPeriod))
  }

  /** A peak from 2 to fftLength - 1 gives 1 <= minPeriod <= maxPeriod <= fftLength. */
  lemma PeriodBounds(fftLength: nat, index: nat)
    requires 2 <= index && index + 1 <= fftLength
    ensures var r := Periods(fftLength, index);
      r.Ok? && 1 <= r.value.minPeriod <= r.value.maxPeriod <= fftLength
  {
    var r := Periods(fftLength, index);
    DivAntitone(fftLength, index - 1, index + 1);
    DivAntitone(fftLength, 1, index - 1);
    DivAntitone(fftLength, index + 1, fftLength);
  }

  /** The two floor quotients can coincide inside the band: at fftLength 1024 the
      peak index 50 lies in 16 ..= 64 and gives 1024 / 49 == 1024 / 51 == 20. */
  lemma PeriodsMayCoincide()
    ensures BandLow(1024) <= 50 <= BandHigh(1024)
    ensures Periods(1024, 50) == Ok(PeriodRange(20, 20))
  {
  }

  /** Integer division brackets its dividend. */
  lemma DivBounds(x: nat, d: nat)
    requires d > 0
    ensures (x / d) * d <= x < (x / d + 1) * d
  {
  }

  /** Dividing by more gives no more. */
  lemma DivAntitone(x: nat, d1: nat, d2: nat)
    requires 0 < d1 <= d2
    ensures x / d2 <= x / d1
  {
    var q := x / d2;
    DivBounds(x, d2);
    MulMonotone(q, d1, d2);
    DivBounds(x, d1);
    if q > x / d1 {
      MulMonotone(x / d1 + 1, d1, d1);
      MulLeft(x / d1 + 1, q, d1);
    }
  }

  lemma MulMonotone(q: nat, d1: nat, d2: nat)
    requires d1 <= d2
    ensures q * d1 <= q * d2
  {
  }

  lemma MulLeft(p: nat, q: nat, d: nat)
    requires p <= q
    ensures p * d <= q * d
  {
  }

  // ---------------------------------------------------------------------------
  // Median-absolute-deviation scores

  function Abs(x: real): (y: real)
    ensures y >= 0.0 && (y == x || y == -x)
  {
    if x < 0.0 then -x else x
  }

  /** The distance of each residual from the median. */
  function Deviations(residual: seq<real>, median: real): (diff: seq<real>)
    ensures |diff| == |residual|
    ensures forall i :: 0 <= i < |diff| ==> diff[i] >= 0.0
    ensures forall i :: 0 <= i < |diff| ==> (diff[i] == 0.0 <==> residual[i] == median)
    ensures forall i :: 0 <= i < |diff| ==> diff[i] == residual[i] - median || diff[i] == median - residual[i]
  {
    seq(|residual|, i requires 0 <= i < |residual| => Abs(residual[i] - median))
  }

  /** The median of the deviations, or their mean when that median is 0. */
  function Mad(diff: seq<real>): (mad: real)
    requires |diff| > 0
    requires forall i :: 0 <= i < |diff| ==> diff[i] >= 0.0
    ensures mad >= 0.0
    ensures mad == 0.0 <==> forall i :: 0 <= i < |diff| ==> diff[i] == 0.0
    ensures mad == Utility.Median(diff) || (Utility.Median(diff) == 0.0 && mad == Utility.SafeAverage(diff))
  {
    var m := Utility.Median(diff);
    Utility.SafeAverageNonNegative(diff);
    if m == 0.0 then Utility.SafeAverage(diff) else m
  }

  /** Each deviation over the scale; with a zero scale every deviation is 0 too, and
      0 / 0 is NaN. */
  function Scores(diff: seq<real>, mad: real): (scores: seq<Sample>)
    requires mad >= 0.0 && forall i :: 0 <= i < |diff| ==> diff[i] >= 0.0
    ensures |scores| == |diff|
    ensures forall i :: 0 <= i < |diff| ==> (scores[i].Val? <==> mad > 0.0)
    ensures forall i :: 0 <= i < |diff| && mad > 0.0 ==> scores[i].v >= 0.0 && scores[i].v * mad == diff[i]
  {
    if mad == 0.0 then seq(|diff|, i => NaN)
    else
      assert forall i :: 0 <= i < |diff| ==> diff[i] / mad >= 0.0 && diff[i] / mad * mad == diff[i] by {
        forall i | 0 <= i < |diff|
          ensures diff[i] / mad >= 0.0 && diff[i] / mad * mad == diff[i]
        {
          Utility.QuotientSign(diff[i], mad);
          DivTimes(diff[i], mad);
        }
      }
      seq(|diff|, i requires 0 <= i < |diff| => Val(diff[i] / mad))
  }

  /** A larger deviation never scores lower. */
  lemma ScoresMonotone(diff: seq<real>, mad: real, i: nat, j: nat)
    requires mad > 0.0 && forall k :: 0 <= k < |diff| ==> diff[k] >= 0.0
    requires i < |diff| && j < |diff| && diff[i] <= diff[j]
    ensures Scores(diff, mad)[i].v <= Scores(diff, mad)[j].v
  {
    Utility.QuotientSign(diff[j] - diff[i], mad);
    DivSub(diff[j], diff[i], mad);
  }

  lemma DivSub(x: real, y: real, m: real)
    requires m != 0.0
    ensures x / m - y / m == (x - y) / m
  {
  }

  /** The scores of a residual: its deviations from its median over their
      median-absolute-deviation scale. */
  function MadScores(residual: seq<real>): (scores: seq<Sample>)
    requires |residual| > 0
    ensures |scores| == |residual|
    ensures forall i :: 0 <= i < |scores| && scores[i].Val? ==> scores[i].v >= 0.0
  {
    var diff := Deviations(residual, Utility.Median(residual));
    Scores(diff, Mad(diff))
  }

  /** The scores are NaN exactly when the residual is constant. */
  lemma MadScoresNaN(residual: seq<real>)
    requires |residual| > 0
    ensures (forall i :: 0 <= i < |residual| ==> MadScores(residual)[i].NaN?) <==>
      (forall i :: 0 <= i < |residual| ==> residual[i] == residual[0])
  {
    var median := Utility.Median(residual);
    var diff := Deviations(residual, median);
    var mad := Mad(diff);
    assert MadScores(residual) == Scores(diff, mad);
    if forall i :: 0 <= i < |residual| ==> residual[i] == residual[0] {
      assert residual[0] == median;
      assert forall i :: 0 <= i < |diff| ==> diff[i] == 0.0;
    } else {
      var i :| 0 <= i < |residual| && residual[i] != residual[0];
      assert diff[i] != 0.0 || diff[0] != 0.0;
      assert mad > 0.0;
    }
  }

  // ---------------------------------------------------------------------------
  // Detect

  /** The numbers of a series that holds no NaN. */
  function Values(b: seq<Sample>): (x: seq<real>)
    requires forall i :: 0 <= i < |b| ==> b[i].Val?
    ensures |x| == |b| && forall i :: 0 <= i < |b| ==> b[i] == Val(x[i])
  {
    seq(|b|, i requires 0 <= i < |b| => b[i].v)
  }

  /** The samples as complex numbers x + 0i. */
  function AsComplex(x: seq<real>): (c: seq<FourierTransform.Complex>)
    ensures |c| == |x| && forall i :: 0 <= i < |x| ==> c[i] == FourierTransform.Complex(x[i], 0.0)
  {
    seq(|x|, i requires 0 <= i < |x| => FourierTransform.Complex(x[i], 0.0))
  }

  /** The transform of the first fftLength samples, each taken as x + 0i. */
  function Spectrum(x: seq<real>, fftLength: nat, twiddle: nat -> FourierTransform.Complex): (y: seq<FourierTransform.Complex>)
    requires FourierTransform.IsPowerOfTwo(fftLength) && fftLength <= |x|
    ensures |y| == |x|
  {
    FourierTransform.Transformed(AsComplex(x), fftLength, twiddle)
  }

  /** The period range of the strongest frequency in lo..hi of the spectrum of x:
      it fails only when the band starts at 1, and otherwise lies within 1..fftLength. */
  function PeakPeriods(x: seq<real>, fftLength: nat, lo: nat, hi: nat,
                       twiddle: nat -> FourierTransform.Complex): (r: Result<PeriodRange>)
    requires FourierTransform.IsPowerOfTwo(fftLength) && fftLength <= |x|
    requires 1 <= lo <= hi && hi + 1 < fftLength
    ensures r.Err? ==> r.failure == DivideByZero && lo == 1
    ensures r.Ok? ==> 1 <= r.value.minPeriod <= r.value.maxPeriod <= fftLength
  {
    var index := Peak(Spectrum(x, fftLength, twiddle), lo, hi);
    if index == 1 then Periods(fftLength, index)
    else
      PeriodBounds(fftLength, index);
      Periods(fftLength, index)
  }

  datatype Detection = Detection(scores: seq<Sample>, decomposition: SeasonalTrendDecomposition.DecompositionResult)

  /** Everything after interpolation, for a series without NaN: the peak of the
      spectrum in the band, its period range, the decomposition and the scores of
      its residual. */
  method DetectValues(x: seq<real>, fftLength: nat, trendSmooth: nat, loop: nat,
                      twiddle: nat -> FourierTransform.Complex) returns (r: Result<Detection>)
    requires FourierTransform.IsPowerOfTwo(fftLength) && 64 <= fftLength <= |x|
    ensures r.Err? ==> r.failure == DivideByZero && fftLength == 64
    ensures var p := PeakPeriods(x, fftLength, BandLow(fftLength), BandHigh(fftLength), twiddle);
      (r.Err? <==> p.Err?) &&
      (r.Ok? ==> r.value.decomposition == SeasonalTrendDecomposition.Decompose(x, p.value.maxPeriod, p.value.minPeriod, trendSmooth, loop))
    ensures r.Ok? ==> |r.value.scores| == |x|
    ensures r.Ok? ==> var d := r.value.decomposition;
      |d.trend| == |x| && |d.seasonal| == |x| && |d.residual| == |x| &&
      forall i :: 0 <= i < |x| ==> x[i] == d.trend[i] + d.seasonal[i] + d.residual[i]
    ensures r.Ok? ==> r.value.scores == MadScores(r.value.decomposition.residual)
  {
    var spectrum := FourierTransform.FFT(AsComplex(x), fftLength, twiddle);
    BandBounds(fftLength);
    var index := Peak(spectrum, BandLow(fftLength), BandHigh(fftLength));
    var range := Periods(fftLength, index);
    assert range == PeakPeriods(x, fftLength, BandLow(fftLength), BandHigh(fftLength), twiddle);
    if range.Err? {
      return Err(range.failure);
    }
    var d := SeasonalTrendDecomposition.Decompose(x, range.value.maxPeriod, range.value.minPeriod, trendSmooth, loop);
    var median := Utility.GetMedian(d.residual);
    var diff := Deviations(d.residual, median);
    var mad := Utility.GetMedian(diff);
    if mad == 0.0 {
      mad := Utility.SafeAverage(diff);
    }
    assert mad == Mad(diff);
    r := Ok(Detection(Scores(diff, mad), d));
  }

  /** `Detect`: interpolate the NaN runs (in the caller's array, returned here as
      `filled`), find the period range from the spectral peak, decompose, and score
      the residual.  A series with no valid sample stays all NaN and is reported as
      such; a peak at 1 divides by zero. */
  method Detect(a: seq<Sample>, fftLength: nat, trendSmooth: nat, loop: nat,
                twiddle: nat -> FourierTransform.Complex) returns (filled: seq<Sample>, r: Result<Detection>)
    requires FourierTransform.IsPowerOfTwo(fftLength) && 64 <= fftLength <= |a|
    ensures filled == Interpolated(a)
    ensures (exists k :: 0 <= k < |a| && a[k].Val?) ==> forall i :: 0 <= i < |a| ==> filled[i].Val?
    ensures r == Err(NoValidSample) <==> forall i :: 0 <= i < |a| ==> a[i].NaN?
    ensures r == Err(DivideByZero) ==> fftLength == 64
    ensures (exists k :: 0 <= k < |a| && a[k].Val?) ==>
      (r.Err? <==> PeakPeriods(Values(filled), fftLength, BandLow(fftLength), BandHigh(fftLength), twiddle).Err?)
    ensures r.Ok? ==> var x := Values(filled);
      var p := PeakPeriods(x, fftLength, BandLow(fftLength), BandHigh(fftLength), twiddle);
      p.Ok? && r.value.decomposition == SeasonalTrendDecomposition.Decompose(x, p.value.maxPeriod, p.value.minPeriod, trendSmooth, loop)
    ensures r.Ok? ==> |r.value.scores| == |a|
    ensures r.Ok? ==> AddsUpTo(r.value.decomposition, filled)
    ensures r.Ok? ==> r.value.scores == MadScores(r.value.decomposition.residual)
  {
    filled := InterpolateNaN(a);
    if forall i :: 0 <= i < |a| ==> a[i].NaN? {
      assert !exists k :: 0 <= k < |a| && a[k].Val?;
      return filled, Err(NoValidSample);
    }
    AllFilled(a);
    var x := Values(filled);
    r := DetectValues(x, fftLength, trendSmooth, loop, twiddle);
    Recombine(filled, x, r);
  }

  /** The three components have the length of the samples and add up to them. */
  predicate AddsUpTo(d: SeasonalTrendDecomposition.DecompositionResult, samples: seq<Sample>)
  {
    |d.trend| == |samples| && |d.seasonal| == |samples| && |d.residual| == |samples| &&
    forall i :: 0 <= i < |samples| ==> samples[i] == Val(d.trend[i] + d.seasonal[i] + d.residual[i])
  }

  /** The components of the numbers recombine to the filled samples. */
  lemma Recombine(filled: seq<Sample>, x: seq<real>, r: Result<Detection>)
    requires |x| == |filled| && forall i :: 0 <= i < |filled| ==> filled[i] == Val(x[i])
    requires r.Ok? ==> var d := r.value.decomposition;
      |d.trend| == |x| && |d.seasonal| == |x| && |d.residual| == |x| &&
      forall i :: 0 <= i < |x| ==> x[i] == d.trend[i] + d.seasonal[i] + d.residual[i]
    ensures r.Ok? ==> AddsUpTo(r.value.decomposition, filled)
  {
  }

  /** With one valid sample, interpolation leaves no NaN anywhere. */
  lemma AllFilled(a: seq<Sample>)
    requires exists k :: 0 <= k < |a| && a[k].Val?
    ensures forall i :: 0 <= i < |a| ==> Interpolated(a)[i].Val?
  {
    forall i | 0 <= i < |a|
      ensures Interpolated(a)[i].Val?
    {
      NoNaNRemains(a, i);
    }
  }
}

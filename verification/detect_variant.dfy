/** The older anomaly score: no NaN interpolation, a band of fftLength/32 ..=
    fftLength/8 for the peak, and the plain arithmetic mean as the fallback scale.
    The series is taken to hold numbers only (a NaN would flow through unchanged).
 */
module DetectAnomaly {

  import Utility
  import FourierTransform
  import SeasonalTrendDecomposition
  import AnomalyDetector

  /** The band searched for the peak: fftLength/32 ..= fftLength/8. */
  function BandLow(fftLength: nat): nat
  {
    fftLength / 32
  }

  function BandHigh(fftLength: nat): nat
  {
    fftLength / 8
  }

  /** For fftLength of at least 64 the band starts at 2 or later and ends below
      fftLength - 1, so every peak in it has a period range: no division by zero. */
  lemma BandAvoidsZero(fftLength: nat, index: nat)
    requires 64 <= fftLength && BandLow(fftLength) <= index <= BandHigh(fftLength)
    ensures 2 <= index && index + 1 < fftLength
    ensures var r := AnomalyDetector.Periods(fftLength, index);
      r.Ok? && 1 <= r.value.minPeriod <= r.value.maxPeriod <= fftLength
  {
    AnomalyDetector.PeriodBounds(fftLength, index);
  }

  /** The wider band does not keep the two periods apart either: at fftLength 256
      the peak index 27 lies in 8 ..= 32 and gives 256 / 26 == 256 / 28 == 9. */
  lemma PeriodsMayCoincide()
    ensures BandLow(256) <= 27 <= BandHigh(256)
    ensures AnomalyDetector.Periods(256, 27) == AnomalyDetector.Ok(AnomalyDetector.PeriodRange(9, 9))
  {
  }

  /** The median of the deviations, or their arithmetic mean when that median is 0. */
  function Mad(diff: seq<real>): (mad: real)
    requires |diff| > 0
    requires forall i :: 0 <= i < |diff| ==> diff[i] >= 0.0
    ensures mad >= 0.0
    ensures mad == 0.0 <==> forall i :: 0 <= i < |diff| ==> diff[i] == 0.0
    ensures mad == Utility.Median(diff) || (Utility.Median(diff) == 0.0 && mad == Utility.Average(diff))
    ensures mad == AnomalyDetector.Mad(diff)
  {
    var m := Utility.Median(diff);
    Utility.SafeAverageNonNegative(diff);
    if m == 0.0 then Utility.Average(diff) else m
  }

  /** The scores of a residual; both median calls cover the whole sequence. */
  function MadScores(residual: seq<real>): (scores: seq<AnomalyDetector.Sample>)
    requires |residual| > 0
    ensures scores == AnomalyDetector.MadScores(residual)
  {
    var diff := AnomalyDetector.Deviations(residual, Utility.Median(residual));
    AnomalyDetector.Scores(diff, Mad(diff))
  }

  /** `Detect`: the peak of the spectrum in the wider band, its period range, the
      decomposition and the scores of its residual.  It cannot fail. */
  method Detect(x: seq<real>, fftLength: nat, trendSmooth: nat, loop: nat,
                twiddle: nat -> FourierTransform.Complex) returns (r: AnomalyDetector.Detection)
    requires FourierTransform.IsPowerOfTwo(fftLength) && 64 <= fftLength <= |x|
    ensures |r.scores| == |x|
    ensures var d := r.decomposition;
      |d.trend| == |x| && |d.seasonal| == |x| && |d.residual| == |x| &&
      forall i :: 0 <= i < |x| ==> x[i] == d.trend[i] + d.seasonal[i] + d.residual[i]
    ensures r.decomposition.trend == SeasonalTrendDecomposition.Trend(x, trendSmooth)
    ensures var p := AnomalyDetector.PeakPeriods(x, fftLength, BandLow(fftLength), BandHigh(fftLength), twiddle);
      p.Ok? && r.decomposition == SeasonalTrendDecomposition.Decompose(x, p.value.maxPeriod, p.value.minPeriod, trendSmooth, loop)
    ensures r.scores == AnomalyDetector.MadScores(r.decomposition.residual)
  {
    var spectrum := FourierTransform.FFT(AnomalyDetector.AsComplex(x), fftLength, twiddle);
    var index := AnomalyDetector.Peak(spectrum, BandLow(fftLength), BandHigh(fftLength));
    BandAvoidsZero(fftLength, index);
    var range := AnomalyDetector.Periods(fftLength, index).value;
    assert AnomalyDetector.Ok(range) == AnomalyDetector.PeakPeriods(x, fftLength, BandLow(fftLength), BandHigh(fftLength), twiddle);
    var d := SeasonalTrendDecomposition.Decompose(x, range.maxPeriod, range.minPeriod, trendSmooth, loop);
    var median := Utility.GetMedian(d.residual);
    var diff := AnomalyDetector.Deviations(d.residual, median);
    var mad := Utility.GetMedian(diff);
    if mad == 0.0 {
      mad := Utility.Average(diff);
    }
    assert mad == Mad(diff);
    r := AnomalyDetector.Detection(AnomalyDetector.Scores(diff, mad), d);
    assert r.scores == MadScores(d.residual);
  }
}

# DetectAnoms in Dafny

A model of the core of DetectAnoms, a seasonal anomaly detector for time series.
The core has five parts.

- **Order statistics.** The quickselect lower median `GetMedian` and the running
  mean `SafeAverage`.
- **FFT.** The in-place radix-2 transform: the bit-reversal permutation, the
  butterfly stages and complex arithmetic.
- **Seasonal-trend decomposition.** A clamped-window median trend, detrending, the
  local-search alignment walk, the per-phase median and its tiling, and the residual.
- **Anomaly score.** NaN-run interpolation, the first-maximum peak of the spectrum in
  a frequency band, the integer period arithmetic, and median-absolute-deviation
  scoring with its fallback. The older `DetectAnomaly` variant is modelled too.
- **FP-tree construction.** The weighted header table, the minimum-support filter,
  the canonical item order of a transaction, and trie insertion with node-link
  chains.

Doubles are Dafny `real`s. A double that may be NaN is
`AnomalyDetector.Sample = NaN | Val(real)`. Arrays are sequences. Every in-place
routine takes the old sequence and returns the new one. Each source file is one
module. The one exception is the swap: `Utility.Swap` models `Swap<T>` of
`FourierTransform.cs` and also serves the median's inline swaps in `Utility.cs`.

| file | module | source |
|---|---|---|
| `utility.dfy` | `Utility` | `DetectAnoms/Utility.cs` |
| `fourier.dfy` | `FourierTransform` | `DetectAnoms/FourierTransform.cs` |
| `seasonal.dfy` | `SeasonalTrendDecomposition` | `DetectAnoms/SeasonalTrendDecomposition.cs` |
| `anomaly.dfy` | `AnomalyDetector` | `DetectAnoms/AnomalyDetector.cs` |
| `detect_variant.dfy` | `DetectAnomaly` | `DetectAnoms/DetectAnomaly.cs` |
| `fpgrowth.dfy` | `FPGrowth` | `DetectAnoms/FPGrowth.cs` |

Each operation has an independent reference definition:

- the median is characterised by counts (`IsOrderStat`) and by a sorted copy;
- the bit reversal has a closed form through `Rev`;
- the transform has a stage-by-stage functional definition and the DC-component
  sum;
- the trend is defined window by window;
- the tiling is pinned down by the owner of each index;
- the interpolation is defined run by run;
- the FP-tree is tied to the header weights by the node-link conservation law.

The methods and recursive definitions are proved equal to these references.

## Model

| member | source | states |
|---|---|---|
| Utility.SafeAverage | DetectAnoms/Utility.cs:14-25 | the running mean of an empty sequence is 0, and of a non-empty one it is the arithmetic mean sum/count |
| Utility.WelfordStep | DetectAnoms/Utility.cs:17-22 | one update `avg += (x - avg) / count` turns the mean of the first t-1 items into the mean of the first t |
| Utility.SafeAverageNonNegative | DetectAnoms/Utility.cs:14-25 | the mean of non-negative values is non-negative, and it is zero exactly when every value is zero (the MAD fallback is zero only on a flat input) |
| Utility.Median | DetectAnoms/Utility.cs:35 | the reference lower median: an element of the input that is the (n-1)/2-th order statistic (at most (n-1)/2 entries are smaller and more than (n-1)/2 are no larger) |
| Utility.MedianUnique | DetectAnoms/Utility.cs:35 | any value that is the (n-1)/2-th order statistic is the median, so two correct selection algorithms agree |
| Utility.OrderStatUnique | DetectAnoms/Utility.cs:60-62 | two values that both hold rank k in a sequence are equal and occur in it, so the value a selection returns is fixed by its rank |
| Utility.Sort | DetectAnoms/Utility.cs:30-85 | the independent reference: an insertion sort returns a sorted permutation of its input |
| Utility.SortedOrderStat | DetectAnoms/Utility.cs:60-62 | the k-th entry of a sorted sequence is its k-th order statistic, so the median is the middle of a sorted copy |
| Utility.CountBelowPermutation | DetectAnoms/Utility.cs:52-54 | the number of entries below a value does not change when entries are swapped |
| Utility.Swap | DetectAnoms/FourierTransform.cs:66-71 | exchanging two entries keeps the multiset |
| Utility.SwapExchanges | DetectAnoms/FourierTransform.cs:66-71 | entries i and j trade places, and every other entry and the length stay as they were |
| Utility.Partition | DetectAnoms/Utility.cs:38-58 | the inner pass keeps the multiset and the pivot at `left`, and it leaves entries smaller than the pivot in left+1..i-1 and no smaller ones in i..right |
| Utility.PlacePivot | DetectAnoms/Utility.cs:66-80 | swapping the pivot into i-1 isolates both ranges left..i-2 and i..right from everything outside them, so either half can be searched next |
| Utility.QuickselectHit | DetectAnoms/Utility.cs:60-62 | after a pass, the pivot is the (i-1)-th order statistic of the whole array |
| Utility.HitIsMedian | DetectAnoms/Utility.cs:60-62 | when i-1 is the median index m, the pivot returned is the median of the caller's input |
| Utility.GetMedian | DetectAnoms/Utility.cs:30-85 | quickselect on a copy of a non-empty input returns the lower median of that input; the caller's sequence is a value and so is unchanged |
| FourierTransform.AddSubInverse | DetectAnoms/FourierTransform.cs:89-97 | the + and - operators undo each other, + commutes, and a difference is zero exactly when the operands are equal |
| FourierTransform.MulLaws | DetectAnoms/FourierTransform.cs:99-102 | the * operator commutes, is annihilated by zero and distributes over + |
| FourierTransform.MulOne | DetectAnoms/FourierTransform.cs:99-102 | the starting twiddle (1, 0) is a two-sided identity of the complex product |
| FourierTransform.Norm2 | DetectAnoms/FourierTransform.cs:84-87 | the squared modulus is non-negative, so it can stand in for the modulus in a maximum search |
| FourierTransform.CSumPermutation | DetectAnoms/FourierTransform.cs:66-71 | the complex sum of a sequence does not depend on the order of its entries |
| FourierTransform.RevInvolution | DetectAnoms/FourierTransform.cs:47-50 | reversing the bits twice gives the index back, so each pair is exchanged exactly once |
| FourierTransform.RevIncrement | DetectAnoms/FourierTransform.cs:52-62 | the carry loop (clear the leading ones from the top, then set the next bit) turns rev(i) into rev(i+1) |
| FourierTransform.ReversedIncrement | DetectAnoms/FourierTransform.cs:52-62 | the inner `while` terminates and computes that carry for every j below length-1 |
| FourierTransform.BitReversed | DetectAnoms/FourierTransform.cs:42-64 | the closed form: entry p goes to rev(p) for every p < length, and the entries from length on stay put |
| FourierTransform.BitReversedPermutes | DetectAnoms/FourierTransform.cs:42-64 | the bit reversal is a permutation of the whole array and of its first length entries |
| FourierTransform.ReverseStep | DetectAnoms/FourierTransform.cs:45-62 | one outer iteration keeps j == rev(i), keeps the multiset, and extends the reversed part by one index |
| FourierTransform.BinaryIndexReverse | DetectAnoms/FourierTransform.cs:42-64 | the loop leaves a[rev(i)] == old a[i] for every i < length, leaves the rest untouched, and keeps the multiset |
| FourierTransform.ButterflyBlock | DetectAnoms/FourierTransform.cs:29-37 | the in-place k loop rewrites exactly one block j..j+h-1 into its butterfly, where entry k pairs with k+h/2 as u + w*t and u - w*t and w is the (k-j)-th power of wn, and it touches nothing else |
| FourierTransform.StageFits | DetectAnoms/FourierTransform.cs:24-35 | for a power of two h <= length, length is a multiple of h and h/2 >= 1, so every access k + h/2 < j + h <= length is in bounds |
| FourierTransform.StageExtends | DetectAnoms/FourierTransform.cs:27-38 | a stage over one more block is the stage over the earlier blocks followed by that block's butterfly |
| FourierTransform.StageStep | DetectAnoms/FourierTransform.cs:27-38 | one step of the j loop extends the processed prefix by a block and leaves the rest as it was |
| FourierTransform.ApplyStage | DetectAnoms/FourierTransform.cs:27-38 | the j loop applies the butterfly to every block of the first length entries and leaves the entries beyond length untouched |
| FourierTransform.FFT | DetectAnoms/FourierTransform.cs:20-40 | the transform equals the functional definition: the bit reversal followed by the stages h = 2, 4, ..., length, with later entries unchanged |
| FourierTransform.StageHeads | DetectAnoms/FourierTransform.cs:29-37 | after a stage of block size 2*half, each block head holds the sum of the original block it covers |
| FourierTransform.StagesHeads | DetectAnoms/FourierTransform.cs:24-39 | after all stages, entry 0 holds the sum of the first length entries of the stage input |
| FourierTransform.DCComponent | DetectAnoms/FourierTransform.cs:20-40 | the DC component of the transform is the sum of the first length samples |
| SeasonalTrendDecomposition.RemoveAverage | DetectAnoms/SeasonalTrendDecomposition.cs:120-124 | a centred copy of the same length sums to zero and keeps every pairwise difference |
| SeasonalTrendDecomposition.SquaredError | DetectAnoms/SeasonalTrendDecomposition.cs:116 | a squared difference is non-negative, and positive exactly when the two values differ |
| SeasonalTrendDecomposition.Difference | DetectAnoms/SeasonalTrendDecomposition.cs:113-118 | the mean squared difference over the common length is non-negative, and zero exactly when the common prefixes agree |
| SeasonalTrendDecomposition.Window | DetectAnoms/SeasonalTrendDecomposition.cs:79 | `Skip(x).Take(len)`: at most len entries from x on, and none when x is past the end |
| SeasonalTrendDecomposition.Cost | DetectAnoms/SeasonalTrendDecomposition.cs:79-80 | the cost of every candidate start is the mean squared difference of two centred windows, so it is never negative |
| SeasonalTrendDecomposition.FirstMin | DetectAnoms/SeasonalTrendDecomposition.cs:81-82 | the stable `OrderBy(...).First()`: a minimal cost, with ties going to the earliest candidate |
| SeasonalTrendDecomposition.NextOffset | DetectAnoms/SeasonalTrendDecomposition.cs:69-83 | a next offset exists exactly when offset+minPeriod is inside the series; it is then at most maxPeriod ahead, inside the series, and the earliest start of minimal cost among the candidates |
| SeasonalTrendDecomposition.Walk | DetectAnoms/SeasonalTrendDecomposition.cs:66-89 | the walk is a chain of steps in [minPeriod, maxPeriod] that ends only where no candidate start is left |
| SeasonalTrendDecomposition.Offsets | DetectAnoms/SeasonalTrendDecomposition.cs:63-89 | the recorded offsets start at 0, rise strictly by at most maxPeriod, stay inside the series, and end where the walk stops |
| SeasonalTrendDecomposition.ChainIncreasing | DetectAnoms/SeasonalTrendDecomposition.cs:69-84 | each chain step moves forward by at least 1 and at most maxPeriod, and every offset stays below the series length |
| SeasonalTrendDecomposition.Periods | DetectAnoms/SeasonalTrendDecomposition.cs:62-88 | every collected window has exactly maxPeriod entries, and the first is the centred offset-0 window |
| SeasonalTrendDecomposition.PeriodAverage | DetectAnoms/SeasonalTrendDecomposition.cs:91-93 | each phase of the period average is the lower median of that phase across the collected windows |
| SeasonalTrendDecomposition.CopyLength | DetectAnoms/SeasonalTrendDecomposition.cs:105-106 | the clamped length fits both arrays, and it is shorter than asked only where one of them ends |
| SeasonalTrendDecomposition.Copy | DetectAnoms/SeasonalTrendDecomposition.cs:103-111 | only dest[destOffset .. destOffset+len) changes, and it receives the source entries from srcOffset |
| SeasonalTrendDecomposition.CopyArray | DetectAnoms/SeasonalTrendDecomposition.cs:103-111 | the copy loop computes exactly that clamped copy |
| SeasonalTrendDecomposition.Tile | DetectAnoms/SeasonalTrendDecomposition.cs:95-98 | copying the period average at each offset writes into the seasonal array in place, so its length is unchanged |
| SeasonalTrendDecomposition.Owner | DetectAnoms/SeasonalTrendDecomposition.cs:95-98 | the owner of index g is the largest recorded offset not after g |
| SeasonalTrendDecomposition.TileCover | DetectAnoms/SeasonalTrendDecomposition.cs:95-98 | after tiling, every index g below the last offset plus maxPeriod holds periodAvg[g - owner(g)] |
| SeasonalTrendDecomposition.TileFrame | DetectAnoms/SeasonalTrendDecomposition.cs:95-98 | indices beyond the last tile keep their previous value |
| SeasonalTrendDecomposition.SeasonalMean | DetectAnoms/SeasonalTrendDecomposition.cs:59-101 | the period average has maxPeriod phases, each the median of its phase; the seasonal array is tiled from it at the recorded offsets; the tiles cover the series when minPeriod <= maxPeriod |
| SeasonalTrendDecomposition.SeasonalMeanOverwrites | DetectAnoms/SeasonalTrendDecomposition.cs:95-98 | one pass fully overwrites the previous seasonal array, so its result does not depend on it |
| SeasonalTrendDecomposition.TrendWindow | DetectAnoms/SeasonalTrendDecomposition.cs:131-133 | the clamped window around i contains a[i], has at most 2*period+1 entries, and takes entries of a only |
| SeasonalTrendDecomposition.TrendIsWindowMedian | DetectAnoms/SeasonalTrendDecomposition.cs:126-137 | trend[i] is the lower median of the clamped window around i and an element of it |
| SeasonalTrendDecomposition.TrendOfZeroPeriod | DetectAnoms/SeasonalTrendDecomposition.cs:126-137 | with period 0 every window is the single entry, so the trend is the series itself |
| SeasonalTrendDecomposition.GetTrend | DetectAnoms/SeasonalTrendDecomposition.cs:126-137 | the loop computes the window-median trend at every index |
| SeasonalTrendDecomposition.Trend | DetectAnoms/SeasonalTrendDecomposition.cs:128-129 | the trend array has one entry per sample |
| SeasonalTrendDecomposition.Iterate | DetectAnoms/SeasonalTrendDecomposition.cs:37-40 | zero passes keep the seed and the zero seasonal array; when minPeriod <= maxPeriod, after any pass the seasonal array is tiled by a period average of maxPeriod phases |
| SeasonalTrendDecomposition.Assemble | DetectAnoms/SeasonalTrendDecomposition.cs:42-46 | the residual is the detrended, deseasonalised series, so trend + seasonal + residual gives back every sample |
| SeasonalTrendDecomposition.IterateLastPass | DetectAnoms/SeasonalTrendDecomposition.cs:37-40 | after loop passes the seasonal array is the last pass alone, run from a zero array with the period average of the first loop-1 passes as its seed |
| SeasonalTrendDecomposition.Decompose | DetectAnoms/SeasonalTrendDecomposition.cs:29-47 | all three parts have the series' length and add up to it exactly; the trend is the window median; with loop 0 the seasonal part is zero and the residual is a - trend; with loop 1 the seasonal part is the SeasonalMean pass over the detrended series seeded with the first maxPeriod raw samples; when minPeriod <= maxPeriod it is, for every loop > 0, tiled by a maxPeriod-long average and is the last pass from a zero array seeded with the previous passes' period average |
| AnomalyDetector.RunStart | DetectAnoms/AnomalyDetector.cs:53-58 | the start of the NaN run around j follows a valid sample or the array start |
| AnomalyDetector.RunEnd | DetectAnoms/AnomalyDetector.cs:51-62 | the end of the NaN run around j is a valid sample or the array end |
| AnomalyDetector.Interpolated | DetectAnoms/AnomalyDetector.cs:48-84 | the run-by-run reference keeps the length and every valid sample |
| AnomalyDetector.NoNaNRemains | DetectAnoms/AnomalyDetector.cs:64-78 | if any sample is valid, no NaN survives interpolation |
| AnomalyDetector.AllNaNUnchanged | DetectAnoms/AnomalyDetector.cs:64-71 | an all-NaN array is left as it is |
| AnomalyDetector.InteriorRunIsLinear | DetectAnoms/AnomalyDetector.cs:64-77 | an interior run s..e-1 becomes L + (R-L)/(e-s+1)*(j-s+1), the straight line from L = a[s-1] that reaches R = a[e] one step after the run |
| AnomalyDetector.LineReaches | DetectAnoms/AnomalyDetector.cs:73-76 | with unit (R-L)/n, stepping n times from L lands exactly on R |
| AnomalyDetector.FillMatches | DetectAnoms/AnomalyDetector.cs:64-76 | the value the fill loop writes at j is the run-by-run reference value, including the edge fallbacks for a missing left or right neighbour |
| AnomalyDetector.EdgeRunCopies | DetectAnoms/AnomalyDetector.cs:64-69 | a leading run copies the first valid sample after it, and a trailing run copies the last valid sample before it |
| AnomalyDetector.FillRun | DetectAnoms/AnomalyDetector.cs:71-78 | the fill loop writes exactly the run's interpolated values and nothing outside the run |
| AnomalyDetector.CloseRun | DetectAnoms/AnomalyDetector.cs:62-81 | closing a run at i completes the interpolation of everything before i and leaves the rest as it was |
| AnomalyDetector.InterpolateNaN | DetectAnoms/AnomalyDetector.cs:48-84 | the single pass with nanStart computes the run-by-run interpolation |
| AnomalyDetector.FirstMax | DetectAnoms/AnomalyDetector.cs:26-29 | the stable `OrderByDescending(...).First()`: a maximum, with ties going to the smallest index |
| AnomalyDetector.Peak | DetectAnoms/AnomalyDetector.cs:24-29 | the peak is in the band, has the maximal squared modulus there, and every earlier index in the band is strictly smaller |
| AnomalyDetector.PeakUnique | DetectAnoms/AnomalyDetector.cs:24-29 | any index with those two properties is the peak |
| AnomalyDetector.BandBounds | DetectAnoms/AnomalyDetector.cs:24-25 | for a power of two fftLength >= 64 the band fftLength/64 ..= fftLength/16 is non-empty and inside the spectrum, and it contains index 1 exactly when fftLength == 64 |
| AnomalyDetector.Periods | DetectAnoms/AnomalyDetector.cs:30-31 | index 1 divides by zero; otherwise maxPeriod and minPeriod are the floor quotients of fftLength by index-1 and index+1 |
| AnomalyDetector.PeriodBounds | DetectAnoms/AnomalyDetector.cs:30-31 | for index >= 2 inside the spectrum, 1 <= minPeriod <= maxPeriod <= fftLength |
| AnomalyDetector.PeriodsMayCoincide | DetectAnoms/AnomalyDetector.cs:24-31 | the range is not strict: at fftLength 1024 the in-band peak index 50 gives maxPeriod == minPeriod == 20 |
| AnomalyDetector.Deviations | DetectAnoms/AnomalyDetector.cs:34 | each deviation is abs(residual[i] - median): non-negative, and zero exactly at the median |
| AnomalyDetector.Mad | DetectAnoms/AnomalyDetector.cs:36-40 | the MAD is the median of the deviations, or their running mean when that median is 0; it is zero exactly when every deviation is |
| AnomalyDetector.Scores | DetectAnoms/AnomalyDetector.cs:42 | a score is a number exactly when mad > 0, and then it is the non-negative deviation divided by mad |
| AnomalyDetector.MadScores | DetectAnoms/AnomalyDetector.cs:33-42 | the scores of a residual have its length, and every numeric score is non-negative |
| AnomalyDetector.ScoresMonotone | DetectAnoms/AnomalyDetector.cs:42 | a larger deviation never gets a smaller score |
| AnomalyDetector.MadScoresNaN | DetectAnoms/AnomalyDetector.cs:33-42 | every score is NaN exactly when the residual is constant |
| AnomalyDetector.AsComplex | DetectAnoms/AnomalyDetector.cs:22 | each sample becomes the complex number with that real part and zero imaginary part |
| AnomalyDetector.PeakPeriods | DetectAnoms/AnomalyDetector.cs:24-31 | the period range of the spectrum's peak in the band fails only by division by zero with the band starting at 1, and otherwise lies within 1..fftLength |
| AnomalyDetector.DetectValues | DetectAnoms/AnomalyDetector.cs:22-42 | with a number series, it fails exactly when the peak's period range does, and only by the division by zero at fftLength 64; on success the decomposition is Decompose at that peak's maxPeriod and minPeriod, it adds up to the input, and the scores are the MAD scores of its residual |
| AnomalyDetector.Recombine | DetectAnoms/AnomalyDetector.cs:19-43 | a decomposition that adds up to the numbers of a fully valid sample series adds up to the samples themselves |
| AnomalyDetector.Detect | DetectAnoms/AnomalyDetector.cs:19-43 | the input is interpolated first; the detection fails for want of samples exactly when every sample is NaN; otherwise it fails exactly when the peak's period range does, which is only at fftLength 64; on success the decomposition is Decompose of the interpolated series at the peak's periods, it adds up to the interpolated samples, and the scores are the MAD scores of its residual |
| DetectAnomaly.BandAvoidsZero | DetectAnoms/DetectAnomaly.cs:22-29 | the band fftLength/32 ..= fftLength/8 starts at 2 or later for fftLength >= 64, so the period range always exists and lies within 1..fftLength |
| DetectAnomaly.PeriodsMayCoincide | DetectAnoms/DetectAnomaly.cs:22-29 | the wider band does not make the period range strict: at fftLength 256 the peak index 27 gives maxPeriod == minPeriod == 9 |
| DetectAnomaly.Mad | DetectAnoms/DetectAnomaly.cs:34-38 | the MAD is the median deviation, or the arithmetic mean when that median is 0; it is non-negative, zero exactly when every deviation is, and equal to the current variant's MAD |
| DetectAnomaly.MadScores | DetectAnoms/DetectAnomaly.cs:31-40 | the older scoring gives the same scores as the current one, since both fallbacks agree on a non-empty sequence |
| DetectAnomaly.Detect | DetectAnoms/DetectAnomaly.cs:18-41 | without interpolation and with the wider band the detection cannot fail: the peak's period range always exists, and the decomposition is Decompose at its maxPeriod and minPeriod; trend, seasonal and residual add up to the input, and the scores are the MAD scores of the residual |
| FPGrowth.Insert | DetectAnoms/FPGrowth.cs:40-62 | inserting keeps the node's name and count, adds the first item as a child key (and nothing else), and leaves every other child's subtree as it was |
| FPGrowth.InsertSpec | DetectAnoms/FPGrowth.cs:38-63 | after inserting items with weight w, a path exists exactly when it existed before or is a prefix of items, and every non-root prefix gains w on top of its old count (a new node starts at w) |
| FPGrowth.InsertNamed | DetectAnoms/FPGrowth.cs:43-59 | every child stays named by the item of its key, so a node has at most one child per item |
| FPGrowth.ExistingPrefixes | DetectAnoms/FPGrowth.cs:41-61 | the prefixes of items already in the tree are exactly the first ExistingDepth ones; the rest get new nodes |
| FPGrowth.InsertChainSum | DetectAnoms/FPGrowth.cs:41-61 | inserting a transaction raises the sum of counts along any chain by w for each chain node that lies on the inserted path |
| FPGrowth.NewLinksSpec | DetectAnoms/FPGrowth.cs:50-58 | the new node-links for x are exactly the new prefixes that end in x, each once |
| FPGrowth.Relink | DetectAnoms/FPGrowth.cs:50-58 | each new node is prepended to its item's chain and header counts are untouched |
| FPGrowth.Update | DetectAnoms/FPGrowth.cs:38-63 | inserting a transaction keeps the header's items and their counts |
| FPGrowth.UpdateLinked | DetectAnoms/FPGrowth.cs:38-63 | after an insertion every chain still lists, once each, exactly the nodes of its item |
| FPGrowth.UpdateConserves | DetectAnoms/FPGrowth.cs:41-61 | inserting items with weight w raises the sum of counts along x's chain by w times the occurrences of x in items |
| FPGrowth.Weights | DetectAnoms/FPGrowth.cs:14-23 | a missing count list means weight 1 per transaction; otherwise weights pair with transactions and the shorter list truncates |
| FPGrowth.AddItemsSpec | DetectAnoms/FPGrowth.cs:70-83 | counting a transaction adds its weight once per occurrence of each item, duplicates included |
| FPGrowth.TallySpec | DetectAnoms/FPGrowth.cs:68-84 | the raw table holds exactly the items that occur, each with the summed weight of its occurrences |
| FPGrowth.InitHeaderTable | DetectAnoms/FPGrowth.cs:65-88 | the header keeps exactly the items whose total weight reaches minSupport, each with that total and an empty chain |
| FPGrowth.KeepFrequent | DetectAnoms/FPGrowth.cs:25-26 | the filtered transaction keeps every header item with its multiplicity and drops the rest |
| FPGrowth.InsertInOrder | DetectAnoms/FPGrowth.cs:28-29 | inserting into a header-ordered list keeps it ordered and adds exactly the item |
| FPGrowth.OrderItems | DetectAnoms/FPGrowth.cs:25-31 | the inserted list is the transaction's header items with their multiplicity, by descending header count and then ascending item |
| FPGrowth.SortByHeader | DetectAnoms/FPGrowth.cs:28-29 | ordering header items by descending count and ascending item gives an ordered permutation of them |
| FPGrowth.SortedUnique | DetectAnoms/FPGrowth.cs:28-29 | the order is total, so two ordered lists with the same items are equal: the canonical order is unique |
| FPGrowth.OrderKeepsOccurrences | DetectAnoms/FPGrowth.cs:25-31 | ordering keeps the occurrences of each header item |
| FPGrowth.Build | DetectAnoms/FPGrowth.cs:23-33 | inserting the ordered transactions one by one never changes the header items or their counts |
| FPGrowth.BuildInvariant | DetectAnoms/FPGrowth.cs:23-33 | after any number of transactions, the chains are linked, the root is unchanged, and each chain's node counts sum to the weight of its item in those transactions |
| FPGrowth.CreateFPTree | DetectAnoms/FPGrowth.cs:12-36 | the header holds exactly the frequent items with their total weights; the root has the default name and count 0; every chain lists the nodes of its item once each, and its counts sum to the header count |

## Left out

- Floating point. Doubles are reals, so rounding, overflow, infinities and IEEE
  comparisons with NaN are not modelled. The overflow-avoiding form of
  `SafeAverage` is therefore only proved equal to sum/count.
- Scores when mad is 0. NaN and infinite scores become `AnomalyDetector.Sample.NaN`
  in `Scores`.
- Square root. `Complex.GetModulus` is replaced by the squared modulus
  `FourierTransform.Norm2`. `Math.Sqrt` is monotone, so the argmax is the same.
- Twiddle factors. The `Math.Cos`/`Math.Sin` factor of each stage is the parameter
  `twiddle(h)`. Numerical agreement with the discrete Fourier transform is not
  claimed beyond the DC component.
- FourierTransform.Norm2: does not state that the squared modulus is zero only for
  zero, because that needs nonlinear real reasoning the model does not use.
- An exception the source would throw on a bad argument is a precondition.
  - `GetMedian` requires a non-empty input; otherwise `a[0]` is out of range.
  - The FFT requires a power-of-two length no longer than the input.
  - `Decompose` with loop > 0 requires maxPeriod <= length. A longer period makes
    `x[i]` fail in the period average.
  - `SeasonalMean`, `Iterate` and `Decompose` with loop > 0 require
    minPeriod <= maxPeriod + 1. Otherwise the candidate count
    `right - left + 1` is negative and `Enumerable.Range` throws
    (SeasonalTrendDecomposition.cs:71).
- SeasonalTrendDecomposition.SeasonalMean: requires minPeriod >= 1, because with
  minPeriod 0 the walk can stay on one offset forever. The source then does not
  terminate.
- SeasonalTrendDecomposition.SeasonalMean: every candidate start inside the series
  is recorded as an offset, even when fewer than maxPeriod samples follow it. Such
  a short window is tiled but not averaged (SeasonalTrendDecomposition.cs:83-87).
- SeasonalTrendDecomposition.Decompose: takes maxPeriod, minPeriod, trendSmooth and
  loop as naturals; a negative value of the source's `int` is not modelled. A
  negative loop would run no pass, the same as loop 0. A negative trendSmooth would
  empty every trend window, and `GetMedian` would then throw
  (SeasonalTrendDecomposition.cs:131-133).
- SeasonalTrendDecomposition.Decompose: for loop >= 2 with minPeriod == maxPeriod + 1
  it does not state the link to the last pass, and for loop > 0 it does not state a
  tiling. There the candidate range is empty, so the walk stops at offset 0
  (SeasonalTrendDecomposition.cs:71-77), each pass rewrites only the first maxPeriod
  entries, and the tail keeps its zeros.
- AnomalyDetector.Detect: an all-NaN input is reported as a missing-sample failure.
  The source would carry NaN through the transform and the medians.
- AnomalyDetector.Detect: a division by zero at fftLength 64 is reported as a
  failure result instead of an exception.
- AnomalyDetector.PeriodBounds: states minPeriod <= maxPeriod and no more. The
  two can be equal inside the scanned band (`AnomalyDetector.PeriodsMayCoincide`,
  `DetectAnomaly.PeriodsMayCoincide`), so a strict range does not hold.
- DetectAnomaly.Detect: takes numbers only. A NaN in the older variant would flow
  through unchanged.
- The three-argument `SeasonalTrendDecomposition.GetMedian(a, 0, Length-1)` is not
  part of this model. Both calls cover the whole array, so they are modelled as the
  lower median.
- FPGrowth.CreateFPTree: counts are unbounded integers. 32-bit wrap-around of `int`
  header and node counts is not modelled.
- The item type `T` is `int`, and its default comparer is `<=`. The root's
  `default(T)` is 0.
- A node's `Parent` reference and `NodeLink` field are implicit. A node is named by
  its path, its parent is that path without the last item, and a header's chain is
  the sequence of paths, newest first.
- The `Dictionary` of children is a map, so a node has at most one child per item
  by construction.
- The header lookup `tree.HeaderTable[item]` in `UpdateFPTree` is a precondition:
  every inserted item is a header key. `CreateFPTree` establishes this by filtering.
- The weights for a missing count list are `Enumerable.Repeat(1, int.MaxValue)`,
  modelled as int.MaxValue ones. LINQ laziness and repeated enumeration are not
  modelled.
- `TreeNode.Dump` (trace logging) and `Program.cs` (console demo) are left out.
  `Program.cs` calls mining methods that are not part of this model.

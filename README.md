# Tau-ID score scale factors, modelled in Dafny

This project models the core of a tool that turns tau-identification efficiency histograms into
a scale-factor surface binned in discriminator score. The tool keeps one histogram per working
point for each of three types: MC efficiency (`mc`), data efficiency (`data`) and scale factor
(`sf`). It does the following:

- it orders the working points from loosest to tightest by their names ("Loose", "Medium", "Tight");
- it reconciles the working points that each stored type holds;
- it derives any one of mc, data and sf from the other two, bin by bin;
- for every kinematic bin it turns cumulative data efficiencies into exclusive slices and
  merges slices below a threshold;
- it redraws the slices over the score thresholds of the surviving working points;
- it prints the result as a two-variable step-function formula.

The driver script adds `RemoveSameBins`, which rebins a histogram on the edges where its content
changes. It also adds the filter that picks TF1 objects by systematic shift, and the axis labels
drawn under the working points.

Modules, one per component of `python/ScoreSFTool.py` and one for the script:

| module | file | what |
|---|---|---|
| `Wrappers`, `Sequences`, `OrderedDicts` | foundation.dfy | `Option`/`Result`, Python exceptions as values, sums and subsequences, `OrderedDict` as key list plus map |
| `Histograms` | histogram.dfy | a ROOT `TH1D` as a value: edges, contents and squared errors, bins 0 (underflow) to N+1 (overflow); `FindBin`, `GetBinLowEdge`, `SetBinContent`, `Divide`, `Multiply` |
| `WorkingPoints` | working_points.dfy | tiers by substring, Python string order, `sorted`, the canonical order |
| `Stores` | store.dfy | the store `histograms_od` (type → key → histogram) and `CheckType` |
| `Reconciliation`, `Inputs` | reconcile.dfy, input_histograms.dfy | the deletion loops of `InputHistograms` |
| `Algebra` | algebra.dfy | `CalculateHistograms`, `ScaleHistogramsByHistogram` |
| `Rebinning`, `WpBinned` | rebin.dfy, wp_binned.dfy | `ConvertToWPBinnedHistograms`: exclusive slices, the merge loop, slice histograms |
| `ScoreBinned` | score_binned.dfy | `ConvertToScoreBinnedHistograms` |
| `Formula` | formula.dfy | `DumpSFTF2` |
| `Tool` | tool.dfy | class `ScoreSFTool` with the fields `histograms_od`, `sorted_wp` and `rebinned_bins`, whose methods update them in place |
| `Driver` | driver.dfy | `RemoveSameBins`, the TF1 name filter, the axis labels |

Each loop of the source is a method with loop invariants. Each method is proved equal to a
specification function, and the properties of the source are lemmas about those functions.
Python exceptions are values. `KeyError` and `IndexError` are kept apart, and where Python has
already changed state before it raises, the model keeps that partial change.

Three behaviours of the code are easy to misread, and the model follows the code in each:

- A division by zero does not give infinity or NaN. The code uses ROOT's `TH1::Divide`, which
  stores 0 for an empty denominator bin, so `Histograms.Divide` does the same.
- A working point that another type lacks is not dropped from all types. The reconciliation loop
  deletes it from the *input* type only, raises `KeyError` when the same point is deleted twice,
  and leaves `sorted_wp` as computed before the deletions.
- The last slice is not exempt from the threshold. The merge loop's condition checks the last
  slice too (see Findings).

## Model

| member | source | states |
|---|---|---|
| `WorkingPoints.SortedWpsMembers` | python/ScoreSFTool.py:42-57 | a name is in `sorted_wp` exactly when it is a key containing "Loose", "Medium" or "Tight"; other keys are dropped |
| `WorkingPoints.SortedWpsMediumInputOrder` | python/ScoreSFTool.py:45-57 | of two Medium names in `sorted_wp`, the earlier one's key comes earlier in the input |
| `WorkingPoints.NamesOfTierOrder` | python/ScoreSFTool.py:45-51 | the names collected for a tier come in the order of their keys in the input |
| `WorkingPoints.SortedWpsTierOrder` | python/ScoreSFTool.py:45-57 | every Loose name precedes every Medium name, which precedes every Tight name |
| `WorkingPoints.SortedWpsLooseDescending` | python/ScoreSFTool.py:53-54 | the Loose block is strictly descending in Python string order |
| `WorkingPoints.SortedWpsTightAscending` | python/ScoreSFTool.py:55 | the Tight block is strictly ascending in Python string order |
| `WorkingPoints.SortedWpsDistinct` | python/ScoreSFTool.py:40-57 | distinct keys give an order without repetitions |
| `WorkingPoints.NamesOfTierMembers` | python/ScoreSFTool.py:45-51 | a name lands in a tier's list exactly when it is a key whose first matching substring is that tier's |
| `WorkingPoints.SortPermutation` | python/ScoreSFTool.py:53 | `sorted` returns a permutation of its input |
| `WorkingPoints.SortAscending` | python/ScoreSFTool.py:53-55 | `sorted` returns an ascending list, strictly so for distinct names |
| `Tool.ScoreSFTool.GetSortedWPs` | python/ScoreSFTool.py:40-57 | the classification loop and the sorts set `sorted_wp` to the canonical order |
| `Inputs.InputHistograms` | python/ScoreSFTool.py:17-38 | a type that `CheckType` rejects (anything but "mc", "data" or "sf") leaves the store as it is; a known type is stored (appended if new) and no type disappears |
| `Inputs.OrderFacts` | python/ScoreSFTool.py:29 | the recomputed order holds, once each, the input keys that name a working point of some tier |
| `Inputs.InputHistogramsRaises` | python/ScoreSFTool.py:30-38 | `KeyError` is raised exactly when an earlier other type lacks a point and a later type, or the input type itself, lacks it too |
| `Inputs.InputHistogramsInputType` | python/ScoreSFTool.py:30-38 | without an exception, the input type keeps exactly its tiered keys that every other type holds, with the given histograms |
| `Inputs.InputHistogramsOtherType` | python/ScoreSFTool.py:30-34 | without an exception, every other type keeps exactly its keys that are in the new order, histograms unchanged |
| `Inputs.InputHistogramsAgree` | python/ScoreSFTool.py:24-38 | when every other type holds every point of the new order, nothing is raised and all types end with the same key set |
| `Reconciliation.PruneLoop` | python/ScoreSFTool.py:31-34 | the first inner loop deletes exactly the keys outside the order and keeps the rest in place |
| `Reconciliation.DropLoop` | python/ScoreSFTool.py:35-38 | the second inner loop deletes from the input type each point the current type lacks, or raises `KeyError` |
| `Reconciliation.ReconcileLoop` | python/ScoreSFTool.py:30-38 | the loop over the stored types ends as the reconciliation function specifies |
| `Reconciliation.ReconcileRaises` | python/ScoreSFTool.py:30-38 | the generic loop raises exactly when some type position clashes |
| `Tool.ScoreSFTool.InputHistograms` | python/ScoreSFTool.py:24-38 | the method leaves the store and exception that `Inputs.InputHistograms` gives, and `sorted_wp` computed from the input before any deletion |
| `Algebra.CalculateHistograms` | python/ScoreSFTool.py:59-86 | an output type that `CheckType` (lines 17-22) rejects (anything but "mc", "data" or "sf") or a missing input type leaves the store untouched; otherwise only the output type changes |
| `Algebra.CalculateHistogramsResult` | python/ScoreSFTool.py:72-86 | the output holds the source type's keys in order, each combined (mc = data/sf, data = mc*sf, sf = data/mc) with the factor's histogram; `KeyError` exactly when the factor lacks a key, with the copy of that key already stored |
| `Algebra.FillResult` | python/ScoreSFTool.py:73-86 | the filling loop stops at the first key the factor lacks, and stores every earlier key combined |
| `Algebra.DataRoundTrip` | python/ScoreSFTool.py:79-86 | deriving sf from data and mc, then data from mc and sf, gives back the data contents when no mc bin is zero |
| `Algebra.McRoundTrip` | python/ScoreSFTool.py:72-81 | deriving data from mc and sf, then mc from data and sf, gives back the mc contents when no sf bin is zero |
| `Algebra.CalculateLoop` | python/ScoreSFTool.py:59-86 | the key-by-key loop ends in the state `Algebra.CalculateHistograms` specifies |
| `Tool.ScoreSFTool.CalculateHistograms` | python/ScoreSFTool.py:59-86 | the method leaves the store and exception of `Algebra.CalculateHistograms` |
| `Algebra.ScaleHistogramsByHistogram` | python/ScoreSFTool.py:97-103 | a missing type raises `KeyError`; otherwise the type keeps its keys, each of its histograms is replaced by itself multiplied or divided by the given histogram, and every other type keeps its dict |
| `Algebra.ScaleRoundTrip` | python/ScoreSFTool.py:97-103 | dividing by a histogram with no zero bin undoes multiplying by it |
| `Tool.ScoreSFTool.ScaleHistogramsByHistogram` | python/ScoreSFTool.py:97-103 | the in-place loop scales every histogram of the type and nothing else |
| `Histograms.MultiplyThenDivide` | python/ScoreSFTool.py:101-103 | `Multiply` then `Divide` by the same histogram restores the contents |
| `Histograms.FactorTimesQuotient` | python/ScoreSFTool.py:81-86 | multiplying by b the quotient a/b restores a's contents |
| `Histograms.FindBinOfBin` | python/ScoreSFTool.py:130 | on an increasing axis `FindBin` returns the bin whose interval holds the point |
| `Rebinning.DiffsSum` | python/ScoreSFTool.py:129-136 | the exclusive values (each minus the next, the last as is) telescope to the first cumulative value |
| `Rebinning.MergedFacts` | python/ScoreSFTool.py:139-145 | merging keeps the total, keeps the first label, leaves labels that are an order-preserving subsequence, and ends with every slice at or above the threshold unless one is left |
| `Rebinning.MergedDiffs` | python/ScoreSFTool.py:139-145 | merging exclusive values is differencing the cumulative values of the surviving labels |
| `Rebinning.MergedAsWritten` | python/ScoreSFTool.py:140-145 | when the loop as written ends, every slice, the last included, is at or above the threshold |
| `Rebinning.AsWrittenEnds` | python/ScoreSFTool.py:140-145 | the loop as written ends when no slice is negative and the last one reaches the threshold |
| `Rebinning.AsWrittenAgrees` | python/ScoreSFTool.py:140-145 | where the loop as written ends, it ends with the corrected loop's result |
| `Rebinning.ExemptLastFacts` | python/ScoreSFTool.py:139-145 | the other fix, with the last slice exempt from the threshold: merging keeps the total, keeps the first label, only drops labels, and ends with every slice but the last at or above the threshold |
| `Rebinning.AsWrittenAgreesExempt` | python/ScoreSFTool.py:140-145 | where the loop as written ends, it ends with the exempt-last loop's result too |
| `Rebinning.LastSliceExempt` | python/ScoreSFTool.py:140-145 | on slices 0.4, 0.45, 0.05 at threshold 0.1 the exempt-last loop changes nothing |
| `Rebinning.LastSliceHangs` | python/ScoreSFTool.py:140-145 | efficiencies 0.9, 0.5, 0.05 at threshold 0.1 give slices 0.4, 0.45, 0.05, on which the loop as written never ends |
| `Rebinning.SingleSliceHangs` | python/ScoreSFTool.py:140-145 | a single slice below the threshold also makes the loop as written spin |
| `Rebinning.MergeSlices` | python/ScoreSFTool.py:140-145 | the corrected in-place merge loop computes `Merged` |
| `Rebinning.MergeSlicesAsWritten` | python/ScoreSFTool.py:140-145 | on inputs where it ends, the loop as written computes `MergedAsWritten` |
| `WpBinned.ExclusiveEfficiencies` | python/ScoreSFTool.py:129-136 | the per-bin loop yields one exclusive value per working point, or `KeyError` when data lacks one |
| `WpBinned.EfficiencyTable` | python/ScoreSFTool.py:125-136 | the loop over kinematic bins fills `eff_bin_data_val` bin by bin |
| `WpBinned.RebinAll` | python/ScoreSFTool.py:139-145 | the merge over every kinematic bin records its surviving working points |
| `WpBinned.SliceHistogram` | python/ScoreSFTool.py:151-163 | a slice histogram has edges 0..N and bin j+1 holds survivor j minus survivor j+1 (squared errors added), the last survivor alone |
| `WpBinned.DrawSlices` | python/ScoreSFTool.py:149-163 | the drawing loop builds one slice histogram per kinematic bin, or raises `KeyError` |
| `WpBinned.BinKeysTile` | python/ScoreSFTool.py:119-120 | the kinematic bins are the regular bins of the first sf histogram, the last one included |
| `WpBinned.ConvertToWPBinnedHistograms` | python/ScoreSFTool.py:113-167 | `IndexError` exactly when sf is stored and empty |
| `WpBinned.ConvertSucceeds` | python/ScoreSFTool.py:119-163 | the conversion succeeds when data and mc hold every working point |
| `WpBinned.ConvertRaises` | python/ScoreSFTool.py:130-159 | it raises `KeyError` when data lacks a working point, or mc lacks the first one |
| `WpBinned.ConvertShape` | python/ScoreSFTool.py:148-167 | afterwards the store holds data, mc and sf over the kinematic bins; survivors are an order-preserving subsequence starting with the loosest; each histogram has one bin per survivor; sf is data over mc |
| `WpBinned.DataSlices` | python/ScoreSFTool.py:125-163 | the data slice contents are differences of surviving neighbours, they sum to the loosest efficiency, and each reaches the threshold unless one slice is left |
| `WpBinned.ConvertDataSlices` | python/ScoreSFTool.py:156-165 | the stored data histogram of a kinematic bin holds the slice contents of its survivors |
| `WpBinned.ConvertMcSlices` | python/ScoreSFTool.py:156-165 | the stored mc histogram of a kinematic bin holds the mc slice contents of the survivors chosen on data |
| `WpBinned.SfOfSlices` | python/ScoreSFTool.py:165-166 | recomputing sf adds it last, as data divided by mc, without an exception |
| `WpBinned.Convert` | python/ScoreSFTool.py:113-167 | the steps run in order end in the store, survivors and exception of `WpBinned.ConvertState` |
| `Tool.ScoreSFTool.ConvertToWPBinnedHistograms` | python/ScoreSFTool.py:113-167 | the method replaces the store and `rebinned_bins`, or leaves both on an exception |
| `ScoreBinned.ConvertToScoreBinnedHistograms` | python/ScoreSFTool.py:178-192 | the conversion fails with `KeyError` exactly when a key lacks survivors or a survivor lacks a score; otherwise types and keys keep their order |
| `ScoreBinned.ScoreBinnedHist` | python/ScoreSFTool.py:183-190 | each new histogram has the scores of its survivors as edges, then 1.0; bins 0..N copied verbatim |
| `ScoreBinned.ScoreEdgesIncreasing` | python/ScoreSFTool.py:183-186 | rising scores below 1.0 give increasing edges |
| `ScoreBinned.EdgesOf` | python/ScoreSFTool.py:183-185 | the edge loop yields the scores then 1.0, or `KeyError` |
| `ScoreBinned.RebinHist` | python/ScoreSFTool.py:187-190 | the fill loop builds the re-indexed histogram |
| `ScoreBinned.ConvertLoop` | python/ScoreSFTool.py:179-192 | the loops over types and keys compute the conversion |
| `ScoreBinned.ScoreState` | python/ScoreSFTool.py:178-192 | on `KeyError` the store is left as it was |
| `Tool.ScoreSFTool.ConvertToScoreBinnedHistograms` | python/ScoreSFTool.py:178-192 | the method replaces the store only when nothing is raised |
| `Formula.DumpSFTF2` | python/ScoreSFTool.py:236-238 | without an sf type the serializer raises `KeyError` |
| `Formula.DumpIsIntended` | python/ScoreSFTool.py:236-251 | for kinematic-bin keys and nonempty survivor lists, the string is the clauses joined by " + " in parentheses: each is `(x>lo && x<=hi)`, open above for the last key, times the steps `(c*(y>l && y<=h))`, the last step `(c*(y>l))` |
| `Formula.ChunkClause` | python/ScoreSFTool.py:240-249 | what one key appends is its clause followed by " + " |
| `Formula.TermsJoin` | python/ScoreSFTool.py:245-249 | appending score terms with trailing separators is the joined steps plus the closing |
| `Formula.DumpRaises` | python/ScoreSFTool.py:238-249 | the first key that raises decides the exception |
| `Formula.DumpEmpty` | python/ScoreSFTool.py:237-251 | an empty sf gives the string ")" |
| `Formula.ChunkMissing` | python/ScoreSFTool.py:245 | a key without survivors raises `KeyError` |
| `Formula.OpenName` | python/ScoreSFTool.py:240-243 | a key without "to" raises `IndexError` unless it is the last key |
| `Formula.SplitKey` | python/ScoreSFTool.py:241 | splitting "lo" + "to" + "hi" on "to" gives back both numbers when neither contains "to" |
| `Formula.SplitJoin` | python/ScoreSFTool.py:241 | joining the parts of a split with "to" gives back the string |
| `Formula.Dump` | python/ScoreSFTool.py:236-251 | the appending loop and the final cut compute `Formula.DumpSFTF2` |
| `Tool.ScoreSFTool.DumpSFTF2` | python/ScoreSFTool.py:236-251 | the method returns the formula of the current store |
| `Driver.KeptBinsSelect` | test/runTauIDScoreCorrections.py:23-25 | the kept bins are, in increasing order, exactly those i in 1..N with content nonzero and different from bin i-1 |
| `Driver.SelectEdges` | test/runTauIDScoreCorrections.py:22-26 | the scan collects the low edges of the kept bins and appends 1000 |
| `Driver.NewEdgesAt` | test/runTauIDScoreCorrections.py:22-26 | the new edges are the kept bins' low edges in order, then 1000 |
| `Driver.KeptEdgeIff` | test/runTauIDScoreCorrections.py:23-25 | on an increasing axis a low edge is kept exactly when its bin passes the test |
| `Driver.NewEdgesIncreasing` | test/runTauIDScoreCorrections.py:25-28 | an increasing axis ending at or below 1000 gives increasing new edges |
| `Driver.RefillContents` | test/runTauIDScoreCorrections.py:29-30 | each refilled bin holds the input content of the bin containing its low edge |
| `Driver.RefillLoop` | test/runTauIDScoreCorrections.py:29-30 | the refill loop over bins 0..N computes the refilled histogram |
| `Driver.RemoveSameBins` | test/runTauIDScoreCorrections.py:21-31 | the function's steps compute `RemovedSameBins` |
| `Driver.RemovedSameBinsShape` | test/runTauIDScoreCorrections.py:26-30 | the output has one bin per kept bin, over the kept edges, and an empty overflow; its stored squared errors are zero, which is what the errors are once the script zeroes them at lines 56-59 |
| `Driver.RemovedSameBinsBin` | test/runTauIDScoreCorrections.py:29-30 | output bin j holds the content of the j-th kept input bin, which is nonzero |
| `Driver.Tf1Name` | test/runTauIDScoreCorrections.py:48-49 | a TF1 is skipped exactly when its name lacks "_"+shift; otherwise it is stored under the name without it, shorter by at least the tag |
| `Driver.Tf1Stem` | test/runTauIDScoreCorrections.py:48-49 | a name ending in its only "_"+shift is stored as its stem, and the stem alone is skipped |
| `Driver.ReplaceAbsent` | test/runTauIDScoreCorrections.py:49 | `replace` leaves a string without the pattern unchanged |
| `Driver.AxisLabels` | test/runTauIDScoreCorrections.py:86-94 | positions are j+0.5 and labels wp_j+"&!"+wp_j+1 (the last bare), one per working point, so the length guard of `ChooseAxisLabels` passes |
| `Driver.LabelsDistinct` | test/runTauIDScoreCorrections.py:89-94 | distinct names without '&' give distinct labels |

## Left out

- Drawing and styling (`PlotEfficienciesAndSFs`, `PlotSFs`, `DrawHistogramsWithRatio`, `DrawTitle`, `ChooseAxisLabels` apart from its length guard, `PrintHistograms`): rendering with no stated behaviour.
- `FitSpline` and the `spline_od` field: a wrapper around ROOT's cubic spline.
- `GetHistograms` and `GetHistogram`: deep copies, which are plain reads when histograms are values.
- `ScaleWPHistogramsByHistogram`: scales every histogram of the type by the content of the given histogram at the midpoint parsed from its bin name `<lo>to<hi>`, or by the inverse of that content when `divide` is set. The float/string round trip and ROOT's `Scale` are not modelled.
- File and command-line handling of the script: argument parsing, reading the ROOT files and the JSON score table, `DoCreateHistogram`, setting the errors to zero, building and writing the `TF2`. The score table is a `map` parameter.
- The up/down shift loop of the script (test/runTauIDScoreCorrections.py:42-46), which indexes with an undefined variable.
- The script's top-level sequence of calls: each call it makes is modelled as a method of `Tool.ScoreSFTool`.
- Evaluating the formula: ROOT parses and evaluates the string. `Formula.DumpIsIntended` states the string's structure, not the value ROOT computes from it.
- Histograms: `Divide` and `Multiply` follow ROOT on contents, with 0 for a zero denominator. Their error propagation is the first-order formula on squared errors. `Scale` is not modelled.
- `WpBinned.SliceHistogram`: stores the squared error e0² + e1² of a slice, which is what ROOT stores after `SetBinError(i, sqrt(e0² + e1²))`; only the rounding of the square root and its square is not modelled.
- Histograms always carry stored squared errors. ROOT's fallback for a histogram without them, where the error of a bin is the square root of the absolute content, is not modelled; this also applies to the error formulas of `Divide` and `Multiply` on such histograms.
- `Driver.RemovedSameBinsShape`: the new histogram is filled with `SetBinContent` only, so ROOT reports the square root of each content as its error until the script zeroes the errors (test/runTauIDScoreCorrections.py:56-59); the model's squared errors are zero from the start.
- Histograms with no bins: the model allows them (a single edge), but ROOT raises the bin count to 1. They arise when `RemoveSameBins` keeps no bin, or when a kinematic bin has no surviving working point (an empty working-point order).
- Bin edges are exact reals. The `array('f', …)` float32 rounding of edges is not modelled, nor are `FindBin` rounding cases.
- Kinematic-bin keys are (lo, hi) pairs. `str(float)` is a function parameter `num` of the formula printer, so which digits Python prints is not modelled.
- `Tool.ScoreSFTool.ConvertToWPBinnedHistograms`: uses the corrected merge loop (see Findings). The loop as written is modelled by `Rebinning.MergedAsWritten` and `Rebinning.MergeSlicesAsWritten`, which require that it ends.

## Findings

| source | as written | input that shows it | evidently intended | confidence | as-written member | corrected member |
|---|---|---|---|---|---|---|
| python/ScoreSFTool.py:140-145 | the `while` test requires every slice, the last included, to reach the threshold, but the scan only merges slices before the last, so a last slice below the threshold is never merged and the loop never ends | Loose, Medium, Tight with data efficiencies 0.9, 0.5, 0.05 and threshold 0.1: slices 0.4, 0.45, 0.05 (a single working point below the threshold hangs too) | the loop ends with every slice at or above the threshold, or one slice left; a last slice below it is absorbed by its left neighbour, because the `while` test asks this of every slice, the last included. The other reading tests only the slices before the last (`Rebinning.MergedExemptLast`); on the same input it leaves 0.4, 0.45, 0.05 unchanged (`Rebinning.LastSliceExempt`) | not executed | `Rebinning.LastSliceHangs` | `Rebinning.MergedFacts` |

# astrotriage star-roundness triage, modelled in Dafny

astrotriage scores a folder of Nikon RAW (`.nef`) astrophotographs by how round their stars are. For each frame the tool does four things. It crops the middle third of the image. OpenCV then traces the bright blobs and fits an ellipse to each one. The tool keeps the plausible ellipses, using their axis ratio `a / b` as a roundness value, and averages these values into one score per frame. After all frames are scored, it plots how many frames each candidate threshold `0, 0.05, …, 0.95` would reject. The user then types a threshold, and every frame whose score is strictly below it goes to the recycle bin.

This project models the decision logic of that workflow as pure functions over exact reals, sequences and strings, and proves properties about it:

- `crop.dfy` (module `Crop`): numpy's two-axis slice `arr[y1:y2, x1:x2]` with Python's clamping and negative-index rules, and the middle-third window.
- `roundness.dfy` (module `Roundness`): the contour filter (at least 5 points; axes not zero, not NaN and not above 50), the ratio `a / b` and the per-image mean.
- `stats.dfy` (module `Stats`): sum, minimum, maximum and the arithmetic mean. The mean is undefined on an empty sequence.
- `threshold.dfy` (module `Threshold`): the strict-below counts and the 20-point rejection curve.
- `culling.dfy` (module `Culling`): the `roundness_by_image` dictionary, the batch scoring loop, `paths_to_delete` and the whole `roundness_check`, taking the typed threshold as an input.
- `paths.dfy` (module `Paths`): `get_paths` (case-insensitive `.nef` filter plus folder prefix), `str.split` / `str.join` and the basename `path.split('/')[-1]`.
- `floats.dfy` (module `Floats`): the IEEE behaviour that the program's comparisons depend on. NaN compares false, `+inf` exceeds every cap, and a NaN or infinite factor never gives a zero product.
- `wrappers.dfy` (module `Wrappers`): `Option`. `None` stands for a computation that raised an exception.

The OpenCV stages are not modelled. Each contour enters the model as its point count and the two axis lengths `(a, b)` of its fitted ellipse (`Roundness.Contour`). The model does not assume which of the two axes comes first.

## Behaviour of the code that the model keeps

- A frame with no accepted ellipse does not get its own "undefined" score. `sum(roundness) / len(roundness)` raises `ZeroDivisionError`, nothing catches it, and the whole run ends before the curve is drawn and before anything is deleted. `Culling.ScoreBatch` and `Culling.RoundnessCheck` return `None` in that case.
- The code never swaps the axes so that `a >= b`, so a ratio may be below 1. `Roundness.ScoreAtLeastOneWhenMajorFirst` proves that scores are at least 1 only under the assumption that the first axis is the major one and both axes are positive.
- File enumeration keeps the order of the directory listing. The code does not sort it.

## Model

| member | source | states |
|---|---|---|
| Crop.Slice | main.py:16 | numpy's one-axis slice never fails. Its result is no longer than the input. With in-range bounds it is exactly `s[lo..hi]`. With crossed bounds it is empty. A stop past the end acts like the end. |
| Crop.CropImageArray | main.py:15-16 | with in-range row bounds the crop has `y2 - y1` rows, and row `i` is the column slice of source row `y1 + i`. It never has more rows than the image. |
| Crop.CropInRange | main.py:15-16 | with in-range bounds on an `h` by `w` image, the crop is a `(y2-y1)` by `(x2-x1)` grid whose entry `(i, j)` is image entry `(y1+i, x1+j)` |
| Crop.MiddleThird | main.py:96-98 | the window `[w/3, 2*(w/3)) x [h/3, 2*(h/3))` lies inside the image. Its width equals its start column and its height equals its start row, so each side is one third of the image side, rounded down. |
| Crop.CropMiddleThird | main.py:94-98 | the analysed region is an `h/3` by `w/3` grid whose entry `(i, j)` is image pixel `(h/3 + i, w/3 + j)` |
| Floats.ProductIsZeroIff | main.py:111 | for finite axes, the guard `a * b == 0` holds exactly when one axis is zero |
| Roundness.Degenerate | main.py:111 | a NaN or infinite axis always trips the guard, whatever the other axis is |
| Roundness.Accepted | main.py:105-112 | an accepted contour has at least 5 points and two finite axes of at most 50. `Roundness.AcceptedIff` gives the full characterisation. |
| Roundness.AcceptedIff | main.py:104-112 | a contour contributes a value exactly when it has at least 5 points and both axes are finite, non-zero and at most 50. This covers NaN, +inf and the cap. |
| Roundness.RoundnessValues | main.py:104-114 | the recursive filter-map never yields more values than there are contours. What it yields is stated by `Roundness.RoundnessValuesIndexed` and `Roundness.RoundnessValueOrigin`. |
| Roundness.CollectRoundness | main.py:104-114 | the loop with its two `continue`s collects one value per accepted contour, equal to the recursive filter-map of ratios |
| Roundness.RoundnessValuesIndexed | main.py:104-114 | there are as many values as accepted contours. Accepted contour `i`'s ratio `a / b` sits at the position equal to the number of accepted contours before `i`, so contour order is kept. |
| Roundness.RoundnessValueOrigin | main.py:114 | every collected value is the ratio `a / b` of some accepted contour |
| Roundness.RoundnessValuesNonEmptyIff | main.py:104-116 | at least one value is collected exactly when some contour is accepted |
| Roundness.ImageScore | main.py:116 | an image's score exists exactly when at least one contour is accepted |
| Roundness.ImageScoreWithinRatios | main.py:116 | the score exists exactly when some contour is accepted. It then lies between two accepted contours' ratios. |
| Roundness.ScoreAtLeastOneWhenMajorFirst | main.py:108-116 | if every accepted ellipse reports its larger axis first and has positive axes, the score is at least 1 |
| Roundness.CirclesScoreOne | main.py:114-116 | if every accepted ellipse is a circle, the score is exactly 1 |
| Stats.Sum | main.py:116 | no contract of its own. `Stats.SumAtLeast` and `Stats.SumAtMost` bound it. |
| Stats.SumAtLeast | main.py:116 | if every element is at least `lo`, the sum is at least `len * lo` |
| Stats.SumAtMost | main.py:116 | if every element is at most `hi`, the sum is at most `len * hi` |
| Stats.Mean | main.py:116 | `sum / len` is undefined on an empty sequence. Otherwise it lies between the sequence's minimum and maximum. |
| Stats.MeanBetween | main.py:116 | the average of a non-empty sequence lies between its minimum and maximum |
| Stats.MeanOfConstant | main.py:116 | the mean of equal values is that value |
| Threshold.CountBelow | main.py:123 | the number of scores strictly below a threshold never exceeds the number of scores |
| Threshold.CountBelowIsIndexCount | main.py:123 | the count equals the number of positions whose score is strictly below the threshold |
| Threshold.CountBelowMonotone | main.py:121-123 | raising a finite threshold never lowers the strict-below count |
| Threshold.CountBelowNonFinite | main.py:130-135 | no score is below a NaN or `-inf` threshold. Every score is below `+inf`. |
| Threshold.CountBelowZero | main.py:121-123 | when no score is negative, the first candidate threshold 0.0 rejects nothing |
| Threshold.RejectionCurve | main.py:121-123 | the curve has 20 entries. None exceeds the number of scores, and the entries never decrease as the threshold grows. |
| Culling.Put | main.py:117 | no contract of its own. Its effect is stated by `Culling.PutLookup`, `Culling.PutKeys`, `Culling.PutDistinct` and `Culling.PutLength`. |
| Culling.PutLength | main.py:117 | assignment adds at most one item and never removes one |
| Culling.PutLookup | main.py:117 | after `table[path] = score`, `path` maps to `score` and every other key keeps its value |
| Culling.PutKeys | main.py:117 | assigning to a present key keeps the key order. Assigning to an absent key appends it. |
| Culling.PutDistinct | main.py:117 | assignment keeps the dictionary's keys distinct |
| Culling.FillTable | main.py:91-117 | the loop yields a dictionary exactly when every frame has a score. The dictionary has distinct keys and no more items than frames. |
| Culling.FillTableKeys | main.py:91-117 | the dictionary's keys are exactly the frames' paths |
| Culling.FillTableDistinct | main.py:91-117 | with distinct paths, item `i` of the dictionary is frame `i`'s path with frame `i`'s score |
| Culling.ScoreBatch | main.py:88-117 | scoring the batch succeeds exactly when every frame has at least one accepted ellipse. The result has distinct keys and at most one item per frame. |
| Culling.ScoreBatchKeys | main.py:91-117 | the scored paths are exactly the batch's paths |
| Culling.ScoreBatchDistinct | main.py:91-117 | with distinct paths, the dictionary lists every frame once, in batch order, with its mean roundness |
| Culling.Below | main.py:135 | the selected items are as many as the strict-below count at that threshold |
| Culling.BelowMembers | main.py:135 | an item is selected exactly when it is in the dictionary and its score is strictly below the threshold |
| Culling.BelowInOrder | main.py:135 | the selection is the dictionary items at exactly the positions whose score is below the threshold, taken in increasing position order |
| Culling.PathsToDelete | main.py:135 | the removal list has as many paths as the strict-below count at the threshold. A path is on it exactly when some dictionary item has that path and a score strictly below the threshold. |
| Culling.PathsToDeleteInOrder | main.py:135 | the `k`-th removed path is the key at the `k`-th position whose score is below the threshold, so the list follows dictionary insertion order |
| Culling.BelowNested | main.py:135 | for `t1 <= t2`, selecting at `t1` among the items below `t2` gives exactly the items below `t1` |
| Culling.PathsToDeleteMonotone | main.py:132-135 | raising the threshold never drops a path, and the lower threshold's list keeps the higher one's order |
| Culling.NonFiniteThresholds | main.py:130-135 | a threshold typed as `nan` or `-inf` removes nothing. `inf` removes every scored path, in dictionary order. |
| Culling.RemovedIffScoreBelow | main.py:132-135 | a path is removed exactly when the dictionary holds a score for it and that score is below the threshold |
| Culling.RoundnessCheck | main.py:88-139 | the run reaches deletion exactly when every frame can be scored. It removes at most one path per frame and only paths of the batch. |
| Culling.CurveCountsRemovals | main.py:121-135 | at a candidate threshold, the plotted count equals the number of paths that threshold deletes |
| Culling.RoundnessCheckRemoves | main.py:88-139 | for a batch with distinct paths, a frame is deleted exactly when its mean roundness is strictly below the threshold |
| Paths.Lower | main.py:68 | lower-casing keeps the length and maps each character on its own |
| Paths.IsNef | main.py:68 | no contract of its own. `Paths.IsNefIff` characterises it. |
| Paths.IsNefIff | main.py:68 | the `.nef` filter holds exactly when the name ends in `.`, `n`, `e`, `f`, each letter in either case |
| Paths.JoinPath | main.py:68 | the path starts with the folder followed by one `/`, and is exactly one character longer than folder and name together. `Paths.JoinPathInjective` recovers the name. |
| Paths.GetPaths | main.py:67-68 | never more paths than names |
| Paths.GetPathsMembership | main.py:67-68 | a path is returned exactly when it is `folder + "/" + name` for a listed name that passes the `.nef` filter |
| Paths.GetPathsAppend | main.py:67-68 | listing order is kept: the paths of concatenated listings are the concatenated paths |
| Paths.GetPathsDistinct | main.py:67-68 | a listing without repeated names gives paths without repeats |
| Paths.JoinPathInjective | main.py:68 | different names in the same folder give different paths |
| Paths.Split | main.py:53 | `split` gives at least one piece, no piece contains the separator, and joining the pieces gives back the string |
| Paths.SplitJoin | main.py:53 | splitting a join of separator-free pieces gives back the pieces |
| Paths.Basename | main.py:93 | `path.split('/')[-1]` contains no `/` and is a suffix of the path. It is either the whole path or directly preceded by a `/`. |
| Paths.BasenameOfPlainName | main.py:93 | a path without `/` is its own file name |
| Paths.BasenameOfJoinPath | main.py:93 | the name printed for a path built by `get_paths` is the listed file name |

## Left out

- RAW decoding (`get_image`, main.py:25-33) and `listdir`. These are file I/O through foreign libraries. The image is a given sequence of rows, and the directory listing is a given sequence of names.
- The OpenCV stages `cvtColor`, `threshold`, `findContours` and `fitEllipse` (main.py:100-108). Their numerics are not visible here. Each contour enters as its point count and its axis pair.
- Negative infinity as an axis length (`Roundness.Axis` excludes it). `fitEllipse` computes its sizes with square roots, so it cannot return `-inf`. `+inf` and NaN are modelled.
- Floating-point rounding. Scores, axes and thresholds are exact reals. The candidate thresholds are exact multiples of 0.05, whereas `np.arange` computes them in doubles (`i * 0.05`). The mean is computed without rounding. A product `a * b` that underflows to zero is not modelled.
- `int(h / 3)` is modelled as floor division. This matches the float computation for every dimension below 2^53.
- `str.lower` is modelled for ASCII letters only. No other character lower-cases to `.`, `n`, `e` or `f`, so the `.nef` filter is unaffected.
- Plotting, `input()` parsing of the threshold and all `print` output (main.py:93, 118-133). The parsed threshold is an input `Floats.Float`, so it can be finite, NaN or infinite.
- Recoverable deletion through `SHFileOperation` (main.py:19-22, 137-139), `startfile`, `show_image` and the `consolemenu` loop in `main` (main.py:142-160). These are OS and interactive plumbing. `Culling.RoundnessCheck` stops at the list of paths to delete.
- EXIF extraction and the Excel export (`get_image_metadata`, `read_metadata`, main.py:36-58 and 76-85). These are library wrappers. Their only pure part, the basename at main.py:53, is modelled as `Paths.Basename`.
- `get_first_last_composite_image` (main.py:61-64). Nothing calls it, and its result depends on the pixel dtype and numpy rounding.
- Crop.CropMiddleThird: requires the image to be rectangular. A numpy array always is, so this requirement excludes no real input.
- Crop.CropImageArray: pixels are an opaque type. The third, channel axis of the RGB array is carried inside each pixel and is never sliced.

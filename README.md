# Measurement arithmetic of 3D-vol-est-yolov8, in Dafny

This project models the part of the insect volume-estimation pipeline that turns
segmentation masks and a skeleton centerline into numbers, and proves properties
of that model. It has three parts.

- **Length estimation** (`LengthEstimation`, file `length_estimation.dfy`). The
  class `LengthEstimator` holds the centerline points, the body-part masks and the
  mm/pixel factor `k`.
  - A body part's length sums the norm of each consecutive pair of points whose
    two endpoints both lie on a 1-cell of that part's mask. A point is looked up
    at row `int(y)`, column `int(x)`.
  - The total length sums every consecutive pair, whatever the masks are.
  - Both are scaled by `k`. When no factor is given, `k` is 1.
  - Part lengths are reported under the key `length_<part>`.
- **Centre of gravity** (`CenterOfGravity`, file `cog.dfy`).
  - `Compute2dCog` first checks that the mask is two-dimensional, then that it is
    binary. It returns (mean column, mean row) of the 1-cells.
  - `ComputeCogs` walks masks and class ids pairwise and stores each centre under
    the decimal string of its class id. A later mask with the same class id
    overwrites an earlier one.
- **Ordering** (`InferenceResults`, file `inference_results.dfy`). `OrderCogDict`
  lists the centres stored under the keys `"0"`, `"1"`, …, `"max_i - 1"`, in that
  order, skipping absent keys. Any other key never reaches the list, for example the
  junction keys `"0_1"` and `"1_2"`.

Shared modules:
- `Results` (`results.dfy`): the `Option`/`Result` values.
- `Geometry` (`geometry.dfy`): points, difference vectors and the properties of a
  norm.
- `Decimal` (`decimal.dfy`): Python's `str()` on integers, with a parser that
  proves the conversion injective.

Mask values and coordinates are exact: points are pairs of `real`, and masks are
rows of `int` cells. The vector norm (`np.linalg.norm`) is a parameter
`norm: Point -> real`. Each lemma assumes only the properties of the Euclidean norm
that it needs:
- non-negative;
- zero only on the zero vector;
- equal to `|dy|` on vertical vectors and `|dx|` on horizontal ones.

Two behaviours of the code are modelled as written:
- `compute_cogs` lets a later mask with a repeated class id silently overwrite the
  earlier centre.
- The mask cell under a point is found with `int()`, which truncates rather than
  rounds: it goes toward zero, so -0.5 becomes the valid index 0.

## Model

| member | source | states |
|---|---|---|
| LengthEstimation.LengthEstimator.constructor | vol_est_yolov8/length_estimation/length_estimation.py:5-16 | stores the points and masks; the factor is the given one, or 1 when none is given |
| LengthEstimation.LengthEstimator.CalculatePartLength | vol_est_yolov8/length_estimation/length_estimation.py:18-34 | the accumulator loop returns the sum of the norms of exactly the consecutive pairs whose two lookups mask[int(y)][int(x)] are both 1 (`PartRaw`); the second endpoint is looked up only when the first is 1, as with Python's `and` |
| LengthEstimation.LengthEstimator.CalculateLengths | vol_est_yolov8/length_estimation/length_estimation.py:36-46 | the result has exactly the keys `length_<part>`, one per mask and no other; each holds that part's raw length times k; the estimator is not modified |
| LengthEstimation.LengthKeyInjective | vol_est_yolov8/length_estimation/length_estimation.py:45 | two parts get the same `length_` key only if they are the same part, so no entry overwrites another |
| LengthEstimation.TotalNonNegative | vol_est_yolov8/length_estimation/length_estimation.py:55 | the raw total length is never negative |
| LengthEstimation.PartWithinTotal | vol_est_yolov8/length_estimation/length_estimation.py:28-34 | a part's raw length lies between 0 and the raw total length of line 55, because its terms are a subset of the total's |
| LengthEstimation.PartEqualsTotalWhenCovered | vol_est_yolov8/length_estimation/length_estimation.py:31-34 | when every point lies on a 1-cell, the part length equals the total length |
| LengthEstimation.PartZeroWithoutCoveredPair | vol_est_yolov8/length_estimation/length_estimation.py:29-34 | when no consecutive pair has both endpoints on the part, the part length is 0 |
| LengthEstimation.PartZeroWhenUncovered | vol_est_yolov8/length_estimation/length_estimation.py:31-34 | when no point except possibly the last lies on a 1-cell, the part length is 0 |
| LengthEstimation.PartSplitAtPair | vol_est_yolov8/length_estimation/length_estimation.py:29-33 | for every consecutive pair, the part length is the length of the pairs before it, plus the pair's norm if both its endpoints are on the part and 0 otherwise, plus the length of the pairs after it |
| LengthEstimation.PairContributes | vol_est_yolov8/length_estimation/length_estimation.py:31-33 | the norm of a pair with both endpoints on the part is at most the part length |
| LengthEstimation.PartZeroIffNoCoveredPair | vol_est_yolov8/length_estimation/length_estimation.py:29-34 | for a line with distinct consecutive points, the part length is 0 if and only if no pair has both endpoints on the part |
| LengthEstimation.PartMonotoneInMask | vol_est_yolov8/length_estimation/length_estimation.py:31-33 | a mask that covers a superset of the line's points yields a part length at least as large |
| LengthEstimation.DisjointPartsWithinTotal | vol_est_yolov8/length_estimation/length_estimation.py:28-34 | two parts sharing no point of the line together measure at most the total length |
| LengthEstimation.FewerThanTwoPoints | vol_est_yolov8/length_estimation/length_estimation.py:29 | with fewer than two points, the part length and the total length are both 0 |
| LengthEstimation.LookupExamples | vol_est_yolov8/length_estimation/length_estimation.py:29-33 | int() truncates -0.5 to the valid index 0; a last point far outside a 1x1 mask whose predecessor is off the part is never looked up, and the part length is 0 |
| LengthEstimation.VerticalLineLength | vol_est_yolov8/length_estimation/length_estimation.py:55 | a vertical line walked downwards has total length equal to its vertical extent |
| LengthEstimation.LengthEstimator.CalculateTotalLength | vol_est_yolov8/length_estimation/length_estimation.py:48-56 | the total is 0 for fewer than two points, and never negative for a non-negative norm and k >= 0 |
| LengthEstimation.TotalBoundsEachPart | vol_est_yolov8/length_estimation/length_estimation.py:45-56 | for k >= 0, each reported part length, before rounding, lies between 0 and the reported total length |
| LengthEstimation.TotalIgnoresMasks | vol_est_yolov8/length_estimation/length_estimation.py:48-56 | two estimators with the same points and factor report the same total, whatever their masks |
| LengthEstimation.TotalLengthScenario | vol_est_yolov8/length_estimation/length_estimation.py:14-16 | the centerline (0,0), (0,10), (0,20) with k = 0.5 has total length 10 |
| CenterOfGravity.Compute2dCog | vol_est_yolov8/analyze_segments/calc_2d_cog_binary_mask.py:4-25 | a non-2D mask fails with the first assertion, a 2D non-binary mask with the second, and every 2D binary mask passes; a valid mask gives NaN exactly when the count of 1-cells is 0 |
| CenterOfGravity.CogNanIffEmpty | vol_est_yolov8/analyze_segments/calc_2d_cog_binary_mask.py:19-23 | a valid mask yields NaN if and only if it has no 1-cell, and a centre whenever some cell is 1 |
| CenterOfGravity.CountZeroIff | vol_est_yolov8/analyze_segments/calc_2d_cog_binary_mask.py:19 | the number of cells found by `np.where` is 0 if and only if no cell equals 1 |
| CenterOfGravity.CogWithinBoundingBox | vol_est_yolov8/analyze_segments/calc_2d_cog_binary_mask.py:19-25 | x lies between the least and greatest column of any box holding the 1-cells, and y between the least and greatest row |
| CenterOfGravity.CogOfRectangle | vol_est_yolov8/analyze_segments/calc_2d_cog_binary_mask.py:19-25 | a filled rectangle of rows r0..r1-1 and columns c0..c1-1 has its centre at x = (c0+c1-1)/2 and y = (r0+r1-1)/2, with the column as x |
| CenterOfGravity.ExampleMask | vol_est_yolov8/analyze_segments/calc_2d_cog_binary_mask.py:52-59 | the 10x10 mask with rows and columns 3..6 set has its centre at (4.5, 4.5) |
| CenterOfGravity.ComputeCogs | vol_est_yolov8/analyze_segments/calc_2d_cog_binary_mask.py:40-49 | the zip loop computes the pairwise build `CogsOfPairs` over the shorter of the two lists |
| CenterOfGravity.CogsErrorPersists | vol_est_yolov8/analyze_segments/calc_2d_cog_binary_mask.py:46-47 | after a mask has failed, the later pairs do not change the outcome |
| CenterOfGravity.CogsErrorIsFirstFailure | vol_est_yolov8/analyze_segments/calc_2d_cog_binary_mask.py:46-47 | the build fails if and only if some zipped mask fails validation, and then with the error of the first such mask |
| CenterOfGravity.CogsKeys | vol_est_yolov8/analyze_segments/calc_2d_cog_binary_mask.py:46-47 | on success the keys are exactly the strings of the zipped class ids |
| CenterOfGravity.CogsHasClass | vol_est_yolov8/analyze_segments/calc_2d_cog_binary_mask.py:47 | the key str(cls) is present if and only if cls occurs among the zipped class ids |
| CenterOfGravity.CogsLastWriterWins | vol_est_yolov8/analyze_segments/calc_2d_cog_binary_mask.py:46-47 | the entry of a class id holds the centre of the last mask with that id |
| CenterOfGravity.CogsIgnoreExtra | vol_est_yolov8/analyze_segments/calc_2d_cog_binary_mask.py:46 | entries past the length of the shorter list do not affect the result |
| Decimal.NatToString | vol_est_yolov8/analyze_segments/calc_2d_cog_binary_mask.py:47 | str() of a natural number is a non-empty string of digits |
| Decimal.IntToStringReadsBack | vol_est_yolov8/analyze_segments/calc_2d_cog_binary_mask.py:47 | str() of an integer (`IntToString`) starts with '-' exactly when the integer is negative; the rest is non-empty digits that read back as its magnitude |
| Decimal.ParseNatToString | vol_est_yolov8/analyze_segments/calc_2d_cog_binary_mask.py:47 | parsing str(n) gives back n |
| Decimal.IntToStringInjective | vol_est_yolov8/analyze_segments/calc_2d_cog_binary_mask.py:47 | two class ids have the same key if and only if they are equal |
| Decimal.NotADecimalKey | vol_est_yolov8/plotting/inference_results.py:174 | a string with a non-digit character, such as a junction key, is never str(i) |
| InferenceResults.OrderCogDict | vol_est_yolov8/plotting/inference_results.py:209-217 | the loop over range(max_i) returns `OrderedCogs`, the present values in index order |
| InferenceResults.PresentIndicesExact | vol_est_yolov8/plotting/inference_results.py:212-215 | the indices listed are exactly those i in [0, max_i) whose key str(i) is present, strictly ascending |
| InferenceResults.OrderedCogsAtPresentIndices | vol_est_yolov8/plotting/inference_results.py:212-215 | the j-th element of the list is cogs[str(i)] for the j-th present index i |
| InferenceResults.OrderedCogsAreValues | vol_est_yolov8/plotting/inference_results.py:213-215 | every element of the list is a value of the dictionary |
| InferenceResults.OrderedCogsLength | vol_est_yolov8/plotting/inference_results.py:211-217 | the list is no longer than max_i (empty when max_i <= 0) and no longer than the number of keys |
| InferenceResults.NonIndexKeyIgnored | vol_est_yolov8/plotting/inference_results.py:212-215 | adding or removing a key that contains a non-digit does not change the list |
| InferenceResults.JunctionKeysIgnored | vol_est_yolov8/plotting/inference_results.py:174 | the junction keys "0_1" and "1_2" never change the list |

## Left out

- `round(value, round_to)` in `calculate_lengths` and `calculate_total_length` is left out, because it is floating-point rounding. Reported values are the exact raw length times k.
- `np.linalg.norm` is a parameter, because Dafny has no square root. The lemmas name the properties of the norm they assume.
- CalculatePartLength, CalculateLengths: every lookup that the loop makes must read a cell of the mask. These are the first endpoint of each pair, and the second endpoint only when the first is on the part. A lookup past the edge of the mask (IndexError) is not modelled. Neither is numpy's wrap-around for a negative index, from a coordinate of -1 or less. Lines of fewer than two points, unvisited second endpoints and coordinates in (-1, 0) are modelled.
- CalculateLengths: the order in which `calculate_lengths` visits the masks is not modelled. The loop visits the parts in an arbitrary order; the values do not depend on it, but the key order of the returned dictionary (the masks' order) is not modelled.
- ComputeCogs: the insertion order of the returned dictionary is not modelled. In Python an overwritten key keeps the position of its first insertion, and callers that read `cogs.values()` see that order; a `map` has no order.
- Compute2dCog: a mask is a sequence of integer rows. An array with other than two dimensions is represented as a sequence of rows of unequal width. numpy's dtype handling is not modelled.
- The NaN pair that `np.mean` returns for an empty foreground, together with its runtime warning, is the value `NanCog`. NaN arithmetic and printing are not modelled.
- The conversion of the class-id tensor (`all_cls.numpy()`, `int(cls)` on a float) is left out, because it is a foreign call. Class ids are integers.
- The unused `label` argument and the unused `combined_masks` dictionary of `compute_cogs` are left out.
- A failed assertion in `compute_2d_cog` is an `Err` value rather than a raised exception. The partially built dictionary is discarded, as it is when the exception propagates.
- The drawing code in `vol_est_yolov8/plotting/inference_results.py` and `vol_est_yolov8/extract_skeleton/plot_skeleton.py` is left out, because it is cv2/matplotlib rendering.
- The orchestration in `vol_est_yolov8/length_estimation/utils_vol_estimation.py`, `run_vol_estimation.py` and the example scripts is left out, because it is glue over modules that are not part of this model, plus file I/O.

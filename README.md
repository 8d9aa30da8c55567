# 2D LIDAR reactive planner and range smoother, modelled in Dafny

This project models the decision core of the 2D_LIDAR obstacle-avoidance
code. That core has two parts.

The reactive planner is `SimpleReactivePlanner` in `planning_path.py`. It
does the following on every scan:
- bins a lidar scan of `(angle, distance_mm)` samples into an occupancy mask over 360 degrees;
- keeps the bins inside a field of view (FOV) that may wrap through 0 degrees;
- finds the longest run of free bins in that FOV list;
- classifies the run's middle bin as STOP, FORWARD, TURN_LEFT or TURN_RIGHT;
- smooths the action through a bounded history. This is a `deque` with `maxlen`, plus `Counter.most_common(1)`;
- maps the stable action to a `(v, omega)` command.

The range smoother is in `pre_processing.py`. It has three pieces:
- `median_filter_1d`, an edge-padded running median;
- `LidarSmoother`, which marks invalid or non-finite readings missing, fills them by `np.interp`, median-filters the profile and folds it into an exponential moving average;
- `EMAArray`, a NaN-initialised moving average.

The Dafny modules follow that structure:
- `Angles` has `_norm360`, the sector test, bin arithmetic and the signed heading.
- `Hysteresis` has the action type, the bounded deque and the majority vote.
- `PlanningPath` has occupancy, the FOV list, the gap search, classification and the `Planner` class.
- `Median` has `np.median` of an odd window, defined as the middle element of the sorted window.
- `PreProcessing` has the median filter, the validity filter, the interpolation fill, the moving averages and the two smoother classes.
- `Wrappers` has `Option`.

The planner and the smoothers are classes. Their fields are updated in
place, as the Python objects update theirs. Each binning,
FOV-listing and run-scanning loop is a method with loop invariants. Each
method is proved equal to a specification function. Lemmas then prove that
function's properties. Distances and angles are mathematical reals. NaN and
the infinities are an explicit `NonFinite` reading in `LidarSmoother`. In
`EMAArray`, `None` stands for NaN only; infinities are not modelled there.

Behaviour of the code worth noting:
- **Open scan with the default FOV.** The comment at `2D_LIDAR/planning_path.py:125-126` says the middle of a gap is meant as a circular average, but line 127 takes the plain integer midpoint of the gap's two end bins. The default FOV of -90..90 degrees becomes the sector 270..90, which wraps through 0. Its bin list is therefore 0..90 followed by 270..359. For an open scan the gap runs from bin 0 to bin 359, and `(0 + 359) // 2 = 179` points straight behind the robot. An open scan therefore gives TURN_RIGHT with target 179.5 degrees, not FORWARD. `PlanningPath.OpenScanDefaultConfig` proves this. For sectors that do not wrap, `PlanningPath.MidBinInsideGap` proves that the middle bin is a free bin inside the gap.
- **Safety distance.** A sample blocks its bin when its distance is positive and at most `safe_dist`, so a sample exactly at the safety distance blocks.
- **Signed heading.** The signed heading lies in [-180, 180), so a target straight behind the robot gives -180 and turns left unless the threshold covers it.

## Model

| member | source | states |
|---|---|---|
| Angles.Norm360 | 2D_LIDAR/planning_path.py:10-11 | the result lies in [0, 360) and differs from the input by a whole number of turns |
| Angles.Norm360Unique | 2D_LIDAR/planning_path.py:10-11 | the value in [0, 360) that is a whole number of turns away from the input is the only possible result |
| Angles.Norm360Turns | 2D_LIDAR/planning_path.py:10-11 | angles a whole number of turns apart normalise to the same value |
| Angles.Norm360Diff | 2D_LIDAR/planning_path.py:10-11 | normalising the two operands first does not change the normalised difference |
| Angles.InSector | 2D_LIDAR/planning_path.py:13-22 | the two-case sector test (direct or wrapping) holds iff the angle's clockwise offset from the start is at most the sector's clockwise extent |
| Angles.DegenerateSector | 2D_LIDAR/planning_path.py:13-22 | a sector whose start equals its end contains exactly that one direction |
| Angles.NumBins | 2D_LIDAR/planning_path.py:47 | `360 // res` is the largest number of whole bins that fit in a turn |
| Angles.BinOf | 2D_LIDAR/planning_path.py:56-57 | the bin index is in range; the normalised angle lies inside that bin's span, or falls in the leftover sliver past the last whole bin, which wraps to bin 0 |
| Angles.BinOfWithin | 2D_LIDAR/planning_path.py:56-57 | any angle inside a whole bin's span is assigned to that bin |
| Angles.BinToAngle | 2D_LIDAR/planning_path.py:105-107 | a bin's centre angle lies in [0, 360) |
| Angles.BinToAngleRoundTrip | 2D_LIDAR/planning_path.py:105-107 | binning a bin's centre angle gives back that bin |
| Angles.MinGapBins | 2D_LIDAR/planning_path.py:37 | the minimum gap is at least one bin; `min_gap_deg` is less than one bin more than it, and unless it is the floor of 1, it is at most `min_gap_deg` in bins: the number of whole bins in `min_gap_deg`, floored at 1 |
| Angles.SignedAngle | 2D_LIDAR/planning_path.py:130 | the signed heading lies in [-180, 180) and is a whole number of turns away from the target angle |
| Angles.SignedAngleFixed | 2D_LIDAR/planning_path.py:130 | a heading already in [-180, 180) is unchanged |
| Hysteresis.Push | 2D_LIDAR/planning_path.py:39 | appending to the bounded deque grows it by one until it is full and then keeps it at capacity; the new action is the newest entry |
| Hysteresis.PushAll | 2D_LIDAR/planning_path.py:143 | the deque's length after several appends is their total, capped at the capacity |
| Hysteresis.PushAllKeepsNewest | 2D_LIDAR/planning_path.py:39 | after any series of appends the deque holds exactly the `maxlen` most recent actions, in order |
| Hysteresis.MostCommonFrom | 2D_LIDAR/planning_path.py:146-149 | the scan over the counted items ends with an item that no item outnumbers, and with the earliest first occurrence among the most frequent |
| Hysteresis.MostCommon | 2D_LIDAR/planning_path.py:146-149 | `most_common(1)` returns an action of the history that no action outnumbers; ties go to the action that occurs first |
| Hysteresis.MajorityWins | 2D_LIDAR/planning_path.py:144-149 | an action that fills more than half of the history is the one chosen |
| Hysteresis.NoiseSuppressed | 2D_LIDAR/planning_path.py:142-149 | when the capacity is at least two (at two, by the tie going to the older entry), one deviating action pushed into a history of one repeated action does not change the choice |
| Hysteresis.PersistentActionTakesOver | 2D_LIDAR/planning_path.py:142-149 | an action pushed more than half the capacity times in a row becomes the choice, whatever the history held |
| Median.Insert | 2D_LIDAR/pre_processing.py:8 | insertion into a sorted window keeps it sorted, adds exactly that value to its multiset, and puts the smaller of the value and the old head first |
| Median.Sort | 2D_LIDAR/pre_processing.py:8 | the sorted window is sorted and a permutation of the window |
| Median.MedianOf | 2D_LIDAR/pre_processing.py:8 | the median of an odd window is one of its entries |
| Median.SortCounts | 2D_LIDAR/pre_processing.py:8 | sorting changes neither how many entries lie below a value nor how many lie above it |
| Median.MedianIsMiddle | 2D_LIDAR/pre_processing.py:8 | at most half of the window, rounded down, lies strictly below the median, and at most half lies strictly above it |
| PlanningPath.Mark | 2D_LIDAR/planning_path.py:50-58 | one sample never changes the length of the mask |
| PlanningPath.Occupancy | 2D_LIDAR/planning_path.py:47-60 | the mask has one entry per bin |
| PlanningPath.OccupancyBlockedIff | 2D_LIDAR/planning_path.py:42-60 | a bin is blocked iff some sample with a return (distance > 0) and within the safety distance falls into it |
| PlanningPath.OccupancyMonotone | 2D_LIDAR/planning_path.py:50-58 | more samples never clear a blocked bin |
| PlanningPath.NoReturnIgnored | 2D_LIDAR/planning_path.py:51-52 | a sample with a non-positive distance leaves the mask unchanged |
| PlanningPath.OpenScanClear | 2D_LIDAR/planning_path.py:50-58 | a scan with no return inside the safety distance leaves every bin free |
| PlanningPath.FovBinsBelowSpec | 2D_LIDAR/planning_path.py:66-71 | after the first `k` bins, the list is strictly increasing and holds exactly those of them whose start angle is in the sector |
| PlanningPath.FovBins | 2D_LIDAR/planning_path.py:62-72 | the FOV list is strictly increasing and holds valid bin indices only |
| PlanningPath.FovBinsSpec | 2D_LIDAR/planning_path.py:62-72 | the FOV list holds a bin iff it is a valid bin whose start angle is in the sector |
| PlanningPath.FovBinsConsecutive | 2D_LIDAR/planning_path.py:62-72 | for a sector that does not wrap, the FOV list is a contiguous block of bins |
| PlanningPath.DefaultFovBins | 2D_LIDAR/planning_path.py:27-35 | the default FOV list starts at bin 0, ends at bin 359, holds at least ten bins and leaves out bin 179 |
| PlanningPath.GapIffFree | 2D_LIDAR/planning_path.py:97-99 | a gap is reported exactly when some FOV bin is free |
| PlanningPath.LargestGapUnique | 2D_LIDAR/planning_path.py:74-103 | exactly one result meets the gap specification: None when every FOV bin is blocked, otherwise the leftmost longest free run, mapped back to bin indices |
| PlanningPath.NoWrapAround | 2D_LIDAR/planning_path.py:78-96 | the run search does not join a run at the end of the FOV list to one at its start |
| PlanningPath.ClearMaskOneGap | 2D_LIDAR/planning_path.py:83-96 | with no bin blocked, the gap is the whole FOV list |
| PlanningPath.MidBinInsideGap | 2D_LIDAR/planning_path.py:127 | for a sector that does not wrap, the gap spans `width` consecutive bins, and its middle bin is a free FOV bin between the gap's ends |
| PlanningPath.MidBin | 2D_LIDAR/planning_path.py:127 | the aimed-at bin lies between the gap's two end bins, and the half towards the end is the same length as the half towards the start or one bin longer |
| PlanningPath.TargetAngle | 2D_LIDAR/planning_path.py:171 | the reported target angle is absent exactly when there is no gap, and otherwise lies in [0, 360) |
| PlanningPath.RawAction | 2D_LIDAR/planning_path.py:114-140 | the raw action is STOP exactly when there is no gap or it is narrower than the minimum |
| PlanningPath.RawActionCases | 2D_LIDAR/planning_path.py:114-140 | STOP iff there is no gap or it is narrower than the minimum; otherwise FORWARD iff the heading is within the threshold, TURN_RIGHT iff it is beyond the threshold and positive, TURN_LEFT iff it is beyond the threshold and not positive |
| PlanningPath.WrappedGapTurnsRight | 2D_LIDAR/planning_path.py:127-140 | a gap of ten or more bins spanning bins 0..359 at 1-degree bins is aimed at 179.5 degrees and turns right |
| PlanningPath.OpenScanDefaultConfig | 2D_LIDAR/planning_path.py:109-140 | with the default configuration and no return inside the safety distance, the gap is bins 0..359, whose middle bin 179 is outside the FOV, so the raw action is TURN_RIGHT |
| PlanningPath.Velocity | 2D_LIDAR/planning_path.py:155-167 | forward speed is positive only for FORWARD, turn rate positive only for TURN_LEFT and negative only for TURN_RIGHT, both zero only for STOP, never both non-zero |
| PlanningPath.AllBlockedStops | 2D_LIDAR/planning_path.py:97-99 | when every FOV bin is blocked there is no gap and the raw action is STOP |
| PlanningPath.Planner.constructor | 2D_LIDAR/planning_path.py:25-40 | stores the FOV normalised, the minimum gap in bins, the other settings as given (defaulting to 0.5 m, -90..90 degrees, 1-degree bins, 10 degrees, 8 degrees and 3 entries), an empty history and STOP as the last action |
| PlanningPath.Planner.BuildOccupancy | 2D_LIDAR/planning_path.py:42-60 | the binning loop produces exactly the occupancy mask of the scan |
| PlanningPath.Planner.ExtractFovBins | 2D_LIDAR/planning_path.py:62-72 | the loop produces the FOV list: strictly increasing, valid bins, holding a bin iff its start angle is in the sector |
| PlanningPath.Planner.FindLargestGap | 2D_LIDAR/planning_path.py:74-103 | the run scan returns the leftmost longest free run of the FOV list, mapped to bin indices; None iff every FOV bin is blocked or the list is empty |
| PlanningPath.Planner.ChooseAction | 2D_LIDAR/planning_path.py:109-175 | reports the occupancy mask, the largest gap's target angle and width, and appends the raw action to the bounded history; the stable action is the history's most common action once the history is full, and the previous stable action before that; it becomes the new last action and sets the velocity command; the first `maxlen - 1` calls return STOP |
| PreProcessing.OrOne | 2D_LIDAR/pre_processing.py:5 | `k` with its lowest bit set is odd, and is `k` or `k + 1` |
| PreProcessing.WindowSize | 2D_LIDAR/pre_processing.py:5 | `k` with its lowest bit set, floored at 1, is odd, at least 1 and at least `k`, and is 1 or at most `k + 1` |
| PreProcessing.Clamp | 2D_LIDAR/pre_processing.py:7 | an edge-padded index always lands inside the profile |
| PreProcessing.Window | 2D_LIDAR/pre_processing.py:6-8 | the window has `k` entries centred on `i`; neighbours inside the profile are copied, and those past either end repeat the first or last entry |
| PreProcessing.MedianFilter | 2D_LIDAR/pre_processing.py:4-8 | the filtered profile has the input's length |
| PreProcessing.MedianFilterBounded | 2D_LIDAR/pre_processing.py:4-8 | every output lies within any bounds that hold for every input entry |
| PreProcessing.MedianFilterConstant | 2D_LIDAR/pre_processing.py:4-8 | a constant profile is unchanged |
| PreProcessing.MedianFilterMiddle | 2D_LIDAR/pre_processing.py:4-8 | each output is a middle value of its padded window |
| PreProcessing.SpikeSuppressed | 2D_LIDAR/pre_processing.py:8 | in a window of three or more entries that all equal `c` but one, the median is `c` |
| PreProcessing.MarkMissing | 2D_LIDAR/pre_processing.py:20 | a reading survives iff it is finite and within [100, 12000] mm, and a surviving reading is unchanged |
| PreProcessing.Marked | 2D_LIDAR/pre_processing.py:20 | the filter applies entry by entry |
| PreProcessing.PrevFinite | 2D_LIDAR/pre_processing.py:24 | finds the nearest finite entry before an index, or proves there is none |
| PreProcessing.NextFinite | 2D_LIDAR/pre_processing.py:24 | finds the nearest finite entry after an index, or proves there is none |
| PreProcessing.Lerp | 2D_LIDAR/pre_processing.py:24 | the interpolated value lies on the straight line through the two neighbouring points, so its offset from the first value is proportional to the distance in index; it therefore lies between the two values and equals them when they are equal |
| PreProcessing.Filled | 2D_LIDAR/pre_processing.py:22-24 | the fill keeps every finite entry and the profile's length |
| PreProcessing.Interp | 2D_LIDAR/pre_processing.py:24 | a missing entry between two finite entries lies on the straight line through its nearest finite neighbours (linear in the index), and so between their values; before the first or after the last finite entry it equals that entry |
| PreProcessing.FilledLinear | 2D_LIDAR/pre_processing.py:24 | across a run of missing entries between two finite entries, every filled value lies on the line through those two entries |
| PreProcessing.FilledEqualSteps | 2D_LIDAR/pre_processing.py:24 | across a run of missing entries, consecutive filled values differ by the same step, the difference of the two finite values divided by their distance in index |
| PreProcessing.FilledBounded | 2D_LIDAR/pre_processing.py:22-24 | bounds that hold for every finite entry also hold for every filled entry |
| PreProcessing.SingleGapEqualNeighbours | 2D_LIDAR/pre_processing.py:24 | one missing entry between two equal readings takes their value |
| PreProcessing.MarkedFillable | 2D_LIDAR/pre_processing.py:20-26 | for an accepted profile, the marked profile can be filled, and it is non-empty unless the median window is 1 |
| PreProcessing.Conditioned | 2D_LIDAR/pre_processing.py:20-26 | conditioning keeps the profile's length |
| PreProcessing.ConditionedInRange | 2D_LIDAR/pre_processing.py:20-26 | every conditioned distance lies in [100, 12000] mm |
| PreProcessing.Blend | 2D_LIDAR/pre_processing.py:31 | the blend keeps the profile's length |
| PreProcessing.BlendDistance | 2D_LIDAR/pre_processing.py:31 | each blend shrinks the distance to the new profile by the factor `1 - alpha` |
| PreProcessing.BlendBetween | 2D_LIDAR/pre_processing.py:31 | with `alpha` in [0, 1], the blend lies between the old state and the new profile |
| PreProcessing.Repeated | 2D_LIDAR/pre_processing.py:28-31 | repeated blending keeps the profile's length |
| PreProcessing.RepeatedConverges | 2D_LIDAR/pre_processing.py:28-31 | after `t` calls with the same profile, the gap to it is `(1 - alpha)^t` times the initial gap |
| PreProcessing.RepeatedFixedPoint | 2D_LIDAR/pre_processing.py:31 | a state equal to the profile stays there |
| PreProcessing.NextState | 2D_LIDAR/pre_processing.py:26-31 | the new state has the scan's length |
| PreProcessing.NextStateInRange | 2D_LIDAR/pre_processing.py:17-32 | with `alpha` in [0, 1] and an in-range state, the new state stays within [100, 12000] mm |
| PreProcessing.MarkInvalid | 2D_LIDAR/pre_processing.py:20 | the in-place loop leaves the array equal to the filtered profile |
| PreProcessing.FillMissing | 2D_LIDAR/pre_processing.py:22-24 | the in-place loop fills every entry with the value interpolated from the array as it was before the fill |
| PreProcessing.FillGaps | 2D_LIDAR/pre_processing.py:22-24 | the array is replaced by its filled profile: filled in place when some entry is missing, left as it is otherwise |
| PreProcessing.LidarSmoother.constructor | 2D_LIDAR/pre_processing.py:11-15 | stores the settings (defaulting to 360 angles, `alpha` 0.1 and a window of 5) and starts with no state |
| PreProcessing.LidarSmoother.Call | 2D_LIDAR/pre_processing.py:17-32 | returns the next state: the conditioned profile on the first call and its blend with the old state after that; the returned profile becomes the state |
| PreProcessing.BlendMissing | 2D_LIDAR/pre_processing.py:44 | an entry of the blend is present iff both operands are present (NaN propagates) |
| PreProcessing.BlendMissingAgrees | 2D_LIDAR/pre_processing.py:31 | without missing entries, the `EMAArray` blend is the `LidarSmoother` blend |
| PreProcessing.EMAArray.constructor | 2D_LIDAR/pre_processing.py:36-38 | starts with `size` missing values (defaulting to `alpha` 0.3 and 360 entries) |
| PreProcessing.EMAArray.Update | 2D_LIDAR/pre_processing.py:40-45 | takes the input while every stored value is missing and blends it in otherwise; the result is stored and returned, and once a value is present the array is no longer all missing |

## Left out

- The serial driver, the plotting, the CLI and the other scripts are not part of this model. These are `rplidar.py`, `draw_figure.py` and `2d_matrix.py`.
- Floating point is not modelled. Distances, angles, `alpha` and the blends are exact reals, so rounding differences are not captured.
- Python's `%` on floats is modelled as a floor-based remainder, which gives the same [0, 360) result. `//` is modelled as `Floor`.
- PlanningPath.Planner.constructor: `resolution_deg` must be an integer in 1..360. Fractional resolutions, and resolutions above 360 (which make `n_bins` zero), are not modelled.
- PlanningPath.Planner.constructor: `hysteresis_len` must be at least 1. With 0, the first `choose_action` call fails on an empty `Counter`. With `None`, the history is never full.
- PlanningPath.Planner.ChooseAction: the `else action` branch of `self.last_action if self.last_action else action` is not modelled. The last action is always a non-empty action name, so that branch never runs.
- PlanningPath.Occupancy: samples are finite reals. In the Python a NaN or infinite distance never blocks, since its comparisons are false. A NaN or infinite angle on a blocking sample raises `ValueError` at `int(a // res)`. Neither case is modelled.
- PlanningPath.Planner.ChooseAction: the result is a `Decision` datatype, not a dictionary.
- PreProcessing.MedianFilter: an empty profile is accepted only with a one-entry window. Edge padding of an empty array raises an error, and that error path is a precondition rather than a result.
- PreProcessing.LidarSmoother.Call: requires at least one valid reading, or an empty profile with a median window of 1. A non-empty profile without a valid reading makes `np.interp` raise on an empty set of sample points. An empty profile with a larger window makes the edge padding in `median_filter_1d` raise. Both error paths are preconditions rather than results.
- PreProcessing.LidarSmoother.Call: works on a copy of the input. `np.asarray` does not copy a float array, so the Python writes the NaN marks and the interpolated values into the caller's own array. That side effect on the argument is not captured.
- PreProcessing.LidarSmoother.Call: requires a state of the scan's length. NumPy's broadcasting of a one-element profile against a longer state, and its shape error otherwise, are not modelled.
- PreProcessing.LidarSmoother.Call: the state is a value. The Python method returns the stored array object itself, so a caller that mutates the returned array also changes the state. That aliasing is not captured.
- PreProcessing.LidarSmoother.constructor: `n_angles` is stored but never used.
- PreProcessing.EMAArray.Update: a missing value stands for NaN only. Infinite inputs, and the NaN that `inf - inf` produces, are not distinguished from finite ones.
- PreProcessing.EMAArray.Update: requires equal lengths after the first update. Broadcasting is not modelled.

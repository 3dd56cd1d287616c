# Throttle region and time re-basing of an EV ride log

A Dafny model of the analysis core of `ev.py`, a small library that works on
the telemetry of an electric-vehicle motor controller (a VESC log). The log is
a data frame: a time index (integer milliseconds) and one row of numeric
columns per sample. The modelled core has three parts:

- `pull_throttle_region` cuts out the first throttle pull. It turns motor
  current into a 0/1 "current above zero" indicator and takes first
  differences. It then keeps the nonzero differences and finds the first +1
  transition and the first -1 transition after it. The rows between the two
  transition labels are returned, both ends included.
- `reset_time_index` shifts the time index so the first sample is at time 0.
- `vesc_trim_threshold` shifts the time index so time 0 is the first sample
  whose chosen column exceeds a value.

Modules:

- `Results` holds `Option` and `Result`.
- `Telemetry` holds the columns, rows and labelled samples. It also has the
  two pandas label operations used: `frame.loc[a:b]` (`LocSlice`) and index
  arithmetic (`Shift`).
- `Series` holds `np.where(mask)[0]` (`Where`) and boolean-mask selection
  (`Select`), with lemmas about the first position they report.
- `Throttle` models the extractor step by step as `ev.py` computes it
  (`PullThrottleRegion`). It proves that result equal to a direct search
  over sample positions (`ThrottleBounds`, `FirstPull`). It then states the
  result in terms of the samples alone: rising edges, the run that follows,
  the two failure cases, and independence from later cycles.
- `Reindex` holds the two re-basing functions. They are characterised by
  what they keep: spacing, rows and length. They are also characterised by
  the row they put at time 0. Lemmas give idempotence, independence from the
  clock's origin, and how the functions relate to each other and to the
  extractor.

The two unguarded `[0]` lookups of the extractor are modelled as the named
failures `NoRisingEdge` and `NoFallingEdge`. In `ev.py` they raise
IndexError. Reading `index[0]` of an empty index is the failure
`EmptyIndex`. Reset hits it on an empty log. Trim hits it when no row is
above the value.

The time index must have distinct labels. This is a condition under which
pandas treats `loc[start:end]` as the position slice between the two labels
(`Telemetry.LocSliceByPosition`). A sorted index without repeats, the shape
of a ride log, satisfies it (`Telemetry.StrictlyIncreasingHasDistinctKeys`).

Two details of `ev.py` that its comments do not spell out:

- The comment above `pull_throttle_region` (ev.py:10) speaks of "a certain
  threshold". The code sets `threshold = 0` (ev.py:12), never reads it,
  and compares against a literal 0 (ev.py:14). The model does the same.
- The extractor fails when no sample is positive, and also when current is
  positive only from the first sample on with no later rise, because the
  first difference is NaN (ev.py:16). So position 0 is never a rising edge
  (`Throttle.ActiveFromStartExample`).

## Model

| member | source | states |
|---|---|---|
| Telemetry.LocSlice | ev.py:27 | `ride_data.loc[start:end]`: the rows from the row labelled `start` through the row labelled `end`; its meaning as a position slice is the LocSliceByPosition row |
| Telemetry.IndexOf | ev.py:27 | looking up a label gives the first row that carries it |
| Telemetry.LocSliceByPosition | ev.py:27 | on a unique index, `loc[a:b]` gives the rows from the position of `a` through the position of `b`, and nothing when `b` comes first |
| Telemetry.Shift | ev.py:30 | index arithmetic keeps length and rows and moves every label down by the same amount |
| Series.Where | ev.py:19 | `np.where` reports only positions where the mask holds, in ascending order |
| Series.WhereIndex | ev.py:19 | `np.where` misses no position where the mask holds |
| Series.WhereFirst | ev.py:19-20 | the first position reported is the least one where the mask holds; there is one exactly when the mask holds somewhere |
| Series.WhereFirstAfter | ev.py:23-24 | `neg_one_locations[np.where(neg_one_locations > first_one)[0][0]]` is the least mask position after `first_one`; it exists exactly when there is one |
| Series.WhereThroughSelection | ev.py:17-20 | searching the filtered series finds the first wanted position of the unfiltered one, when every wanted position survives the filter |
| Throttle.AboveThreshold | ev.py:14 | the 0/1 indicator of motor current above 0, one entry per sample; DiffMeaning states what its differences say about the samples |
| Throttle.Diffs | ev.py:16 | `above_threshold.diff()` with each value's time label, NaN (`None`) at the first row; characterised by DiffMeaning |
| Throttle.Transitions | ev.py:17 | `diffs[diffs != 0]`, the kept entries in order with their labels; characterised by LabelOfTransition, FirstTransitionIsNaN and TransitionsAlternate |
| Throttle.EdgeTransitions | ev.py:19-24 | the transition index of the -1 lies after that of the +1, inside the transition list |
| Throttle.LabelOfTransition | ev.py:21 | each kept transition carries the time label of the sample it was computed at |
| Throttle.DiffMeaning | ev.py:14-16 | a difference of +1 is a rising edge, -1 a falling edge, 0 no change; position 0 has none |
| Throttle.FirstTransitionIsNaN | ev.py:16-17 | the NaN at the first row survives the `!= 0` filter and is always transition 0 |
| Throttle.TransitionsAlternate | ev.py:15-17 | after the leading NaN the kept differences alternate between +1 and -1 |
| Throttle.FallingEdgeIsNextTransition | ev.py:22-24 | the -1 matched to the first +1 is the very next transition; it exists exactly when the +1 is not the last |
| Throttle.FirstOneIsFirstRisingEdge | ev.py:18-21 | the first +1 transition exists exactly when the log has a rising edge, and it sits on the first one |
| Throttle.FirstNegOneIsRunEnd | ev.py:22-25 | the first -1 after the first +1 sits on the first non-positive sample after the rising edge, and is missing exactly when there is none |
| Throttle.FirstRisingEdge | ev.py:14-20 | the least rising edge at or after a position, or none when there is no rising edge from there on |
| Throttle.FirstInactive | ev.py:22-24 | the least non-positive sample at or after a position, or none when current stays positive to the end |
| Throttle.ThrottleBoundsNoRise | ev.py:19-20 | the position search fails for want of a rising edge exactly when the log has none |
| Throttle.ThrottleBoundsNoFall | ev.py:23-24 | the position search fails for want of a falling edge exactly when current stays positive after the first rising edge |
| Throttle.ThrottleBoundsFound | ev.py:18-25 | the start is the first rising edge; the end is the first falling edge after it, with positive current in between |
| Throttle.ThrottleBoundsFindsRun | ev.py:18-25 | conversely, the first rising edge and the end of its run are the positions found |
| Throttle.EdgeTransitionsMatchBounds | ev.py:14-25 | the transition indices `ev.py` computes sit on the positions the direct search finds, and both fail in the same way |
| Throttle.SliceBetweenTransitions | ev.py:21-27 | slicing between the labels of two transitions is slicing between the samples they came from |
| Throttle.PullThrottleRegion | ev.py:11-27 | the literal extractor, step by step as `ev.py` computes it; characterised by PullThrottleRegionIsFirstPull, PullFailsWithoutRisingEdge, PullFailsWithoutFallingEdge and PullFindsFirstRun |
| Throttle.ThrottleBounds | ev.py:18-25 | the independent reference search for the first pull's start and end positions; characterised by ThrottleBoundsNoRise, ThrottleBoundsNoFall, ThrottleBoundsFound and ThrottleBoundsFindsRun |
| Throttle.FirstPull | ev.py:11-27 | the reference region: the reference search's failure, or the samples from its start through its end; characterised by FirstPullFindsRun and FirstPullIsOneRun |
| Throttle.PullThrottleRegionIsFirstPull | ev.py:11-27 | the extractor returns the direct search's failure, or the samples from its start through its end |
| Throttle.FirstPullFindsRun | ev.py:11-27 | the first rising edge and the end of its run delimit the region |
| Throttle.PullFailsWithoutRisingEdge | ev.py:19-20 | extraction fails with no rising edge exactly when no sample is a rising edge |
| Throttle.PullFailsWithoutFallingEdge | ev.py:23-24 | extraction fails with no falling edge exactly when there is a first rising edge and current stays positive after it to the end |
| Throttle.PullFindsFirstRun | ev.py:11-27 | otherwise the region is the samples from the first rising edge through the first non-positive sample after it |
| Throttle.FirstPullIsOneRun | ev.py:14-27 | a region found by position search has at least two samples, is positive throughout but for its last sample, and is cut out unchanged at the first rising edge |
| Throttle.PullThrottleRegionIsOneRun | ev.py:14-27 | the same for the extractor's result |
| Throttle.FirstPullIgnoresLaterSamples | ev.py:18-25 | the position search reads the log only up to the end of the first pull |
| Throttle.LaterCyclesIgnored | ev.py:18-27 | changing or adding samples after the end of the first pull leaves the extracted region unchanged |
| Throttle.OneCycleExample | ev.py:11-27 | indicator 0,0,1,1,1,0,0 gives the samples at positions 2 through 5 |
| Throttle.TwoCycleExample | ev.py:11-27 | indicator 0,1,1,0,0,1,1,0 gives positions 1 through 3; the second pull is ignored |
| Throttle.ActiveFromStartExample | ev.py:14-20 | current positive from the first sample with no later rise fails with no rising edge |
| Throttle.UnterminatedExample | ev.py:22-24 | a pull still running at the end of the log fails with no falling edge |
| Reindex.ResetTimeIndex | ev.py:29-31 | fails exactly on an empty log; otherwise the first label becomes 0, rows and length are kept, and every difference between two labels is kept |
| Reindex.ResetTimeIndexIdempotent | ev.py:29-31 | resetting a reset log changes nothing |
| Reindex.ResetForgetsOffset | ev.py:29-31 | a log shifted by any offset resets to the same frame |
| Reindex.ResetPreservesOrder | ev.py:29-31 | the reset index is strictly increasing exactly when the original is |
| Reindex.AboveMask | ev.py:149 | `vd[column] > value`: one entry per row, true exactly at the rows whose column exceeds the value |
| Reindex.VescTrimThreshold | ev.py:148-151 | fails exactly when no row's column exceeds the value; otherwise the first row above it gets time 0, and rows, length and label differences are kept |
| Reindex.TrimIsUnique | ev.py:148-151 | any frame with the first row above the value at time 0 and spacing and rows kept is the trim's result |
| Reindex.TrimForgetsOffset | ev.py:148-151 | a log shifted by any offset trims to the same frame |
| Reindex.TrimIdempotent | ev.py:148-151 | trimming a trimmed log with the same column and value changes nothing |
| Reindex.TrimAtFirstRowIsReset | ev.py:148-151 | when the first row is already above the value, trimming is resetting |
| Reindex.TrimOnThrottleRegionIsReset | ev.py:148-151 | trimming an extracted throttle region at motor current above 0 is resetting its time index |
| Reindex.TrimExample | ev.py:148-151 | current 0, 4, 12, 20 at times 100..400 trimmed at 10 puts time 0 at the third sample and gives -200, -100, 0, 100 |

## Left out

- Plotting (`plot_torque_speed`, `plot`, `plot_vesc`, `plot_current_acceleration`, `plot_performance`) is left out: it has only matplotlib/seaborn side effects.
- `calculate_acceleration` and the fit in `plot_internal_resistance` are left out. Their work is floating-point numerics done by numpy `polyfit` and pandas `rolling`, which are not part of this model.
- `create_speed_gps_erpm`, `rpm_to_radpsec`, `vesc_speed` and `vesc_convert_to_seconds` are left out: each is a one-line float unit conversion.
- `motor_temp_delta` and `controller_temp_delta` are left out: each is a last-minus-first float subtraction.
- `vesc_csv_to_df` (file input), `output_maximums` (printing) and `ride_report` (orchestration of plots) are left out.
- Throttle.PullThrottleRegion requires distinct time labels. Label slicing on a repeated label follows other pandas rules (first and last occurrence, or an error), and those are not modelled.
- NaN currents are not modelled: currents are exact reals. NaN compares false with `> 0`, so NaN would read as inactive.
- The NaN of `diff()` is modelled as `None`, which differs from every number. Nothing else about floating point is modelled.
- Reindex.VescTrimThreshold chooses among the seven raw log columns of `Column`. A trim on any other column of the frame (`duty_cycle`, or a column the analysis adds such as `speed`) is not modelled. The result does not depend on which column is read, only on its values. A column name missing from the frame (KeyError) is not modelled either.
- The time index is int64 in pandas and is modelled as an unbounded `int`. Wrap-around is not modelled; it cannot occur for millisecond counters.
- The source assigns the new index to the frame in place and returns the same frame. The model returns a new frame and does not model the aliasing.
- The `threshold` local of `pull_throttle_region` is never read, so the model compares against the literal 0 as the code does.

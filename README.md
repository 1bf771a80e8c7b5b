# Occupancy-transition latency pipeline

This project models the computational core of the room-occupancy dashboard
in `PrimPrimWork/data_app.py`. The core is the pass that runs once when the
program loads its data set. It finds every row where the ground-truth
occupancy count changes. For each such transition it asks four sensor
channels how long they took to react:

- the S6 PIR motion indicator uses an edge-change rule: the closest PIR flip within 49 rows before and 50 rows after the event (the window's first row is never a candidate, see below);
- S1 light uses a threshold rule: the first reading above 40;
- S1 sound uses a threshold rule: the first reading above 1.3;
- S5 CO2 uses a threshold rule: the first reading above 700.

The pass collects the results in per-channel latency and detection-time
lists. From the PIR detection times it derives the slider range of the web
page. A `/get_data` request index is clamped into that range.

Files and modules:

- `Series.dfy` (`Series`): the loaded frame. There is one sequence per column the core reads. Timestamps are whole seconds and sensor values are exact `real`s. `Option`, `Abs`, `Min` and `Max` live here too.
- `ChangeDetector.dfy` (`ChangeDetector`): the transition test of lines 90-94 and the ordered list of transitions it produces.
- `Estimators.dfy` (`Estimators`): `compute_pir_latency`, `compute_light_latency`, `compute_sound_latency` and `compute_co2_latency`. NaN is the constructor `Undetected` of `Latency`, so it cannot be confused with a latency of 0. `Sensor` and `Estimate` form the table of which rule and defaults each channel uses.
- `Aggregator.dfy` (`Aggregator`): the loop of lines 90-113 as a method with a `while` loop. The module-level lists (`True_change_times`, `PIR_latencies`/`PIR_times`, and so on) are local sequences the loop appends to. The method returns them together as a `Report`. The loop is proved to build `ReportBelow`, the row-by-row specification. `ReportBelow` is proved to equal `Expected`, which handles the list of transitions event by event. The alignment properties are proved about `Expected`.
- `Viewer.dfy` (`Viewer`): `visible_idx_min`/`visible_idx_max` (lines 127-128, 258-259) and the clamp of line 281.

Behaviour of the code that the model keeps:

- The PIR window is not quite symmetric. The first difference is taken inside the window, and its first row is filled with 0, so the window's first row can never be a candidate (`EdgeWindowFirstRowIgnored`).
- The PIR window's upper end is computed as `min(len(df), i + 50)`, but the slice is by label. So the last row examined is `min(n - 1, i + 50)`.
- The light window `df.loc[i:i+200]` is inclusive and has up to 201 rows. The sound and CO2 windows `df.iloc[i:i+200]` are exclusive and have up to 200 rows. A reading above threshold only at row `i + 200` is seen by light and missed by the other two (`LightWindowReachesOneRowFurther`).
- A threshold latency is non-negative only because the frame is sorted on load. The lemmas take `Sorted` as a hypothesis.
- A PIR edge found before the event is reported as an absolute distance. Its detection time is recorded as event time + |latency|, which is a mirrored time after the event, not the edge's own time (`EarlyPirEdgeRecordedAfterEvent`).
- An out-of-range `/get_data` index is clamped to the visible range `[visible_idx_min, visible_idx_max]`, not to the whole frame. Because PIR detection times need not be row times, that range can be inverted. Every request is then served row `visible_idx_min` (`InvertedRangeExample`).
- The range lookups fail with an IndexError when there is no PIR detection, or when no row lies at or after the first detection time or at or before the last one. `VisibleRange` returns `None` in exactly those cases. For the PIR times the loop actually builds, the second lookup cannot fail on its own: each detection time is an event time plus a non-negative latency (`SliderRange`).
- Equal timestamps are not excluded by the code. The edge-change rule breaks ties in time distance in favour of the earliest row.

## Model

| member | source | states |
|---|---|---|
| `ChangeDetector.TransitionsBelowMembers` | PrimPrimWork/data_app.py:90-94 | the forward scan over rows below k emits exactly the rows i < k with 1 <= i and occupancy[i] != occupancy[i-1] |
| `ChangeDetector.TransitionsBelowIncreasing` | PrimPrimWork/data_app.py:90-94 | the forward scan over rows below k emits its rows in strictly increasing order |
| `ChangeDetector.TransitionsBelow` | PrimPrimWork/data_app.py:90-94 | the scan over rows below k emits only rows below k that are transitions (1 <= i and occupancy[i] != occupancy[i-1]), fewer than k of them |
| `ChangeDetector.Transitions` | PrimPrimWork/data_app.py:90-94 | a transition is recorded at i iff 1 <= i < n and the count differs from row i-1 (so never at row 0); events come in increasing row order |
| `ChangeDetector.OccupancyExample` | PrimPrimWork/data_app.py:90-94 | occupancy 0, 0, 1, 1, 0 changes at rows 2 and 4 |
| `ChangeDetector.ConstantHasNoTransitions` | PrimPrimWork/data_app.py:90-94 | a constant occupancy column produces no events |
| `Estimators.ClosestEdge` | PrimPrimWork/data_app.py:49-52 | among the rows whose PIR value differs from the row before, returns one with the least time distance to the event, strictly nearer than every earlier such row (argmin's first occurrence); None iff there is no such row |
| `Estimators.EdgeSelection` | PrimPrimWork/data_app.py:44-52 | the selected row lies in max(0,i-50) < p <= min(n-1,i+50) with pir[p] != pir[p-1], is no farther in time than any other candidate and strictly nearer than every earlier candidate; None iff no candidate exists |
| `Estimators.PirLatency` | PrimPrimWork/data_app.py:41-53 | Undetected iff the window has no PIR edge; otherwise a non-negative latency equal to the absolute time distance of some candidate and no greater than that of every candidate |
| `Estimators.EdgeWindowFirst` | PrimPrimWork/data_app.py:44 | the motion window starts at max(0, i-50): never after the event row and at most 50 rows before it |
| `Estimators.EdgeWindowLast` | PrimPrimWork/data_app.py:44-47 | the inclusive label slice up to min(n, i+50) ends at row min(n-1, i+50): a row of the frame, not before the event, no more than 50 rows after it |
| `Estimators.EdgeWindowFirstRowIgnored` | PrimPrimWork/data_app.py:47-51 | a PIR change at the window's first row, with no change after it in the window, gives Undetected, because the diff is taken inside the window |
| `Estimators.EarlyEdgeGivesAbsoluteLatency` | PrimPrimWork/data_app.py:52-53 | the latency is the absolute distance to the selected row; for an edge before the event on a sorted frame it is t[i] - t[p] |
| `Estimators.FirstAbove` | PrimPrimWork/data_app.py:59-62 | the lowest row of the window whose value strictly exceeds the threshold, every earlier row of the window being at or below it; None iff no row exceeds it |
| `Estimators.LightWindowEnd` | PrimPrimWork/data_app.py:58 | the inclusive label slice covers rows i .. min(n-1, i+200): it ends past the event row, at the frame end or just after row i+200, whichever is first |
| `Estimators.IlocWindowEnd` | PrimPrimWork/data_app.py:67 | the exclusive positional slice covers rows i .. min(n, i+200)-1: it ends past the event row, at the frame end or at row i+200 (never examined), whichever is first |
| `Estimators.ThresholdLatency` | PrimPrimWork/data_app.py:59-62 | the threshold rule is Undetected iff no window row exceeds the threshold, else measures t[p] - t[i] for the first row p above it |
| `Estimators.LightLatency` | PrimPrimWork/data_app.py:56-62 | Undetected iff every light reading on rows i .. min(n-1, i+200) is at most 40; otherwise t[p] - t[i] for the first such row p above 40 |
| `Estimators.SoundLatency` | PrimPrimWork/data_app.py:65-71 | Undetected iff every sound reading on rows i .. min(n, i+200)-1 is at most 1.3; otherwise t[p] - t[i] for the first such row p above 1.3 |
| `Estimators.Co2Latency` | PrimPrimWork/data_app.py:74-80 | Undetected iff every CO2 reading on rows i .. min(n, i+200)-1 is at most 700; otherwise t[p] - t[i] for the first such row p above 700 |
| `Estimators.Estimate` | PrimPrimWork/data_app.py:96-99 | the loop's channel table: PIR is Undetected iff its 50-row window has no edge candidate; light, sound and CO2 are Undetected iff no reading in their own window exceeds 40, 1.3 and 700 respectively |
| `Estimators.ThresholdPicksFirstOfSeveral` | PrimPrimWork/data_app.py:59-62 | with several qualifying rows, only the first one determines the latency |
| `Estimators.ThresholdLatencyNonNegative` | PrimPrimWork/data_app.py:56-62 | on a time-sorted frame a threshold latency is never negative, and it is 0 when the event row already exceeds the threshold |
| `Estimators.ChannelLatenciesNonNegative` | PrimPrimWork/data_app.py:56-80 | light, sound and CO2 latencies at their defaults (40, 1.3, 700) are non-negative on a sorted frame and 0 when the event row already exceeds the channel's threshold |
| `Estimators.LightWindowReachesOneRowFurther` | PrimPrimWork/data_app.py:58-77 | a reading above threshold only at row i+200 is detected by the light window and missed by the sound/CO2 window |
| `Estimators.MotionExample` | PrimPrimWork/data_app.py:41-53 | with motion 0, 0, 1, 1, 0 the PIR latency at the occupancy changes on rows 2 and 4 is 0 seconds |
| `Estimators.LightCrossingExample` | PrimPrimWork/data_app.py:56-62 | light readings 10, 10, 10, 50 with the event at row 1 give the latency from row 1 to row 3 |
| `Aggregator.Record` | PrimPrimWork/data_app.py:102-113 | a channel's two lists keep their entries and grow together, by one entry exactly when the estimate is not NaN; that entry is the latency, and the detection time minus the latency is the event time |
| `Aggregator.HandleEvent` | PrimPrimWork/data_app.py:95-113 | handling the event at row i appends t[i] to True_change_times and lets every channel record its own estimator's result for row i |
| `Aggregator.ReportBelow` | PrimPrimWork/data_app.py:90-113 | after rows 1 .. k-1 the event list holds the times of the transitions below k in scan order, and each channel's two lists have equal length, no longer than the event list |
| `Aggregator.Aggregate` | PrimPrimWork/data_app.py:90-113 | the loop's event list and four channel lists are exactly those of the specification Expected, with one event time per transition |
| `Aggregator.ReportBelowHandlesTransitions` | PrimPrimWork/data_app.py:90-113 | visiting rows 1 .. k-1 as the loop does handles exactly the transitions below k, in increasing order, each once |
| `Aggregator.ReportStep` | PrimPrimWork/data_app.py:95-113 | handling one more event appends its time to the event list and, per channel, appends latency and event time + latency only when the estimate is not Undetected |
| `Aggregator.DetectionsStep` | PrimPrimWork/data_app.py:102-113 | one more event changes a channel's lists only by recording that event's estimate |
| `Aggregator.DetectionsAligned` | PrimPrimWork/data_app.py:102-113 | a channel's latency and time lists have the same length, at most one entry per event; entry k is the estimate of the k-th detected event and its time is that event's time + latency |
| `Aggregator.DetectedEventsExact` | PrimPrimWork/data_app.py:102-113 | the events a channel records are exactly the events whose estimate is not Undetected, kept in event order |
| `Aggregator.Expected` | PrimPrimWork/data_app.py:90-113 | the final report holds one event time per transition, and every channel's two lists have equal length and are no longer than True_change_times |
| `Aggregator.ReportOfAligned` | PrimPrimWork/data_app.py:100-113 | for any handled event list, each channel's two lists have equal length and are no longer than the event list |
| `Aggregator.EveryEventRecorded` | PrimPrimWork/data_app.py:90-100 | True_change_times has one entry per transition, entry k being the time of the k-th transition, so it holds the time of every transition whether or not any channel detected anything |
| `Aggregator.EarlyPirEdgeRecordedAfterEvent` | PrimPrimWork/data_app.py:102-104 | for a PIR edge before the event, the recorded PIR time is 2 t[i] - t[p], the event time plus the absolute latency |
| `Aggregator.ConstantOccupancyEmptyReport` | PrimPrimWork/data_app.py:90-113 | with constant occupancy every list stays empty |
| `Viewer.FirstAtOrAfter` | PrimPrimWork/data_app.py:258 | the first row whose time is at or after x, every earlier row being before x; None iff no row qualifies |
| `Viewer.LastAtOrBefore` | PrimPrimWork/data_app.py:259 | the last row whose time is at or before x, every later row being after x; None iff no row qualifies |
| `Viewer.VisibleRange` | PrimPrimWork/data_app.py:127-128 | lo is the first row at or after the first PIR time and hi the last row at or before the last PIR time, both rows of the frame; None exactly where the program raises IndexError |
| `Viewer.SliderRange` | PrimPrimWork/data_app.py:127-128 | the range built from the loop's PIR times is missing exactly when there is no PIR detection or every row precedes the first one; the lookup of the last row never fails on its own; when present both bounds are rows of the frame |
| `Viewer.PirTimesNotBeforeEveryRow` | PrimPrimWork/data_app.py:102-104 | every PIR detection time is at or after some row's time (its own event's), since it is the event time plus a non-negative latency |
| `Viewer.VisibleRangeContains` | PrimPrimWork/data_app.py:258-259 | when some row's time lies between the first and last PIR times, the range exists and contains that row, so lo <= hi |
| `Viewer.InvertedRangeExample` | PrimPrimWork/data_app.py:258-281 | with rows at 0 s and 10 s and one PIR time of 5 s the range is inverted (lo 1, hi 0) and every request reads row 1 |
| `Viewer.Clamp` | PrimPrimWork/data_app.py:281 | the clamped index lies in [lo, hi] when lo <= hi, is the index itself when already in range, hi above the range, and lo below it or when the range is inverted |
| `Viewer.ClampIdempotent` | PrimPrimWork/data_app.py:281 | clamping twice is the same as clamping once |
| `Viewer.SelectedRow` | PrimPrimWork/data_app.py:281-283 | the row get_data reads is always a row of the frame, the requested one when in range, and within the range when it is not inverted |
| `Viewer.FarRequestClampedToRangeEnd` | PrimPrimWork/data_app.py:281 | a request for index 999999 on a 10-row frame reads the last row of the visible range |

## Left out

- CSV loading, date and time parsing, sorting and re-indexing (lines 17-20): the frame is given as column sequences. Sortedness is the hypothesis `Sorted` where a property needs it. The truncation to 4201 rows does not affect any property proved here.
- Timestamps are whole seconds (the data set's time column has second resolution). `total_seconds()` and `pd.to_timedelta` become integer subtraction and addition.
- Floating point: sensor values and thresholds are exact reals. The double nearest 1.3 is not modelled.
- The S7 PIR column, the temperature columns and the other light and sound nodes: they are read only by the plots and by `get_data`'s JSON (S7_PIR as its raw value, line 290; the temperature, light and sound nodes through the means of lines 291-293).
- Chart rendering and base64 encoding (lines 32-38, 131-256), and `GLOBAL_X_MIN`/`GLOBAL_X_MAX`, which only set plot limits.
- The Flask routes, templates, JSON, `strftime` and the `int(...)` parse of the query string (lines 264-299). Only the clamp and the row lookup of `get_data` are modelled.
- The means: `np.nanmean` in the bar chart (lines 225-230) and the per-node means in `get_data` (lines 291-293) are floating-point presentation.
- The `MAX_ROWS` truncation (lines 115-125) sits inside a string literal and never runs. The `change` column of line 48 is never read.
- `PrimPrimWork/Data_Final-SR.py` and the two LAB3 scripts: a data download and unrelated exercises.
- Non-default window and threshold arguments of the estimators: only the edge window is a parameter. The threshold estimators are modelled at the defaults the loop calls them with, over a generic `ThresholdLatency`.

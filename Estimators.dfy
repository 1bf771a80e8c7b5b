/** The latency estimators of data_app.py lines 41-80: for one occupancy
    transition at row i, how long until (or how close to) the first qualifying
    reading of one sensor channel. NaN, the "undetected" result, is a
    constructor of its own and can never be confused with a latency of 0. */
module Estimators {
  import opened Series

  datatype Latency = Undetected | Detected(secs: int)

  /** Default half-width of the motion window (window=50). */
  const PirWindow: nat := 50
  /** Default length of the forward threshold windows (i + 200). */
  const ForwardSpan: nat := 200
  /** Default thresholds of the three threshold channels. */
  const LightThreshold: real := 40.0
  const SoundThreshold: real := 1.3
  const Co2Threshold: real := 700.0

  /** Absolute time distance between row p and the event row i. */
  function Distance(t: seq<int>, i: nat, p: nat): nat
    requires i < |t| && p < |t|
  {
    Abs(t[p] - t[i])
  }

  // ---------------------------------------------------------------------
  // Edge-change rule (compute_pir_latency)
  // ---------------------------------------------------------------------

  /** First row of the motion window: max(0, i - window). It is never after
      the event row and at most window rows before it. */
  function EdgeWindowFirst(i: nat, window: nat): (r: nat)
    ensures r <= i && i <= r + window
    ensures r == 0 || r == i - window
  {
    Max(0, i - window)
  }

  /** Last row of the motion window. The code computes min(len(df), i + window)
      and slices by label, inclusively; a label past the end simply stops the
      slice at the last row, so the last row taken is min(n - 1, i + window). */
  function EdgeWindowLast(n: nat, i: nat, window: nat): (r: nat)
    requires i < n
    ensures i <= r < n && r <= i + window
    ensures r == n - 1 || r == i + window
  {
    Min(Min(n, i + window), n - 1)
  }

  /** Row q's PIR value differs from the row before it: a non-zero first
      difference. */
  predicate Flips(pir: seq<int>, q: int)
  {
    1 <= q < |pir| && pir[q] != pir[q - 1]
  }

  /** Row p is an edge candidate: it lies inside the window, is not the
      window's first row (whose diff is NaN, filled with 0), and its PIR value
      differs from the row before it. */
  predicate IsEdgeCandidate(f: Frame, i: nat, window: nat, p: int)
    requires f.WellFormed() && i < |f.time|
  {
    EdgeWindowFirst(i, window) < p <= EdgeWindowLast(|f.time|, i, window) && Flips(f.pir, p)
  }

  /** Among rows from .. last whose PIR value differs from the row before, the
      one closest in time to the event; the earliest such row on a tie
      (argmin returns the first occurrence). */
  function ClosestEdge(t: seq<int>, pir: seq<int>, i: nat, from: nat, last: nat): (r: Option<nat>)
    requires |pir| == |t| && i < |t| && last < |t|
    decreases last + 1 - from
    ensures r.None? <==> forall q :: from <= q <= last ==> !Flips(pir, q)
    ensures r.Some? ==> from <= r.value <= last && Flips(pir, r.value)
    ensures r.Some? ==> forall q :: from <= q <= last && Flips(pir, q) ==>
              Distance(t, i, r.value) <= Distance(t, i, q)
    ensures r.Some? ==> forall q :: from <= q < r.value && Flips(pir, q) ==>
              Distance(t, i, r.value) < Distance(t, i, q)
  {
    if from > last then None
    else
      var rest := ClosestEdge(t, pir, i, from + 1, last);
      if Flips(pir, from) && (rest.None? || Distance(t, i, from) <= Distance(t, i, rest.value))
      then Some(from)
      else rest
  }

  /** The row compute_pir_latency selects for the event at row i. */
  function EdgeSelection(f: Frame, i: nat, window: nat): (r: Option<nat>)
    requires f.WellFormed() && i < |f.time|
    ensures r.None? <==> forall q :: !IsEdgeCandidate(f, i, window, q)
    ensures r.Some? ==> IsEdgeCandidate(f, i, window, r.value)
    ensures r.Some? ==> forall q :: IsEdgeCandidate(f, i, window, q) ==>
              Distance(f.time, i, r.value) <= Distance(f.time, i, q)
    ensures r.Some? ==> forall q :: IsEdgeCandidate(f, i, window, q) && q < r.value ==>
              Distance(f.time, i, r.value) < Distance(f.time, i, q)
  {
    var first, last := EdgeWindowFirst(i, window), EdgeWindowLast(|f.time|, i, window);
    var r := ClosestEdge(f.time, f.pir, i, first + 1, last);
    assert r.Some? ==> IsEdgeCandidate(f, i, window, r.value);
    assert r.None? ==> forall q :: !IsEdgeCandidate(f, i, window, q) by {
      if r.None? {
        forall q ensures !IsEdgeCandidate(f, i, window, q) {
          if first < q <= last {
            assert !Flips(f.pir, q);
          }
        }
      }
    }
    r
  }

  /** compute_pir_latency: the absolute time distance to the closest PIR edge
      in the window, or Undetected when the window holds no edge. */
  function PirLatency(f: Frame, i: nat, window: nat): (r: Latency)
    requires f.WellFormed() && i < |f.time|
    ensures r.Undetected? <==> forall q :: !IsEdgeCandidate(f, i, window, q)
    ensures r.Detected? ==> r.secs >= 0
    ensures r.Detected? ==> exists p :: IsEdgeCandidate(f, i, window, p) && r.secs == Distance(f.time, i, p)
    ensures r.Detected? ==> forall q :: IsEdgeCandidate(f, i, window, q) ==> r.secs <= Distance(f.time, i, q)
  {
    match EdgeSelection(f, i, window)
    case None => Undetected
    case Some(p) => Detected(Distance(f.time, i, p))
  }

  // ---------------------------------------------------------------------
  // Threshold rule (compute_light_latency, compute_sound_latency,
  // compute_co2_latency)
  // ---------------------------------------------------------------------

  /** The first row k in from .. to-1 with values[k] > threshold. */
  function FirstAbove(values: seq<real>, from: nat, to: nat, threshold: real): (r: Option<nat>)
    requires from <= to <= |values|
    decreases |values| - from
    ensures r.None? <==> forall k :: from <= k < to ==> values[k] <= threshold
    ensures r.Some? ==> from <= r.value < to && values[r.value] > threshold
    ensures r.Some? ==> forall k :: from <= k < r.value ==> values[k] <= threshold
  {
    if from == to then None
    else if values[from] > threshold then Some(from)
    else FirstAbove(values, from + 1, to, threshold)
  }

  /** One past the last row of light's window: df.loc[i:i+200] is a label
      slice and takes rows i .. i+200 inclusive, clipped to the frame. */
  function LightWindowEnd(n: nat, i: nat): (e: nat)
    requires i < n
    ensures i < e <= n
    ensures e <= i + ForwardSpan + 1 && (e == n || e == i + ForwardSpan + 1)
  {
    Min(n, i + ForwardSpan + 1)
  }

  /** One past the last row of the sound and CO2 windows: df.iloc[i:i+200] is
      positional and takes rows i .. i+199, clipped to the frame. */
  function IlocWindowEnd(n: nat, i: nat): (e: nat)
    requires i < n
    ensures i < e <= n
    ensures e <= i + ForwardSpan && (e == n || e == i + ForwardSpan)
  {
    Min(n, i + ForwardSpan)
  }

  /** The time from the event at row i to the first row in i .. end-1 whose
      value exceeds the threshold, or Undetected: detected exactly when some
      row of the window exceeds the threshold, and then measured to the
      lowest such row, all rows before it being at or below. */
  function ThresholdLatency(t: seq<int>, values: seq<real>, i: nat, end: nat, threshold: real): (r: Latency)
    requires |values| == |t| && i < end <= |t|
    ensures r.Undetected? <==> forall k :: i <= k < end ==> values[k] <= threshold
    ensures r.Detected? ==>
              exists p :: i <= p < end && values[p] > threshold
                && (forall k :: i <= k < p ==> values[k] <= threshold)
                && r.secs == t[p] - t[i]
  {
    match FirstAbove(values, i, end, threshold)
    case None => Undetected
    case Some(p) =>
      assert i <= p < end && values[p] > threshold && forall k :: i <= k < p ==> values[k] <= threshold;
      Detected(t[p] - t[i])
  }

  /** compute_light_latency with its default threshold: the label slice
      df.loc[i:i+200] looks at rows i .. min(n-1, i+200). */
  function LightLatency(f: Frame, i: nat): (r: Latency)
    requires f.WellFormed() && i < |f.time|
    ensures r.Undetected? <==>
              forall k :: i <= k <= Min(|f.time| - 1, i + ForwardSpan) ==> f.light[k] <= LightThreshold
    ensures r.Detected? ==>
              exists p :: i <= p <= Min(|f.time| - 1, i + ForwardSpan)
                && f.light[p] > LightThreshold
                && (forall k :: i <= k < p ==> f.light[k] <= LightThreshold)
                && r.secs == f.time[p] - f.time[i]
  {
    ThresholdLatency(f.time, f.light, i, LightWindowEnd(|f.time|, i), LightThreshold)
  }

  /** compute_sound_latency with its default threshold: the positional slice
      df.iloc[i:i+200] looks at rows i .. min(n, i+200) - 1. */
  function SoundLatency(f: Frame, i: nat): (r: Latency)
    requires f.WellFormed() && i < |f.time|
    ensures r.Undetected? <==>
              forall k :: i <= k < Min(|f.time|, i + ForwardSpan) ==> f.sound[k] <= SoundThreshold
    ensures r.Detected? ==>
              exists p :: i <= p < Min(|f.time|, i + ForwardSpan)
                && f.sound[p] > SoundThreshold
                && (forall k :: i <= k < p ==> f.sound[k] <= SoundThreshold)
                && r.secs == f.time[p] - f.time[i]
  {
    ThresholdLatency(f.time, f.sound, i, IlocWindowEnd(|f.time|, i), SoundThreshold)
  }

  /** compute_co2_latency with its default threshold, over the same
      positional window as sound. */
  function Co2Latency(f: Frame, i: nat): (r: Latency)
    requires f.WellFormed() && i < |f.time|
    ensures r.Undetected? <==>
              forall k :: i <= k < Min(|f.time|, i + ForwardSpan) ==> f.co2[k] <= Co2Threshold
    ensures r.Detected? ==>
              exists p :: i <= p < Min(|f.time|, i + ForwardSpan)
                && f.co2[p] > Co2Threshold
                && (forall k :: i <= k < p ==> f.co2[k] <= Co2Threshold)
                && r.secs == f.time[p] - f.time[i]
  {
    ThresholdLatency(f.time, f.co2, i, IlocWindowEnd(|f.time|, i), Co2Threshold)
  }

  // ---------------------------------------------------------------------
  // The channel table: which rule each channel uses
  // ---------------------------------------------------------------------

  datatype Sensor = Pir | Light | Sound | Co2

  /** The estimator the aggregation loop calls for each channel, with the
      defaults it calls them with. */
  function Estimate(f: Frame, s: Sensor, i: nat): (r: Latency)
    requires f.WellFormed() && i < |f.time|
    ensures s == Pir ==> (r.Undetected? <==> forall q :: !IsEdgeCandidate(f, i, PirWindow, q))
    ensures s == Light ==> (r.Undetected? <==>
              forall k :: i <= k <= Min(|f.time| - 1, i + ForwardSpan) ==> f.light[k] <= LightThreshold)
    ensures s == Sound ==> (r.Undetected? <==>
              forall k :: i <= k < Min(|f.time|, i + ForwardSpan) ==> f.sound[k] <= SoundThreshold)
    ensures s == Co2 ==> (r.Undetected? <==>
              forall k :: i <= k < Min(|f.time|, i + ForwardSpan) ==> f.co2[k] <= Co2Threshold)
  {
    match s
    case Pir => PirLatency(f, i, PirWindow)
    case Light => LightLatency(f, i)
    case Sound => SoundLatency(f, i)
    case Co2 => Co2Latency(f, i)
  }

  // ---------------------------------------------------------------------
  // Properties of the threshold rule
  // ---------------------------------------------------------------------

  /** Several qualifying rows: only the first one counts. */
  lemma ThresholdPicksFirstOfSeveral(t: seq<int>, values: seq<real>, i: nat, end: nat, threshold: real, p: nat, q: nat)
    requires |values| == |t| && i < end <= |t|
    requires i <= p < q < end && values[p] > threshold && values[q] > threshold
    requires forall k :: i <= k < p ==> values[k] <= threshold
    ensures ThresholdLatency(t, values, i, end, threshold) == Detected(t[p] - t[i])
  {
    var r := FirstAbove(values, i, end, threshold);
    assert r.Some?;
    assert !(r.value < p) && !(p < r.value);
  }

  /** On a time-sorted frame a threshold latency is never negative, and it is
      0 when the event row itself is already above the threshold. */
  lemma ThresholdLatencyNonNegative(t: seq<int>, values: seq<real>, i: nat, end: nat, threshold: real)
    requires |values| == |t| && i < end <= |t| && Sorted(t)
    ensures ThresholdLatency(t, values, i, end, threshold).Detected? ==>
              ThresholdLatency(t, values, i, end, threshold).secs >= 0
    ensures values[i] > threshold ==> ThresholdLatency(t, values, i, end, threshold) == Detected(0)
  {
    var r := FirstAbove(values, i, end, threshold);
    if r.Some? {
      assert t[i] <= t[r.value];
    }
  }

  /** The three threshold channels of the aggregation loop: never negative on
      a sorted frame, 0 when the event row already exceeds the threshold. */
  lemma ChannelLatenciesNonNegative(f: Frame, s: Sensor, i: nat)
    requires f.WellFormed() && i < |f.time| && Sorted(f.time)
    ensures Estimate(f, s, i).Detected? ==> Estimate(f, s, i).secs >= 0
    ensures s == Light && f.light[i] > LightThreshold ==> Estimate(f, s, i) == Detected(0)
    ensures s == Sound && f.sound[i] > SoundThreshold ==> Estimate(f, s, i) == Detected(0)
    ensures s == Co2 && f.co2[i] > Co2Threshold ==> Estimate(f, s, i) == Detected(0)
  {
    var n := |f.time|;
    match s
    case Pir =>
    case Light => ThresholdLatencyNonNegative(f.time, f.light, i, LightWindowEnd(n, i), LightThreshold);
    case Sound => ThresholdLatencyNonNegative(f.time, f.sound, i, IlocWindowEnd(n, i), SoundThreshold);
    case Co2 => ThresholdLatencyNonNegative(f.time, f.co2, i, IlocWindowEnd(n, i), Co2Threshold);
  }

  /** The light window takes one row more than the sound and CO2 windows: a
      reading above threshold only at row i + 200 is seen by the label slice
      and missed by the positional one. */
  lemma LightWindowReachesOneRowFurther(t: seq<int>, values: seq<real>, i: nat, threshold: real)
    requires |values| == |t| && i + ForwardSpan < |t|
    requires forall k :: i <= k < i + ForwardSpan ==> values[k] <= threshold
    requires values[i + ForwardSpan] > threshold
    ensures ThresholdLatency(t, values, i, LightWindowEnd(|t|, i), threshold)
            == Detected(t[i + ForwardSpan] - t[i])
    ensures ThresholdLatency(t, values, i, IlocWindowEnd(|t|, i), threshold) == Undetected
  {
    var last := i + ForwardSpan;
    var r := FirstAbove(values, i, LightWindowEnd(|t|, i), threshold);
    assert values[last] > threshold;
    assert !(r.value < last);
  }

  // ---------------------------------------------------------------------
  // Properties of the edge-change rule
  // ---------------------------------------------------------------------

  /** A PIR change on the window's first row is not a candidate, because the
      diff is taken inside the window: if it is the only change, the result is
      Undetected even though the sensor did change there. */
  lemma EdgeWindowFirstRowIgnored(f: Frame, i: nat, window: nat)
    requires f.WellFormed() && i < |f.time|
    requires EdgeWindowFirst(i, window) > 0
    requires f.pir[EdgeWindowFirst(i, window)] != f.pir[EdgeWindowFirst(i, window) - 1]
    requires forall q :: EdgeWindowFirst(i, window) < q <= EdgeWindowLast(|f.time|, i, window) ==>
               f.pir[q] == f.pir[q - 1]
    ensures PirLatency(f, i, window) == Undetected
  {
  }

  /** The selected edge may precede the event; the latency is then the
      distance back to it, still non-negative. */
  lemma EarlyEdgeGivesAbsoluteLatency(f: Frame, i: nat, window: nat)
    requires f.WellFormed() && i < |f.time|
    requires EdgeSelection(f, i, window).Some?
    ensures PirLatency(f, i, window).secs == Abs(f.time[EdgeSelection(f, i, window).value] - f.time[i])
    ensures EdgeSelection(f, i, window).value < i && Sorted(f.time) ==>
              PirLatency(f, i, window).secs == f.time[i] - f.time[EdgeSelection(f, i, window).value]
  {
    var p := EdgeSelection(f, i, window).value;
    if p < i && Sorted(f.time) {
      assert f.time[p] <= f.time[i];
    }
  }

  /** Light readings 10, 10, 10, 50 with the event at row 1: the first row
      above 40 is row 3, and the latency is the time from row 1 to row 3. */
  lemma LightCrossingExample(t: seq<int>)
    requires |t| == 4
    ensures LightLatency(Frame(t, [0, 1, 1, 1], [0, 0, 0, 0], [10.0, 10.0, 10.0, 50.0],
                               [0.0, 0.0, 0.0, 0.0], [0.0, 0.0, 0.0, 0.0]), 1)
            == Detected(t[3] - t[1])
  {
    assert FirstAbove([10.0, 10.0, 10.0, 50.0], 3, 4, LightThreshold) == Some(3);
  }

  /** Five rows whose motion indicator follows an occupancy of 0, 0, 1, 1, 0
      exactly: at the changes on rows 2 and 4 the PIR latency is 0 seconds. */
  lemma MotionExample(t: seq<int>)
    requires |t| == 5
    ensures var f := Frame(t, [0, 0, 1, 1, 0], [0, 0, 1, 1, 0],
                           [0.0, 0.0, 0.0, 0.0, 0.0], [0.0, 0.0, 0.0, 0.0, 0.0],
                           [0.0, 0.0, 0.0, 0.0, 0.0]);
            PirLatency(f, 2, PirWindow) == Detected(0) && PirLatency(f, 4, PirWindow) == Detected(0)
  {
    var f := Frame(t, [0, 0, 1, 1, 0], [0, 0, 1, 1, 0],
                   [0.0, 0.0, 0.0, 0.0, 0.0], [0.0, 0.0, 0.0, 0.0, 0.0],
                   [0.0, 0.0, 0.0, 0.0, 0.0]);
    assert IsEdgeCandidate(f, 2, PirWindow, 2);
    assert IsEdgeCandidate(f, 4, PirWindow, 4);
  }
}

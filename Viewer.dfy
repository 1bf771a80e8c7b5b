/** The slider range and the /get_data index clamp of data_app.py: the
    visible range is taken from the first and last PIR detection times (lines
    127-128, 258-259), and a requested row index is clamped into it (line 281)
    before the row is read (line 283). */
module Viewer {
  import opened Series
  import opened ChangeDetector
  import opened Estimators
  import opened Aggregator

  /** The slider's bounds, visible_idx_min and visible_idx_max. */
  datatype Range = Range(lo: nat, hi: nat)

  /** The first row k >= from whose time is at or after x
      (df.index[df["DateTime"] >= x][0] when from is 0). */
  function FirstAtOrAfter(t: seq<int>, x: int, from: nat): (r: Option<nat>)
    requires from <= |t|
    decreases |t| - from
    ensures r.None? <==> forall k :: from <= k < |t| ==> t[k] < x
    ensures r.Some? ==> from <= r.value < |t| && t[r.value] >= x
    ensures r.Some? ==> forall k :: from <= k < r.value ==> t[k] < x
  {
    if from == |t| then None
    else if t[from] >= x then Some(from)
    else FirstAtOrAfter(t, x, from + 1)
  }

  /** The last row k < to whose time is at or before x
      (df.index[df["DateTime"] <= x][-1] when to is the row count). */
  function LastAtOrBefore(t: seq<int>, x: int, to: nat): (r: Option<nat>)
    requires to <= |t|
    ensures r.None? <==> forall k :: 0 <= k < to ==> t[k] > x
    ensures r.Some? ==> r.value < to && t[r.value] <= x
    ensures r.Some? ==> forall k :: r.value < k < to ==> t[k] > x
  {
    if to == 0 then None
    else if t[to - 1] <= x then Some(to - 1)
    else LastAtOrBefore(t, x, to - 1)
  }

  /** The visible range for the detection times of the reference channel
      (PIR_times). None where the program fails at startup with an
      IndexError: no detection at all, no row at or after the first detection
      time, or no row at or before the last one. */
  function VisibleRange(t: seq<int>, pirTimes: seq<int>): (r: Option<Range>)
    ensures r.None? <==> pirTimes == []
                         || (forall k :: 0 <= k < |t| ==> t[k] < pirTimes[0])
                         || (forall k :: 0 <= k < |t| ==> t[k] > pirTimes[|pirTimes| - 1])
    ensures r.Some? ==> r.value.lo < |t| && r.value.hi < |t|
    ensures r.Some? ==> t[r.value.lo] >= pirTimes[0]
                        && forall k :: 0 <= k < r.value.lo ==> t[k] < pirTimes[0]
    ensures r.Some? ==> t[r.value.hi] <= pirTimes[|pirTimes| - 1]
                        && forall k :: r.value.hi < k < |t| ==> t[k] > pirTimes[|pirTimes| - 1]
  {
    if pirTimes == [] then None
    else
      var first := FirstAtOrAfter(t, pirTimes[0], 0);
      var last := LastAtOrBefore(t, pirTimes[|pirTimes| - 1], |t|);
      if first.None? || last.None? then None
      else Some(Range(first.value, last.value))
  }

  /** The slider range the program computes at startup, from the PIR
      detection times of the aggregation loop. Because every PIR detection
      time lies at or after its own event row's time, the lookup of the last
      row fails only when there is no detection at all: the range is missing
      exactly when there is no PIR detection or every row precedes the first
      one. */
  function SliderRange(f: Frame): (r: Option<Range>)
    requires f.WellFormed()
    ensures r.None? <==> Expected(f).pir.times == []
                         || forall k :: 0 <= k < |f.time| ==> f.time[k] < Expected(f).pir.times[0]
    ensures r.Some? ==> r.value.lo < |f.time| && r.value.hi < |f.time|
  {
    PirTimesNotBeforeEveryRow(f);
    VisibleRange(f.time, Expected(f).pir.times)
  }

  /** Each PIR detection time is its event's time plus a non-negative
      latency, so some row (the event's own) is at or before it. */
  lemma PirTimesNotBeforeEveryRow(f: Frame)
    requires f.WellFormed()
    ensures forall k :: 0 <= k < |Expected(f).pir.times| ==>
              exists j :: 0 <= j < |f.time| && f.time[j] <= Expected(f).pir.times[k]
  {
    var events := Transitions(f.occupancy);
    DetectionsAligned(f, Pir, events);
    var d := DetectedEvents(f, Pir, events);
    var pir := Expected(f).pir;
    assert pir == Detections(f, Pir, events);
    forall k | 0 <= k < |pir.times|
      ensures exists j :: 0 <= j < |f.time| && f.time[j] <= pir.times[k]
    {
      assert Estimate(f, Pir, d[k]) == Detected(pir.latencies[k]);
      assert f.time[d[k]] <= pir.times[k];
    }
  }

  /** max(lo, min(idx, hi)), the clamp of line 281. */
  function Clamp(idx: int, lo: int, hi: int): (r: int)
    ensures lo <= hi ==> lo <= r <= hi
    ensures lo <= idx <= hi ==> r == idx
    ensures lo <= hi < idx ==> r == hi
    ensures idx < lo || hi < lo ==> r == lo
  {
    Max(lo, Min(idx, hi))
  }

  /** Clamping an already clamped index changes nothing. */
  lemma ClampIdempotent(idx: int, lo: int, hi: int)
    ensures Clamp(Clamp(idx, lo, hi), lo, hi) == Clamp(idx, lo, hi)
  {
  }

  /** The row get_data reads for a requested index: always a row of the
      frame, the requested one when it lies in the range, else the nearer
      bound. */
  function SelectedRow(t: seq<int>, range: Range, idx: int): (r: nat)
    requires range.lo < |t| && range.hi < |t|
    ensures r < |t|
    ensures range.lo <= idx <= range.hi ==> r == idx
    ensures range.lo <= range.hi ==> range.lo <= r <= range.hi
  {
    Clamp(idx, range.lo, range.hi)
  }

  /** When some row's time lies between the first and the last detection
      time, the range is found and is not inverted: it contains that row. */
  lemma {:induction false} VisibleRangeContains(t: seq<int>, pirTimes: seq<int>, k: nat)
    requires pirTimes != [] && k < |t|
    requires pirTimes[0] <= t[k] <= pirTimes[|pirTimes| - 1]
    ensures VisibleRange(t, pirTimes).Some?
    ensures VisibleRange(t, pirTimes).value.lo <= k <= VisibleRange(t, pirTimes).value.hi
  {
    var r := VisibleRange(t, pirTimes);
    assert !(forall j :: 0 <= j < |t| ==> t[j] < pirTimes[0]) by {
      assert !(t[k] < pirTimes[0]);
    }
    assert !(forall j :: 0 <= j < |t| ==> t[j] > pirTimes[|pirTimes| - 1]) by {
      assert !(t[k] > pirTimes[|pirTimes| - 1]);
    }
    assert !(k < r.value.lo) by {
      assert !(t[k] < pirTimes[0]);
    }
    assert !(r.value.hi < k) by {
      assert !(t[k] > pirTimes[|pirTimes| - 1]);
    }
  }

  /** PIR detection times need not be row times, so the range can come out
      inverted: with rows at 0 s and 10 s and one detection at 5 s, lo is 1
      and hi is 0, and every request is clamped to row 1. */
  lemma InvertedRangeExample(idx: int)
    ensures VisibleRange([0, 10], [5]) == Some(Range(1, 0))
    ensures SelectedRow([0, 10], Range(1, 0), idx) == 1
  {
    assert FirstAtOrAfter([0, 10], 5, 0) == Some(1);
    assert LastAtOrBefore([0, 10], 5, 2) == Some(0);
  }

  /** A request far past the end of a 10-row frame is served the last row of
      the visible range, not an error. */
  lemma FarRequestClampedToRangeEnd(t: seq<int>, range: Range)
    requires |t| == 10 && range.lo <= range.hi < |t|
    ensures SelectedRow(t, range, 999999) == range.hi
  {
  }
}

/** The aggregation loop of data_app.py lines 90-113: one forward pass over
    the rows that finds every occupancy transition, runs the four estimators
    on it, and appends to the event list and to each channel's latency and
    detection-time lists. The module-level lists of the program are the fields
    of the Report the loop returns. */
module Aggregator {
  import opened Series
  import opened ChangeDetector
  import opened Estimators

  /** One channel's pair of lists: PIR_latencies / PIR_times and so on. */
  datatype Channel = Channel(latencies: seq<int>, times: seq<int>)

  /** Everything the loop builds. */
  datatype Report = Report(
    trueChangeTimes: seq<int>,
    pir: Channel,
    light: Channel,
    sound: Channel,
    co2: Channel)
  {
    function ChannelOf(s: Sensor): Channel
    {
      match s
      case Pir => pir
      case Light => light
      case Sound => sound
      case Co2 => co2
    }
  }

  /** The body of one "if not pd.isnull(...)" block: the two lists keep
      what they held and grow together, by one entry exactly when the estimate
      is detected; that entry is the latency and the detection time, whose
      difference is the event time. */
  function Record(c: Channel, eventTime: int, r: Latency): (c': Channel)
    ensures |c'.latencies| == |c.latencies| + (if r.Detected? then 1 else 0)
    ensures |c'.times| == |c.times| + (if r.Detected? then 1 else 0)
    ensures c.latencies <= c'.latencies && c.times <= c'.times
    ensures r.Detected? ==> c'.latencies[|c.latencies|] == r.secs
                            && c'.times[|c.times|] - r.secs == eventTime
  {
    match r
    case Undetected => c
    case Detected(secs) => Channel(c.latencies + [secs], c.times + [eventTime + secs])
  }

  /** The channel's lists after the loop has handled the given events, in order. */
  function Detections(f: Frame, s: Sensor, events: seq<nat>): Channel
    requires f.WellFormed() && forall k :: 0 <= k < |events| ==> events[k] < |f.time|
  {
    if events == [] then Channel([], [])
    else
      var e := events[|events| - 1];
      assert e < |f.time|;
      Record(Detections(f, s, events[..|events| - 1]), f.time[e], Estimate(f, s, e))
  }

  /** The events among the given ones for which the channel detected something. */
  function DetectedEvents(f: Frame, s: Sensor, events: seq<nat>): seq<nat>
    requires f.WellFormed() && forall k :: 0 <= k < |events| ==> events[k] < |f.time|
  {
    if events == [] then []
    else
      var e := events[|events| - 1];
      DetectedEvents(f, s, events[..|events| - 1])
      + (if Estimate(f, s, e).Detected? then [e] else [])
  }

  /** The event times, one per event. */
  function EventTimes(f: Frame, events: seq<nat>): (r: seq<int>)
    requires forall k :: 0 <= k < |events| ==> events[k] < |f.time|
    ensures |r| == |events| && forall k :: 0 <= k < |events| ==> r[k] == f.time[events[k]]
  {
    seq(|events|, k requires 0 <= k < |events| => f.time[events[k]])
  }

  /** The lists after the loop has handled the given events, in order. */
  function ReportOf(f: Frame, events: seq<nat>): Report
    requires f.WellFormed() && forall k :: 0 <= k < |events| ==> events[k] < |f.time|
  {
    Report(EventTimes(f, events),
           Detections(f, Pir, events), Detections(f, Light, events),
           Detections(f, Sound, events), Detections(f, Co2, events))
  }

  /** The report the loop is specified to build: all transitions handled.
      It holds one event time per transition, and each channel's two lists
      have equal length and are no longer than the event list. */
  function Expected(f: Frame): (r: Report)
    requires f.WellFormed()
    ensures |r.trueChangeTimes| == |Transitions(f.occupancy)|
    ensures forall s :: |r.ChannelOf(s).latencies| == |r.ChannelOf(s).times| <= |r.trueChangeTimes|
  {
    var events := Transitions(f.occupancy);
    ReportOfAligned(f, events);
    ReportOf(f, events)
  }

  /** The body of the "if now != prev" block for the event at row i: the
      event time is appended to the event list and every channel records its
      own estimator's result for row i. */
  function HandleEvent(r: Report, f: Frame, i: nat): (r': Report)
    requires f.WellFormed() && i < |f.time|
    ensures r'.trueChangeTimes == r.trueChangeTimes + [f.time[i]]
    ensures forall s :: r'.ChannelOf(s) == Record(r.ChannelOf(s), f.time[i], Estimate(f, s, i))
  {
    Report(r.trueChangeTimes + [f.time[i]],
           Record(r.pir, f.time[i], Estimate(f, Pir, i)),
           Record(r.light, f.time[i], Estimate(f, Light, i)),
           Record(r.sound, f.time[i], Estimate(f, Sound, i)),
           Record(r.co2, f.time[i], Estimate(f, Co2, i)))
  }

  /** The lists after the loop has visited rows 1 .. k-1: the event list
      holds the times of the transitions below k, in scan order, and each
      channel's two lists have equal length and are no longer than it. */
  function ReportBelow(f: Frame, k: nat): (r: Report)
    requires f.WellFormed() && k <= |f.time|
    ensures |r.trueChangeTimes| == |TransitionsBelow(f.occupancy, k)|
    ensures forall j :: 0 <= j < |r.trueChangeTimes| ==>
              r.trueChangeTimes[j] == f.time[TransitionsBelow(f.occupancy, k)[j]]
    ensures forall s :: |r.ChannelOf(s).latencies| == |r.ChannelOf(s).times| <= |r.trueChangeTimes|
  {
    if k <= 1 then Report([], Channel([], []), Channel([], []), Channel([], []), Channel([], []))
    else
      var r := ReportBelow(f, k - 1);
      if f.occupancy[k - 1] != f.occupancy[k - 2] then HandleEvent(r, f, k - 1) else r
  }

  /** The loop of lines 90-113. */
  method Aggregate(f: Frame) returns (report: Report)
    requires f.WellFormed()
    ensures report == Expected(f)
    ensures |report.trueChangeTimes| == |Transitions(f.occupancy)|
  {
    var n := |f.time|;
    var trueChangeTimes: seq<int> := [];
    var pir := Channel([], []);
    var light := Channel([], []);
    var sound := Channel([], []);
    var co2 := Channel([], []);
    if n > 0 {
      var i := 1;
      while i < n
        invariant 1 <= i <= n
        invariant Report(trueChangeTimes, pir, light, sound, co2) == ReportBelow(f, i)
      {
        var now := f.occupancy[i];
        var prev := f.occupancy[i - 1];
        if now != prev {
          var eventTime := f.time[i];
          var pirResult := PirLatency(f, i, PirWindow);
          var lightResult := LightLatency(f, i);
          var soundResult := SoundLatency(f, i);
          var co2Result := Co2Latency(f, i);
          trueChangeTimes := trueChangeTimes + [eventTime];
          pir := Record(pir, eventTime, pirResult);
          light := Record(light, eventTime, lightResult);
          sound := Record(sound, eventTime, soundResult);
          co2 := Record(co2, eventTime, co2Result);
        }
        i := i + 1;
      }
    }
    report := Report(trueChangeTimes, pir, light, sound, co2);
    ReportBelowHandlesTransitions(f, n);
  }

  /** Visiting rows 1 .. k-1 handles exactly the transitions below k, in order. */
  lemma {:induction false} ReportBelowHandlesTransitions(f: Frame, k: nat)
    requires f.WellFormed() && k <= |f.time|
    ensures forall j :: 0 <= j < |TransitionsBelow(f.occupancy, k)| ==> TransitionsBelow(f.occupancy, k)[j] < |f.time|
    ensures ReportBelow(f, k) == ReportOf(f, TransitionsBelow(f.occupancy, k))
  {
    TransitionsBelowIncreasing(f.occupancy, k);
    if k > 1 {
      ReportBelowHandlesTransitions(f, k - 1);
      var events := TransitionsBelow(f.occupancy, k - 1);
      var before := ReportBelow(f, k - 1);
      assert before == ReportOf(f, events);
      if f.occupancy[k - 1] != f.occupancy[k - 2] {
        assert TransitionsBelow(f.occupancy, k) == events + [k - 1];
        assert ReportBelow(f, k) == HandleEvent(before, f, k - 1);
        ReportStep(f, events, k - 1);
      } else {
        assert TransitionsBelow(f.occupancy, k) == events;
        assert ReportBelow(f, k) == before;
      }
    }
  }

  /** Each channel's two lists have equal length and are no longer than the
      event list. */
  lemma ReportOfAligned(f: Frame, events: seq<nat>)
    requires f.WellFormed() && forall k :: 0 <= k < |events| ==> events[k] < |f.time|
    ensures forall s :: |ReportOf(f, events).ChannelOf(s).latencies| == |ReportOf(f, events).ChannelOf(s).times|
                        <= |ReportOf(f, events).trueChangeTimes|
  {
    forall s ensures |ReportOf(f, events).ChannelOf(s).latencies| == |ReportOf(f, events).ChannelOf(s).times|
                     <= |ReportOf(f, events).trueChangeTimes| {
      DetectionsAligned(f, s, events);
      assert ReportOf(f, events).ChannelOf(s) == Detections(f, s, events);
    }
  }

  /** Handling one more event appends its time to the event list and
      records each of its four estimates. */
  lemma ReportStep(f: Frame, events: seq<nat>, i: nat)
    requires f.WellFormed() && i < |f.time|
    requires forall k :: 0 <= k < |events| ==> events[k] < |f.time|
    ensures ReportOf(f, events + [i]) == HandleEvent(ReportOf(f, events), f, i)
  {
    var more := events + [i];
    assert EventTimes(f, more) == EventTimes(f, events) + [f.time[i]];
    DetectionsStep(f, Pir, events, i);
    DetectionsStep(f, Light, events, i);
    DetectionsStep(f, Sound, events, i);
    DetectionsStep(f, Co2, events, i);
  }

  /** One more event adds that event's estimate to the channel's lists. */
  lemma DetectionsStep(f: Frame, s: Sensor, events: seq<nat>, i: nat)
    requires f.WellFormed() && i < |f.time|
    requires forall k :: 0 <= k < |events| ==> events[k] < |f.time|
    ensures Detections(f, s, events + [i]) == Record(Detections(f, s, events), f.time[i], Estimate(f, s, i))
  {
    assert (events + [i])[..|events|] == events;
  }

  /** Alignment: a channel's two lists grow together; entry k belongs to the
      k-th event the channel detected, its latency is that estimate and its
      time is that event's time plus the latency; there are never more
      entries than events. */
  lemma {:induction false} DetectionsAligned(f: Frame, s: Sensor, events: seq<nat>)
    requires f.WellFormed() && forall k :: 0 <= k < |events| ==> events[k] < |f.time|
    ensures |Detections(f, s, events).latencies| == |DetectedEvents(f, s, events)|
    ensures |Detections(f, s, events).times| == |DetectedEvents(f, s, events)|
    ensures |DetectedEvents(f, s, events)| <= |events|
    ensures forall k :: 0 <= k < |DetectedEvents(f, s, events)| ==>
              DetectedEvents(f, s, events)[k] < |f.time|
              && Estimate(f, s, DetectedEvents(f, s, events)[k])
                 == Detected(Detections(f, s, events).latencies[k])
              && Detections(f, s, events).times[k]
                 == f.time[DetectedEvents(f, s, events)[k]] + Detections(f, s, events).latencies[k]
  {
    if events != [] {
      DetectionsAligned(f, s, events[..|events| - 1]);
    }
  }

  /** The detected events are exactly the events whose estimate is not
      Undetected, kept in event order. */
  lemma {:induction false} DetectedEventsExact(f: Frame, s: Sensor, events: seq<nat>)
    requires f.WellFormed() && forall k :: 0 <= k < |events| ==> events[k] < |f.time|
    ensures forall e :: e in DetectedEvents(f, s, events) <==> e in events && Estimate(f, s, e).Detected?
    ensures (forall a, b :: 0 <= a < b < |events| ==> events[a] < events[b]) ==>
              forall a, b :: 0 <= a < b < |DetectedEvents(f, s, events)| ==>
                DetectedEvents(f, s, events)[a] < DetectedEvents(f, s, events)[b]
  {
    if events != [] {
      var init := events[..|events| - 1];
      DetectedEventsExact(f, s, init);
      assert events == init + [events[|events| - 1]];
      var d := DetectedEvents(f, s, init);
      if forall a, b :: 0 <= a < b < |events| ==> events[a] < events[b] {
        assert forall a :: 0 <= a < |d| ==> d[a] in init;
        assert forall x :: x in init ==> x < events[|events| - 1];
      }
    }
  }

  /** Every event time is recorded, whether or not any channel detected
      anything, and the recorded times are the events' times in order. */
  lemma EveryEventRecorded(f: Frame)
    requires f.WellFormed()
    ensures |Expected(f).trueChangeTimes| == |Transitions(f.occupancy)|
    ensures forall k :: 0 <= k < |Transitions(f.occupancy)| ==>
              Expected(f).trueChangeTimes[k] == f.time[Transitions(f.occupancy)[k]]
    ensures forall i :: 1 <= i < |f.time| && f.occupancy[i] != f.occupancy[i - 1] ==>
              f.time[i] in Expected(f).trueChangeTimes
  {
    var events := Transitions(f.occupancy);
    forall i | 1 <= i < |f.time| && f.occupancy[i] != f.occupancy[i - 1]
      ensures f.time[i] in Expected(f).trueChangeTimes
    {
      assert i in events;
      var k :| 0 <= k < |events| && events[k] == i;
      assert Expected(f).trueChangeTimes[k] == f.time[i];
    }
  }

  /** PIR_times holds event time + |latency|: for a PIR edge found before the
      event on a sorted frame, the recorded detection time lies after the
      event, mirrored from the edge's own time. */
  lemma EarlyPirEdgeRecordedAfterEvent(f: Frame, i: nat)
    requires f.WellFormed() && i < |f.time| && Sorted(f.time)
    requires EdgeSelection(f, i, PirWindow).Some?
    requires EdgeSelection(f, i, PirWindow).value < i
    ensures Record(Channel([], []), f.time[i], Estimate(f, Pir, i)).times
            == [2 * f.time[i] - f.time[EdgeSelection(f, i, PirWindow).value]]
  {
    EarlyEdgeGivesAbsoluteLatency(f, i, PirWindow);
  }

  /** With a constant occupancy column nothing is recorded at all. */
  lemma ConstantOccupancyEmptyReport(f: Frame)
    requires f.WellFormed()
    requires forall j :: 0 <= j < |f.occupancy| ==> f.occupancy[j] == f.occupancy[0]
    ensures Expected(f) == Report([], Channel([], []), Channel([], []), Channel([], []), Channel([], []))
  {
    ConstantHasNoTransitions(f.occupancy, |f.occupancy|);
  }
}

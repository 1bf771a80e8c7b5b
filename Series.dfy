/** The time-series store: the loaded, time-sorted occupancy data set.
    Each column is one sequence; position k of every column is row k of the
    frame after it has been sorted by time and re-indexed from 0. */
module Series {

  datatype Option<+T> = None | Some(value: T)

  /** One column per field the latency pipeline reads.
      time:      the combined Date + Time of each row, in whole seconds
      occupancy: Room_Occupancy_Count, the ground truth
      pir:       S6_PIR, a 0/1 motion indicator
      light:     S1_Light
      sound:     S1_Sound
      co2:       S5_CO2 */
  datatype Frame = Frame(
    time: seq<int>,
    occupancy: seq<int>,
    pir: seq<int>,
    light: seq<real>,
    sound: seq<real>,
    co2: seq<real>)
  {
    /** Every column has one entry per row. */
    predicate WellFormed()
    {
      |occupancy| == |time| && |pir| == |time| && |light| == |time|
      && |sound| == |time| && |co2| == |time|
    }
  }

  /** The frame is sorted ascending on its time column; equal times are allowed. */
  predicate Sorted(t: seq<int>)
  {
    forall j, k :: 0 <= j <= k < |t| ==> t[j] <= t[k]
  }

  function Abs(x: int): nat
  {
    if x < 0 then -x else x
  }

  function Min(a: int, b: int): int
  {
    if a <= b then a else b
  }

  function Max(a: int, b: int): int
  {
    if a >= b then a else b
  }
}

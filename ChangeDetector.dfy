/** The change detector: the positions where the ground-truth occupancy count
    differs from the row before (data_app.py lines 90-94). */
module ChangeDetector {

  /** Row i is a true occupancy change. Row 0 has no predecessor and is never one. */
  predicate IsTransition(occupancy: seq<int>, i: int)
  {
    1 <= i < |occupancy| && occupancy[i] != occupancy[i - 1]
  }

  /** The transitions among rows 0 .. k-1, in the order the forward scan meets them. */
  function TransitionsBelow(occupancy: seq<int>, k: nat): (r: seq<nat>)
    requires k <= |occupancy|
    ensures |r| < k || k == 0
    ensures forall j :: 0 <= j < |r| ==> r[j] < k && IsTransition(occupancy, r[j])
  {
    if k <= 1 then []
    else TransitionsBelow(occupancy, k - 1)
         + (if occupancy[k - 1] != occupancy[k - 2] then [k - 1] else [])
  }

  /** All transitions of the series: a transition is recorded at i exactly
      when 1 <= i < n and the count changes there (so never at row 0), and
      the events come in increasing row order. */
  function Transitions(occupancy: seq<int>): (r: seq<nat>)
    ensures forall i :: i in r <==> IsTransition(occupancy, i)
    ensures forall k :: 0 <= k < |r| ==> 1 <= r[k] < |occupancy|
    ensures forall a, b :: 0 <= a < b < |r| ==> r[a] < r[b]
  {
    TransitionsBelowMembers(occupancy, |occupancy|);
    TransitionsBelowIncreasing(occupancy, |occupancy|);
    TransitionsBelow(occupancy, |occupancy|)
  }

  /** The scan below k emits exactly the transitions below k. */
  lemma {:induction false} TransitionsBelowMembers(occupancy: seq<int>, k: nat)
    requires k <= |occupancy|
    ensures forall i :: i in TransitionsBelow(occupancy, k) <==> i < k && IsTransition(occupancy, i)
  {
    if k > 1 {
      TransitionsBelowMembers(occupancy, k - 1);
      var prev := TransitionsBelow(occupancy, k - 1);
      var tail: seq<nat> := if occupancy[k - 1] != occupancy[k - 2] then [k - 1] else [];
      assert TransitionsBelow(occupancy, k) == prev + tail;
      forall i ensures i in prev + tail <==> i < k && IsTransition(occupancy, i) {
        assert i in prev + tail <==> i in prev || i in tail;
      }
    }
  }

  /** The scan below k emits its rows in strictly increasing order. */
  lemma {:induction false} TransitionsBelowIncreasing(occupancy: seq<int>, k: nat)
    requires k <= |occupancy|
    ensures forall a, b :: 0 <= a < b < |TransitionsBelow(occupancy, k)| ==>
              TransitionsBelow(occupancy, k)[a] < TransitionsBelow(occupancy, k)[b]
  {
    if k > 1 {
      TransitionsBelowIncreasing(occupancy, k - 1);
      var prev := TransitionsBelow(occupancy, k - 1);
      var tail: seq<nat> := if occupancy[k - 1] != occupancy[k - 2] then [k - 1] else [];
      var all := prev + tail;
      assert TransitionsBelow(occupancy, k) == all;
      assert forall a :: 0 <= a < |all| ==> all[a] == if a < |prev| then prev[a] else k - 1;
    }
  }

  /** A constant occupancy column yields no events (the aggregator then records nothing). */
  lemma {:induction false} ConstantHasNoTransitions(occupancy: seq<int>, k: nat)
    requires k <= |occupancy|
    requires forall j :: 0 <= j < |occupancy| ==> occupancy[j] == occupancy[0]
    ensures TransitionsBelow(occupancy, k) == []
  {
    if k > 1 {
      ConstantHasNoTransitions(occupancy, k - 1);
    }
  }

  /** Occupancy 0, 0, 1, 1, 0 changes at rows 2 and 4. */
  lemma OccupancyExample()
    ensures Transitions([0, 0, 1, 1, 0]) == [2, 4]
  {
    var occupancy := [0, 0, 1, 1, 0];
    assert TransitionsBelow(occupancy, 2) == [];
    assert TransitionsBelow(occupancy, 3) == [2];
    assert TransitionsBelow(occupancy, 4) == [2];
  }
}

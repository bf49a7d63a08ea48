/** The two-sided sweep over device-event intervals of two co-running models.  The offsets are floats
    and so whole multiples of one small tick; the model counts in ticks. */
module TwoSidedSweep {
  import opened Wrappers
  import opened Ordering
  import opened Utf8
  import opened Sweep

  const SIDE_A: Text := [0x61]
  const SIDE_B: Text := [0x62]

  function Labelled(intervals: seq<(int, int)>, side: Text): (rows: seq<Row>)
    ensures |rows| == |intervals|
  {
    seq(|intervals|, i requires 0 <= i < |intervals| => Row(intervals[i].0, intervals[i].1, side))
  }

  function BothSides(a: seq<(int, int)>, b: seq<(int, int)>): seq<Row> {
    Labelled(a, SIDE_A) + Labelled(b, SIDE_B)
  }

  ghost predicate Ordered(intervals: seq<(int, int)>) {
    forall i :: 0 <= i < |intervals| ==> intervals[i].0 <= intervals[i].1
  }

  ghost predicate Bounded(intervals: seq<(int, int)>, lo: int, hi: int) {
    forall i :: 0 <= i < |intervals| ==> lo <= intervals[i].0 && intervals[i].1 <= hi
  }

  /** `coverage(intervals_a, intervals_b)`, with its two-entry dict of live counts: the general sweep
      on two labels. */
  method Coverage(a: seq<(int, int)>, b: seq<(int, int)>) returns (busy: int, both: int)
    ensures busy == Total(SortedEvents(BothSides(a, b)), 1)
    ensures both == Total(SortedEvents(BothSides(a, b)), 2)
  {
    var events := BuildEvents(BothSides(a, b));
    events := Sort(EventLeq, events);
    EventsSorted(BothSides(a, b));
    SidesOnly(a, b);
    busy, both := SweepSides(events);
  }

  /** The event loop. */
  method SweepSides(events: seq<Event>) returns (busy: int, both: int)
    requires StampSorted(events)
    requires forall i :: 0 <= i < |events| ==> events[i].queue == SIDE_A || events[i].queue == SIDE_B
    ensures busy == Total(events, 1) && both == Total(events, 2)
  {
    hide Net, LiveQueues, SideCounts, Total;
    var liveA, liveB := 0, 0;
    busy, both := 0, 0;
    var previous: Option<int> := None;
    StartSides();
    NoTotal(1);
    NoTotal(2);
    assert events[..0] == [];
    for i := 0 to |events|
      invariant SideCounts(events[..i], liveA, liveB)
      invariant previous == if i == 0 then None else Some(events[i-1].stamp)
      invariant busy == Total(events[..i], 1) && both == Total(events[..i], 2)
    {
      var e := events[i];
      assert events[..i+1] == events[..i] + [e];
      TotalStep(events, i, 1);
      TotalStep(events, i, 2);
      if previous.Some? && e.stamp > previous.value {
        var span := e.stamp - previous.value;
        var sides := (if liveA > 0 then 1 else 0) + (if liveB > 0 then 1 else 0);
        SidesLive(events[..i], liveA, liveB);
        if sides >= 1 {
          busy := busy + span;
        }
        if sides == 2 {
          both := both + span;
        }
      }
      SideStep(events[..i], e, liveA, liveB);
      if e.queue == SIDE_A {
        liveA := liveA + e.delta;
      } else {
        liveB := liveB + e.delta;
      }
      previous := Some(e.stamp);
    }
    assert events[..|events|] == events;
  }

  ghost predicate SideCounts(events: seq<Event>, liveA: int, liveB: int) {
    && Net(events, SIDE_A) == liveA && Net(events, SIDE_B) == liveB
    && forall j :: 0 <= j < |events| ==> events[j].queue == SIDE_A || events[j].queue == SIDE_B
  }

  lemma StartSides()
    ensures SideCounts([], 0, 0)
  {
  }

  lemma SideStep(events: seq<Event>, e: Event, liveA: int, liveB: int)
    requires SideCounts(events, liveA, liveB) && (e.queue == SIDE_A || e.queue == SIDE_B)
    ensures if e.queue == SIDE_A then SideCounts(events + [e], liveA + e.delta, liveB)
            else SideCounts(events + [e], liveA, liveB + e.delta)
  {
    assert (events + [e])[..|events|] == events;
    assert SIDE_A[0] != SIDE_B[0];
  }

  lemma SidesLive(events: seq<Event>, liveA: int, liveB: int)
    requires SideCounts(events, liveA, liveB)
    ensures |LiveQueues(events)| == (if liveA > 0 then 1 else 0) + (if liveB > 0 then 1 else 0)
  {
    QueuesWithNet(events, SIDE_A);
    QueuesWithNet(events, SIDE_B);
    assert SIDE_A[0] != SIDE_B[0];
    var live := (if liveA > 0 then {SIDE_A} else {}) + (if liveB > 0 then {SIDE_B} else {});
    forall q ensures q in LiveQueues(events) <==> q in live {
    }
    assert LiveQueues(events) == live;
  }

  lemma SidesOnly(a: seq<(int, int)>, b: seq<(int, int)>)
    ensures forall e :: e in SortedEvents(BothSides(a, b)) ==> e.queue == SIDE_A || e.queue == SIDE_B
  {
    var rows := BothSides(a, b);
    SameMembers(SortedEvents(rows), EventsOf(rows));
    forall e | e in EventsOf(rows) ensures e.queue == SIDE_A || e.queue == SIDE_B {
      EventsFrom(rows, e);
    }
  }

  // ----- The measures of the two sides

  function RunningAt(intervals: seq<(int, int)>, t: int): bool {
    exists i :: 0 <= i < |intervals| && intervals[i].0 <= t < intervals[i].1
  }

  /** Instants of `lo <= t < hi` with the side inside a step. */
  function Busy(intervals: seq<(int, int)>, lo: int, hi: int): nat
    decreases hi - lo
  {
    if hi <= lo then 0 else Busy(intervals, lo, hi - 1) + if RunningAt(intervals, hi - 1) then 1 else 0
  }

  /** Instants with both sides inside a step. */
  function BusyTogether(a: seq<(int, int)>, b: seq<(int, int)>, lo: int, hi: int): nat
    decreases hi - lo
  {
    if hi <= lo then 0
    else BusyTogether(a, b, lo, hi - 1) + if RunningAt(a, hi - 1) && RunningAt(b, hi - 1) then 1 else 0
  }

  lemma SidesActive(a: seq<(int, int)>, b: seq<(int, int)>, t: int)
    ensures |ActiveAt(BothSides(a, b), t)| == (if RunningAt(a, t) then 1 else 0) + (if RunningAt(b, t) then 1 else 0)
  {
    var rows := BothSides(a, b);
    assert forall i :: 0 <= i < |a| ==> rows[i] == Row(a[i].0, a[i].1, SIDE_A);
    assert forall i :: 0 <= i < |b| ==> rows[|a| + i] == Row(b[i].0, b[i].1, SIDE_B);
    assert SIDE_A[0] != SIDE_B[0];
    var active := (if RunningAt(a, t) then {SIDE_A} else {}) + (if RunningAt(b, t) then {SIDE_B} else {});
    forall q ensures q in ActiveAt(rows, t) <==> q in active {
      if q in ActiveAt(rows, t) {
        var i :| 0 <= i < |rows| && rows[i].start <= t < rows[i].end && rows[i].queue == q;
        if i < |a| {
          assert RunningAt(a, t);
        } else {
          assert rows[i] == Row(b[i - |a|].0, b[i - |a|].1, SIDE_B);
          assert RunningAt(b, t);
        }
      }
    }
    assert ActiveAt(rows, t) == active;
  }

  lemma {:induction false} SidesMeasure(a: seq<(int, int)>, b: seq<(int, int)>, lo: int, hi: int)
    ensures Instants(BothSides(a, b), 2, lo, hi) == BusyTogether(a, b, lo, hi) == BusyTogether(b, a, lo, hi)
    ensures Instants(BothSides(a, b), 1, lo, hi) + BusyTogether(a, b, lo, hi) == Busy(a, lo, hi) + Busy(b, lo, hi)
    decreases hi - lo
  {
    if lo < hi {
      SidesMeasure(a, b, lo, hi - 1);
      SidesActive(a, b, hi - 1);
    }
  }

  /** The two-sided sweep measures exactly the time both sides run; busy and overlapped together are
      the two sides' own busy times; and which side is called `a` makes no difference. */
  lemma CoverageExact(a: seq<(int, int)>, b: seq<(int, int)>, lo: int, hi: int)
    requires Ordered(a) && Ordered(b) && lo <= hi && Bounded(a, lo, hi) && Bounded(b, lo, hi)
    ensures var busy, both := Total(SortedEvents(BothSides(a, b)), 1), Total(SortedEvents(BothSides(a, b)), 2);
            && both == BusyTogether(a, b, lo, hi)
            && busy + both == Busy(a, lo, hi) + Busy(b, lo, hi)
            && busy == Total(SortedEvents(BothSides(b, a)), 1)
            && both == Total(SortedEvents(BothSides(b, a)), 2)
  {
    Sweep.CoverageExact(BothSides(a, b), lo, hi);
    Sweep.CoverageExact(BothSides(b, a), lo, hi);
    SidesMeasure(a, b, lo, hi);
    SidesMeasure(b, a, lo, hi);
  }
}

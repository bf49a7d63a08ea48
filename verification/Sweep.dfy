/** The endpoint sweep over kernel intervals on many queues (`coverage`), against a plain count of the
    instants at which queues are live.  Timestamps are whole nanoseconds. */
module Sweep {
  import opened Wrappers
  import opened Ordering
  import opened Utf8

  datatype Row = Row(start: int, end: int, queue: Text)

  datatype Event = Event(stamp: int, delta: int, queue: Text)

  /** Tuple order: at one stamp the ends (-1) come before the starts (+1). */
  predicate EventLeq(a: Event, b: Event) {
    if a.stamp != b.stamp then a.stamp < b.stamp
    else if a.delta != b.delta then a.delta < b.delta
    else LexLeq(a.queue, b.queue)
  }

  function Opening(row: Row): Event { Event(row.start, 1, row.queue) }

  function Closing(row: Row): Event { Event(row.end, -1, row.queue) }

  function EventsOf(rows: seq<Row>): seq<Event> {
    if rows == [] then []
    else EventsOf(rows[..|rows|-1]) + [Opening(rows[|rows|-1]), Closing(rows[|rows|-1])]
  }

  function SortedEvents(rows: seq<Row>): seq<Event> { Sort(EventLeq, EventsOf(rows)) }

  // ----- The specification: instants with at least `k` queues live

  function ActiveAt(rows: seq<Row>, t: int): set<Text> {
    set i | 0 <= i < |rows| && rows[i].start <= t < rows[i].end :: rows[i].queue
  }

  /** How many instants `t` of `lo <= t < hi` have at least `k` distinct queues running. */
  function Instants(rows: seq<Row>, k: nat, lo: int, hi: int): nat
    decreases hi - lo
  {
    if hi <= lo then 0
    else Instants(rows, k, lo, hi - 1) + if |ActiveAt(rows, hi - 1)| >= k then 1 else 0
  }

  ghost predicate Forward(rows: seq<Row>) { forall i :: 0 <= i < |rows| ==> rows[i].start <= rows[i].end }

  ghost predicate Spans(rows: seq<Row>, lo: int, hi: int) {
    forall i :: 0 <= i < |rows| ==> lo <= rows[i].start && rows[i].end <= hi
  }

  // ----- What the sweep adds up

  /** Starts minus ends of one queue. */
  function Net(events: seq<Event>, queue: Text): int {
    if events == [] then 0
    else
      var last := events[|events|-1];
      Net(events[..|events|-1], queue) + if last.queue == queue then last.delta else 0
  }

  function LiveQueues(events: seq<Event>): set<Text> {
    set i | 0 <= i < |events| && Net(events, events[i].queue) > 0 :: events[i].queue
  }

  /** The spans between neighbouring events with at least `k` live counts above zero. */
  function Total(events: seq<Event>, k: nat): int {
    if |events| <= 1 then 0
    else
      var front := events[..|events|-1];
      Total(front, k)
      + if |LiveQueues(front)| >= k then events[|events|-1].stamp - events[|events|-2].stamp else 0
  }

  lemma TotalStep(events: seq<Event>, i: nat, k: nat)
    requires i < |events|
    ensures Total(events[..i+1], k) ==
              if i > 0 && |LiveQueues(events[..i])| >= k
              then Total(events[..i], k) + (events[i].stamp - events[i-1].stamp)
              else Total(events[..i], k)
  {
    assert events[..i+1][..i] == events[..i];
  }

  lemma NoTotal(k: nat)
    ensures Total([], k) == 0
  {
  }

  ghost predicate StampSorted(events: seq<Event>) {
    forall i, j :: 0 <= i < j < |events| ==> events[i].stamp <= events[j].stamp
  }

  lemma EventsSorted(rows: seq<Row>)
    ensures StampSorted(SortedEvents(rows))
  {
    LexIsTotalOrder();
    SortSorted(EventLeq, EventsOf(rows));
  }

  /** Tuple order, told on the fields: at one stamp the ends come first, and then the queues ascend. */
  ghost predicate EventBefore(a: Event, b: Event) {
    || a.stamp < b.stamp
    || (a.stamp == b.stamp && a.delta < b.delta)
    || (a.stamp == b.stamp && a.delta == b.delta && Precedes(a.queue, b.queue))
  }

  ghost predicate EventsAscend(events: seq<Event>) {
    forall i, j :: 0 <= i < j < |events| ==> EventBefore(events[i], events[j])
  }

  lemma EventsInOrder(rows: seq<Row>)
    ensures EventsAscend(SortedEvents(rows))
  {
    var events := SortedEvents(rows);
    LexIsTotalOrder();
    SortSorted(EventLeq, EventsOf(rows));
    hide Sort, EventsOf, Precedes;
    forall i, j | 0 <= i < j < |events| ensures EventBefore(events[i], events[j]) {
      assert EventLeq(events[i], events[j]);
      LexByIndex(events[i].queue, events[j].queue);
    }
  }

  method BuildEvents(rows: seq<Row>) returns (events: seq<Event>)
    ensures events == EventsOf(rows)
  {
    events := [];
    for i := 0 to |rows|
      invariant events == EventsOf(rows[..i])
    {
      assert rows[..i+1][..i] == rows[..i];
      events := events + [Opening(rows[i])];
      events := events + [Closing(rows[i])];
    }
    assert rows[..|rows|] == rows;
  }

  /** `coverage`. */
  method Coverage(rows: seq<Row>) returns (busy: int, overlapped: int)
    ensures busy == Total(SortedEvents(rows), 1)
    ensures overlapped == Total(SortedEvents(rows), 2)
  {
    var events := BuildEvents(rows);
    events := Sort(EventLeq, events);
    EventsSorted(rows);
    busy, overlapped := SweepEvents(events);
  }

  /** The event loop. */
  method SweepEvents(events: seq<Event>) returns (busy: int, overlapped: int)
    requires StampSorted(events)
    ensures busy == Total(events, 1) && overlapped == Total(events, 2)
  {
    var live: map<Text, int> := map[];
    busy, overlapped := 0, 0;
    var previous: Option<int> := None;
    hide Net, LiveQueues, Tracks, Total;
    StartTracking();
    NoTotal(1);
    NoTotal(2);
    assert events[..0] == [];
    for i := 0 to |events|
      invariant Tracks(live, events[..i])
      invariant previous == if i == 0 then None else Some(events[i-1].stamp)
      invariant busy == Total(events[..i], 1) && overlapped == Total(events[..i], 2)
    {
      var e := events[i];
      assert events[..i+1] == events[..i] + [e];
      TotalStep(events, i, 1);
      TotalStep(events, i, 2);
      if previous.Some? && e.stamp > previous.value {
        var span := e.stamp - previous.value;
        var running := set q | q in live && live[q] > 0;
        LiveIsRunning(events[..i], live);
        if |running| >= 1 {
          busy := busy + span;
        }
        if |running| >= 2 {
          overlapped := overlapped + span;
        }
      }
      TrackStep(events[..i], e, live);
      live := live[e.queue := (if e.queue in live then live[e.queue] else 0) + e.delta];
      previous := Some(e.stamp);
    }
    assert events[..|events|] == events;
  }

  ghost predicate Seen(events: seq<Event>, queue: Text) {
    exists j :: 0 <= j < |events| && events[j].queue == queue
  }

  /** `live` holds the net count of exactly the queues seen so far. */
  ghost predicate Tracks(live: map<Text, int>, events: seq<Event>) {
    && (forall q :: q in live <==> Seen(events, q))
    && (forall q :: Net(events, q) == if q in live then live[q] else 0)
  }

  lemma StartTracking()
    ensures Tracks(map[], [])
  {
  }

  lemma TrackStep(events: seq<Event>, e: Event, live: map<Text, int>)
    requires Tracks(live, events)
    ensures Tracks(live[e.queue := (if e.queue in live then live[e.queue] else 0) + e.delta], events + [e])
  {
    var all := events + [e];
    assert all[..|events|] == events && all[|events|] == e;
    forall q ensures Seen(all, q) <==> q == e.queue || Seen(events, q) {
      assert all[|events|].queue == e.queue;
      if Seen(events, q) {
        var j :| 0 <= j < |events| && events[j].queue == q;
        assert all[j].queue == q;
      }
    }
  }

  lemma LiveIsRunning(events: seq<Event>, live: map<Text, int>)
    requires Tracks(live, events)
    ensures (set q | q in live && live[q] > 0) == LiveQueues(events)
  {
    forall q | q in live && live[q] > 0 ensures q in LiveQueues(events) {
      var j :| 0 <= j < |events| && events[j].queue == q;
    }
  }

  // ----- Net counts do not depend on the order of events

  /** Starts minus ends of one queue up to an instant. */
  function NetUpTo(events: seq<Event>, queue: Text, t: int): int {
    if events == [] then 0
    else
      var last := events[|events|-1];
      NetUpTo(events[..|events|-1], queue, t) + if last.queue == queue && last.stamp <= t then last.delta else 0
  }

  lemma {:induction false} NetUpToConcat(a: seq<Event>, b: seq<Event>, queue: Text, t: int)
    ensures NetUpTo(a + b, queue, t) == NetUpTo(a, queue, t) + NetUpTo(b, queue, t)
  {
    if b == [] {
      assert a + b == a;
    } else {
      NetUpToConcat(a, b[..|b|-1], queue, t);
      assert (a + b)[..|a+b|-1] == a + b[..|b|-1];
    }
  }

  lemma {:induction false} NetUpToPermutation(a: seq<Event>, b: seq<Event>, queue: Text, t: int)
    requires multiset(a) == multiset(b)
    ensures NetUpTo(a, queue, t) == NetUpTo(b, queue, t)
    decreases |a|
  {
    SameMembers(a, b);
    if a != [] {
      var e, front := a[|a|-1], a[..|a|-1];
      assert a[..|a|-1] + a[|a|..] == front && e in b;
      var k :| 0 <= k < |b| && b[k] == e;
      var left, right := b[..k], b[k+1..];
      assert b == left + [e] + right;
      TakeOut(a, |a| - 1, b, k);
      NetUpToPermutation(front, left + right, queue, t);
      NetUpToConcat(left, [e], queue, t);
      NetUpToConcat(left + [e], right, queue, t);
      NetUpToConcat(left, right, queue, t);
      assert [e][..0] == [];
    }
  }

  lemma {:induction false} NetAll(events: seq<Event>, queue: Text, t: int)
    requires forall i :: 0 <= i < |events| ==> events[i].stamp <= t
    ensures NetUpTo(events, queue, t) == Net(events, queue)
  {
    if events != [] {
      NetAll(events[..|events|-1], queue, t);
    }
  }

  lemma {:induction false} NetNone(events: seq<Event>, queue: Text, t: int)
    requires forall i :: 0 <= i < |events| ==> events[i].stamp > t
    ensures NetUpTo(events, queue, t) == 0
  {
    if events != [] {
      NetNone(events[..|events|-1], queue, t);
    }
  }

  /** Between two stamps the counts are those of the events already swept. */
  lemma NetBetween(events: seq<Event>, i: nat, queue: Text, t: int)
    requires StampSorted(events) && 0 < i < |events| && events[i-1].stamp <= t < events[i].stamp
    ensures Net(events[..i], queue) == NetUpTo(events, queue, t)
  {
    hide Net, NetUpTo;
    assert forall j :: i <= j < |events| ==> events[i].stamp <= events[j].stamp;
    assert forall j :: 0 <= j < i ==> events[j].stamp <= events[i-1].stamp;
    NetAll(events[..i], queue, t);
    NetNone(events[i..], queue, t);
    NetUpToConcat(events[..i], events[i..], queue, t);
    assert events == events[..i] + events[i..];
  }

  /** A queue's count at an instant is positive exactly when one of its kernels is running. */
  lemma {:induction false} NetOfRows(rows: seq<Row>, queue: Text, t: int)
    requires Forward(rows)
    ensures NetUpTo(EventsOf(rows), queue, t) >= 0
    ensures NetUpTo(EventsOf(rows), queue, t) > 0 <==> queue in ActiveAt(rows, t)
  {
    if rows != [] {
      var front, row := rows[..|rows|-1], rows[|rows|-1];
      var events := EventsOf(rows);
      NetOfRows(front, queue, t);
      assert events[..|events|-1] == EventsOf(front) + [Opening(row)];
      assert (EventsOf(front) + [Opening(row)])[..|events|-2] == EventsOf(front);
      ActiveSnoc(front, row, t);
      assert rows == front + [row];
    }
  }

  lemma ActiveSnoc(rows: seq<Row>, row: Row, t: int)
    ensures ActiveAt(rows + [row], t) == ActiveAt(rows, t) + if row.start <= t < row.end then {row.queue} else {}
  {
    var all := rows + [row];
    assert all[|rows|] == row;
    assert forall i :: 0 <= i < |rows| ==> all[i] == rows[i];
  }

  // ----- Exactness

  lemma {:induction false} QueuesWithNet(events: seq<Event>, queue: Text)
    ensures Net(events, queue) != 0 ==> exists j :: 0 <= j < |events| && events[j].queue == queue
  {
    if events != [] && events[|events|-1].queue != queue {
      QueuesWithNet(events[..|events|-1], queue);
    }
  }

  lemma LiveIsActive(rows: seq<Row>, events: seq<Event>, i: nat, t: int)
    requires Forward(rows) && StampSorted(events) && multiset(events) == multiset(EventsOf(rows))
    requires 0 < i < |events| && events[i-1].stamp <= t < events[i].stamp
    ensures LiveQueues(events[..i]) == ActiveAt(rows, t)
  {
    forall q ensures q in LiveQueues(events[..i]) <==> q in ActiveAt(rows, t) {
      NetBetween(events, i, q, t);
      NetUpToPermutation(events, EventsOf(rows), q, t);
      NetOfRows(rows, q, t);
      QueuesWithNet(events[..i], q);
    }
  }

  lemma {:induction false} InstantsConstant(rows: seq<Row>, k: nat, lo: int, hi: int, n: nat)
    requires lo <= hi && forall t :: lo <= t < hi ==> |ActiveAt(rows, t)| == n
    ensures Instants(rows, k, lo, hi) == if n >= k then hi - lo else 0
    decreases hi - lo
  {
    if lo < hi {
      InstantsConstant(rows, k, lo, hi - 1, n);
    }
  }

  lemma {:induction false} InstantsSplit(rows: seq<Row>, k: nat, lo: int, mid: int, hi: int)
    requires lo <= mid <= hi
    ensures Instants(rows, k, lo, hi) == Instants(rows, k, lo, mid) + Instants(rows, k, mid, hi)
    decreases hi - mid
  {
    if mid < hi {
      InstantsSplit(rows, k, lo, mid, hi - 1);
    }
  }

  /** The partial sums of any sweep whose events come in order of stamp. */
  lemma {:induction false} PrefixExact(rows: seq<Row>, events: seq<Event>, k: nat, i: nat)
    requires Forward(rows) && StampSorted(events) && multiset(events) == multiset(EventsOf(rows))
    requires 0 < i <= |events|
    ensures Total(events[..i], k) == Instants(rows, k, events[0].stamp, events[i-1].stamp)
  {
    if i > 1 {
      var before, here := events[i-2].stamp, events[i-1].stamp;
      assert events[..i][..i-1] == events[..i-1];
      PrefixExact(rows, events, k, i - 1);
      forall t | before <= t < here ensures |ActiveAt(rows, t)| == |LiveQueues(events[..i-1])| {
        LiveIsActive(rows, events, i - 1, t);
      }
      InstantsConstant(rows, k, before, here, |LiveQueues(events[..i-1])|);
      InstantsSplit(rows, k, events[0].stamp, before, here);
    }
  }

  lemma {:induction false} EventsCover(rows: seq<Row>, i: nat)
    requires i < |rows|
    ensures Opening(rows[i]) in EventsOf(rows) && Closing(rows[i]) in EventsOf(rows)
  {
    if i < |rows| - 1 {
      EventsCover(rows[..|rows|-1], i);
    }
  }

  lemma {:induction false} EventsFrom(rows: seq<Row>, e: Event)
    requires e in EventsOf(rows)
    ensures exists i :: 0 <= i < |rows| && (e == Opening(rows[i]) || e == Closing(rows[i]))
  {
    var front := rows[..|rows|-1];
    if e in EventsOf(front) {
      EventsFrom(front, e);
      var i :| 0 <= i < |front| && (e == Opening(front[i]) || e == Closing(front[i]));
      assert rows[i] == front[i];
    }
  }

  lemma NoEvents()
    ensures EventsOf([]) == []
  {
  }

  /** Whatever order ties are broken in, the sweep measures the instants with `k` queues live. */
  lemma SweepExact(rows: seq<Row>, events: seq<Event>, k: nat, lo: int, hi: int)
    requires Forward(rows) && StampSorted(events) && multiset(events) == multiset(EventsOf(rows))
    requires k >= 1 && lo <= hi && Spans(rows, lo, hi)
    ensures Total(events, k) == Instants(rows, k, lo, hi)
  {
    hide Total, Instants, EventsOf;
    SameMembers(events, EventsOf(rows));
    if rows == [] {
      assert EventsOf([]) == [] by { NoEvents(); }
      assert Total(events, k) == 0 by { NoTotal(k); }
      assert |events| == 0;
      InstantsConstant(rows, k, lo, hi, 0);
    } else {
      EventsCover(rows, 0);
      var first, last := events[0].stamp, events[|events|-1].stamp;
      forall e | e in events ensures lo <= e.stamp <= hi {
        EventsFrom(rows, e);
        var i :| 0 <= i < |rows| && (e == Opening(rows[i]) || e == Closing(rows[i]));
      }
      forall t | t < first || t >= last ensures ActiveAt(rows, t) == {} {
        forall i | 0 <= i < |rows| ensures !(rows[i].start <= t < rows[i].end) {
          EventsCover(rows, i);
          assert Opening(rows[i]) in events && Closing(rows[i]) in events;
        }
      }
      assert events[0] in events && events[|events|-1] in events;
      assert events[..|events|] == events;
      PrefixExact(rows, events, k, |events|);
      InstantsConstant(rows, k, lo, first, 0);
      InstantsConstant(rows, k, last, hi, 0);
      InstantsSplit(rows, k, lo, first, last);
      InstantsSplit(rows, k, lo, last, hi);
    }
  }

  /** `coverage` is exact on every set of intervals with start <= end, zero-length ones included. */
  lemma CoverageExact(rows: seq<Row>, lo: int, hi: int)
    requires Forward(rows) && lo <= hi && Spans(rows, lo, hi)
    ensures Total(SortedEvents(rows), 1) == Instants(rows, 1, lo, hi)
    ensures Total(SortedEvents(rows), 2) == Instants(rows, 2, lo, hi)
  {
    EventsSorted(rows);
    SweepExact(rows, SortedEvents(rows), 1, lo, hi);
    SweepExact(rows, SortedEvents(rows), 2, lo, hi);
  }
}

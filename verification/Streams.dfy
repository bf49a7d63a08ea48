/** Device streams as FIFO queues with record and wait events, and the order in which an adapter's steps
    run when the runtime moves it from stream to stream.  Whether the default stream also synchronises
    with the masked ones by itself (a legacy default stream beside blocking streams) is a property of
    the device runtime that the adapters leave open, so it is a parameter: `legacy`. */
module Streams {
  import opened Wrappers

  /** A stream handle; None is the default stream a single-tenant run uses. */
  type Stream = Option<nat>

  datatype Op =
    | Launch(stream: Stream, step: nat)
    | Record(stream: Stream, event: nat)
    | Wait(stream: Stream, event: nat)

  /** One operation must finish before a later one starts: same queue, a wait on a recorded event, or
      the default stream against any other when it is a legacy one. */
  predicate Edge(legacy: bool, a: Op, b: Op) {
    || a.stream == b.stream
    || (a.Record? && b.Wait? && a.event == b.event)
    || (legacy && (a.stream.None? || b.stream.None?))
  }

  /** Happens-before between positions of the log of issued operations. */
  ghost predicate Before(legacy: bool, log: seq<Op>, i: nat, j: nat)
    requires i < |log| && j < |log|
    decreases j
  {
    i == j || exists k :: i <= k < j && Edge(legacy, log[k], log[j]) && Before(legacy, log, i, k)
  }

  /** The last non-null stream, which is what `_previous_stream` holds. */
  function Previous(streams: seq<Stream>): Stream {
    if streams == [] then None
    else if streams[|streams|-1].Some? then streams[|streams|-1]
    else Previous(streams[..|streams|-1])
  }

  /** What one step issues: a handover when the stream changes, then its work. */
  function Issued(previous: Stream, current: Stream, step: nat): seq<Op> {
    (if current.Some? && previous.Some? && current != previous
     then [Record(previous, step), Wait(current, step)] else [])
    + [Launch(current, step)]
  }

  /** The log of an adapter that ran its steps on these streams, in this order. */
  function Log(streams: seq<Stream>): seq<Op> {
    if streams == [] then []
    else
      var n := |streams| - 1;
      Log(streams[..n]) + Issued(Previous(streams[..n]), streams[n], n)
  }

  /** Where step i's work is in the log. */
  function LaunchOf(streams: seq<Stream>, i: nat): (p: nat)
    requires i < |streams|
    ensures p < |Log(streams)| && Log(streams)[p] == Launch(streams[i], i)
    decreases |streams|
  {
    var n := |streams| - 1;
    if i == n then |Log(streams)| - 1 else LaunchOf(streams[..n], i)
  }

  ghost predicate StepsOrdered(legacy: bool, streams: seq<Stream>) {
    forall i, j :: 0 <= i < j < |streams| ==> Before(legacy, Log(streams), LaunchOf(streams, i), LaunchOf(streams, j))
  }

  ghost predicate AllNull(streams: seq<Stream>) { forall i :: 0 <= i < |streams| ==> streams[i].None? }

  ghost predicate NoneNull(streams: seq<Stream>) { forall i :: 0 <= i < |streams| ==> streams[i].Some? }

  /** The last step before `n` that had a masked stream. */
  ghost predicate LastMasked(streams: seq<Stream>, n: nat, i: nat) {
    i < n <= |streams| && streams[i].Some? && forall j :: i < j < n ==> streams[j].None?
  }

  lemma {:induction false} PreviousIs(streams: seq<Stream>, i: nat)
    requires LastMasked(streams, |streams|, i)
    ensures Previous(streams) == streams[i]
  {
    var n := |streams| - 1;
    if i < n {
      PreviousIs(streams[..n], i);
    }
  }

  lemma {:induction false} PreviousNone(streams: seq<Stream>)
    requires forall i :: 0 <= i < |streams| ==> streams[i].None?
    ensures Previous(streams) == None
  {
    if streams != [] {
      PreviousNone(streams[..|streams|-1]);
    }
  }

  /** A step adds its launch alone, unless it has a masked stream other than the last masked one: then an
      event is recorded on that one and waited for on its own, just before the launch. */
  lemma HandoverExactly(streams: seq<Stream>, stream: Stream)
    ensures var n := |streams|;
            var more := Log(streams + [stream])[|Log(streams)|..];
            && Log(streams) <= Log(streams + [stream])
            && (forall i: nat :: LastMasked(streams, n, i) && stream.Some? && stream != streams[i] ==>
                  more == [Record(streams[i], n), Wait(stream, n), Launch(stream, n)])
            && (forall i: nat :: LastMasked(streams, n, i) && (stream.None? || stream == streams[i]) ==>
                  more == [Launch(stream, n)])
            && (AllNull(streams) ==> more == [Launch(stream, n)])
  {
    var n := |streams|;
    assert (streams + [stream])[..n] == streams && streams[..n] == streams;
    forall i: nat | LastMasked(streams, n, i) ensures Previous(streams) == streams[i] {
      PreviousIs(streams, i);
    }
    if AllNull(streams) {
      PreviousNone(streams);
    }
    assert Log(streams + [stream]) == Log(streams) + Issued(Previous(streams), stream, n);
    hide Log, Previous;
  }

  lemma {:induction false} BeforeTransitive(legacy: bool, log: seq<Op>, i: nat, j: nat, k: nat)
    requires i < |log| && j < |log| && k < |log| && Before(legacy, log, i, j) && Before(legacy, log, j, k)
    ensures Before(legacy, log, i, k)
    decreases k
  {
    if j != k {
      var m :| j <= m < k && Edge(legacy, log[m], log[k]) && Before(legacy, log, j, m);
      BeforeTransitive(legacy, log, i, j, m);
      BeforeForward(legacy, log, i, m);
    }
  }

  lemma BeforeForward(legacy: bool, log: seq<Op>, i: nat, j: nat)
    requires i < |log| && j < |log| && Before(legacy, log, i, j)
    ensures i <= j
  {
  }

  lemma {:induction false} BeforeExtends(legacy: bool, log: seq<Op>, more: seq<Op>, i: nat, j: nat)
    requires i < |log| && j < |log|
    ensures Before(legacy, log, i, j) <==> Before(legacy, log + more, i, j)
    decreases j
  {
    var longer := log + more;
    forall k | i <= k < j ensures Before(legacy, log, i, k) <==> Before(legacy, longer, i, k) {
      BeforeExtends(legacy, log, more, i, k);
    }
  }

  lemma EdgeBefore(legacy: bool, log: seq<Op>, i: nat, j: nat)
    requires i < j < |log| && Edge(legacy, log[i], log[j])
    ensures Before(legacy, log, i, j)
  {
    assert Before(legacy, log, i, i);
  }

  /** A step follows the one before it when both streams are null or neither is, or in legacy mode. */
  lemma NextOrdered(legacy: bool, streams: seq<Stream>)
    requires |streams| >= 2 && (legacy || AllNull(streams) || NoneNull(streams))
    ensures var n := |streams| - 1;
            Before(legacy, Log(streams), LaunchOf(streams, n - 1), LaunchOf(streams, n))
  {
    var n := |streams| - 1;
    var log, a, b := Log(streams), LaunchOf(streams, n - 1), LaunchOf(streams, n);
    var front := Log(streams[..n]);
    if streams[n] == streams[n-1] || streams[n].None? || streams[n-1].None? {
      EdgeBefore(legacy, log, a, b);
    } else {
      assert Previous(streams[..n]) == streams[n-1];
      var r := |front|;
      assert log[r] == Record(streams[n-1], n) && log[r+1] == Wait(streams[n], n) && b == r + 2;
      EdgeBefore(legacy, log, a, r);
      EdgeBefore(legacy, log, r, r + 1);
      EdgeBefore(legacy, log, r + 1, b);
      BeforeTransitive(legacy, log, a, r, r + 1);
      BeforeTransitive(legacy, log, a, r + 1, b);
    }
  }

  lemma {:induction false} UniformOrdered(legacy: bool, streams: seq<Stream>)
    requires legacy || AllNull(streams) || NoneNull(streams)
    ensures StepsOrdered(legacy, streams)
  {
    if |streams| >= 2 {
      var n := |streams| - 1;
      var front := streams[..n];
      UniformOrdered(legacy, front);
      NextOrdered(legacy, streams);
      forall i, j | 0 <= i < j < |streams|
        ensures Before(legacy, Log(streams), LaunchOf(streams, i), LaunchOf(streams, j))
      {
        if j < n {
          BeforeExtends(legacy, Log(front), Log(streams)[|Log(front)|..], LaunchOf(front, i), LaunchOf(front, j));
          assert Log(streams) == Log(front) + Log(streams)[|Log(front)|..];
        } else if i < n - 1 {
          BeforeExtends(legacy, Log(front), Log(streams)[|Log(front)|..], LaunchOf(front, i), LaunchOf(front, n - 1));
          assert Log(streams) == Log(front) + Log(streams)[|Log(front)|..];
          BeforeTransitive(legacy, Log(streams), LaunchOf(streams, i), LaunchOf(streams, n - 1), LaunchOf(streams, n));
        }
      }
    }
  }

  /** Handovers never touch the null stream. */
  lemma {:induction false} HandoversMasked(streams: seq<Stream>, p: nat)
    requires p < |Log(streams)|
    ensures Log(streams)[p].stream.None? ==> Log(streams)[p].Launch?
  {
    var n := |streams| - 1;
    if p < |Log(streams[..n])| {
      HandoversMasked(streams[..n], p);
    }
  }

  /** So nothing the adapter issues orders work on the null stream against work on masked streams. */
  lemma {:induction false} SidesApart(legacy: bool, streams: seq<Stream>, i: nat, j: nat)
    requires !legacy && i < |Log(streams)| && j < |Log(streams)| && Before(legacy, Log(streams), i, j)
    ensures Log(streams)[i].stream.None? <==> Log(streams)[j].stream.None?
    decreases j
  {
    var log := Log(streams);
    if i != j {
      var k :| i <= k < j && Edge(legacy, log[k], log[j]) && Before(legacy, log, i, k);
      SidesApart(legacy, streams, i, k);
      HandoversMasked(streams, k);
      HandoversMasked(streams, j);
    }
  }

  /** Every step of an adapter runs after all its earlier steps exactly when its assignments do not mix
      the null stream with masked ones, or the null stream is a legacy one. */
  lemma OrderedExactly(legacy: bool, streams: seq<Stream>)
    ensures StepsOrdered(legacy, streams) <==> legacy || AllNull(streams) || NoneNull(streams)
  {
    if legacy || AllNull(streams) || NoneNull(streams) {
      UniformOrdered(legacy, streams);
    } else {
      var i :| 0 <= i < |streams| && streams[i].Some?;
      var j :| 0 <= j < |streams| && streams[j].None?;
      var a, b := LaunchOf(streams, i), LaunchOf(streams, j);
      if StepsOrdered(legacy, streams) {
        if i < j {
          SidesApart(legacy, streams, a, b);
        } else {
          SidesApart(legacy, streams, b, a);
        }
        assert false;
      }
    }
  }
}

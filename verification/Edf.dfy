/** The earliest-deadline feasibility check of the burst bench, and what its answer means. */
module Edf {
  import opened Wrappers
  import opened Numbers
  import opened Ordering
  import opened Utf8

  datatype Job = Job(name: Text, arrival: real, work: real, deadline: Option<real>, urgent: bool)

  /** `deadline_ms or math.inf`: an absent deadline is infinite (None), and so is 0.0. */
  function Due(job: Job): Option<real> {
    if job.deadline == Some(0.0) then None else job.deadline
  }

  predicate DueBy(due: Option<real>, now: real) { due.Some? ==> now <= due.value }

  /** Sort key (deadline or infinity, name). */
  predicate DueLeq(a: Job, b: Job) {
    match (Due(a), Due(b))
    case (Some(x), Some(y)) => x < y || (x == y && LexLeq(a.name, b.name))
    case (Some(_), None) => true
    case (None, Some(_)) => false
    case (None, None) => LexLeq(a.name, b.name)
  }

  function Urgent(jobs: seq<Job>): (r: seq<Job>)
    ensures forall i :: 0 <= i < |r| ==> r[i].urgent && r[i] in jobs
  {
    if jobs == [] then []
    else Urgent(jobs[..|jobs|-1]) + if jobs[|jobs|-1].urgent then [jobs[|jobs|-1]] else []
  }

  /** Every urgent job is looked at, as often as it is in the list, and no other. */
  lemma {:induction false} UrgentCounts(jobs: seq<Job>, job: Job)
    ensures multiset(Urgent(jobs))[job] == if job.urgent then multiset(jobs)[job] else 0
  {
    if jobs != [] {
      var front, last := jobs[..|jobs|-1], jobs[|jobs|-1];
      UrgentCounts(front, job);
      assert jobs == front + [last];
    }
  }

  function FirstArrival(jobs: seq<Job>): real
    requires jobs != []
  {
    if |jobs| == 1 then jobs[0].arrival
    else
      var rest, last := FirstArrival(jobs[..|jobs|-1]), jobs[|jobs|-1].arrival;
      if last < rest then last else rest
  }

  /** When a machine running these jobs one after another from `start` is done with them all. */
  function FinishAll(order: seq<Job>, start: real): real {
    if order == [] then start
    else
      var last := order[|order|-1];
      MaxReal(FinishAll(order[..|order|-1], start), last.arrival) + last.work
  }

  /** Every job of a sequential order ends by the deadline the check gives it. */
  ghost predicate MeetsDue(order: seq<Job>, start: real) {
    forall i :: 0 <= i < |order| ==> DueBy(Due(order[i]), FinishAll(order[..i+1], start))
  }

  /** Every job ends by the deadline it states. */
  ghost predicate MeetsDeadlines(order: seq<Job>, start: real) {
    forall i :: 0 <= i < |order| ==> DueBy(order[i].deadline, FinishAll(order[..i+1], start))
  }

  function EdfOrder(jobs: seq<Job>): seq<Job> { Sort(DueLeq, Urgent(jobs)) }

  datatype Row = Row(name: Text, finish: real, met: bool)

  /** One report row per job of the order: when it ends, and whether that is in time. */
  function Rows(order: seq<Job>, start: real): (rows: seq<Row>)
    ensures |rows| == |order|
  {
    if order == [] then []
    else
      var finish, last := FinishAll(order, start), order[|order|-1];
      Rows(order[..|order|-1], start) + [Row(last.name, finish, DueBy(Due(last), finish))]
  }

  /** A row per job in order: when it ends, and whether that is by its deadline, if it has a non-zero one. */
  lemma {:induction false} RowsAre(order: seq<Job>, start: real, i: nat)
    requires i < |order|
    ensures var row, due := Rows(order, start)[i], order[i].deadline;
            && row.name == order[i].name && row.finish == FinishAll(order[..i+1], start)
            && (row.met <==> due.None? || due.value == 0.0 || row.finish <= due.value)
  {
    var n := |order| - 1;
    if i == n {
      assert order[..n+1] == order;
    } else {
      RowsAre(order[..n], start, i);
      assert order[..n][..i+1] == order[..i+1];
    }
  }

  /** `optimistic_edf_check`; with no urgent job `min` raises ValueError. */
  method OptimisticEdfCheck(jobs: seq<Job>) returns (r: Option<(bool, seq<Row>)>)
    ensures r.None? <==> Urgent(jobs) == []
    ensures r.Some? ==>
              var order, start := EdfOrder(jobs), FirstArrival(Urgent(jobs));
              && (r.value.0 <==> MeetsDue(order, start)) && r.value.1 == Rows(order, start)
              && (r.value.0 <==> forall row :: row in r.value.1 ==> row.met)
    ensures forall job :: multiset(EdfOrder(jobs))[job] == if job.urgent then multiset(jobs)[job] else 0
  {
    forall job ensures multiset(EdfOrder(jobs))[job] == if job.urgent then multiset(jobs)[job] else 0 {
      UrgentCounts(jobs, job);
    }
    var urgent := Urgent(jobs);
    if urgent == [] {
      return None;
    }
    var start := FirstArrival(urgent);
    var feasible, rows := RunInOrder(Sort(DueLeq, urgent), start);
    return Some((feasible, rows));
  }

  /** The loop over the ordered jobs. */
  method RunInOrder(order: seq<Job>, start: real) returns (feasible: bool, rows: seq<Row>)
    ensures feasible <==> MeetsDue(order, start)
    ensures feasible <==> forall row :: row in rows ==> row.met
    ensures rows == Rows(order, start)
  {
    var now := start;
    feasible, rows := true, [];
    hide FinishAll, Rows, MeetsDue;
    StartOrder(start);
    assert order[..0] == [];
    for i := 0 to |order|
      invariant now == FinishAll(order[..i], start) && rows == Rows(order[..i], start)
      invariant feasible <==> MeetsDue(order[..i], start)
      invariant feasible <==> forall row :: row in rows ==> row.met
    {
      assert order[..i+1] == order[..i] + [order[i]];
      MeetsStep(order[..i], order[i], start);
      now := MaxReal(now, order[i].arrival) + order[i].work;
      var met := DueBy(Due(order[i]), now);
      feasible := feasible && met;
      rows := rows + [Row(order[i].name, now, met)];
    }
    assert order[..|order|] == order;
  }

  lemma StartOrder(start: real)
    ensures FinishAll([], start) == start && Rows([], start) == [] && MeetsDue([], start)
  {
  }

  lemma MeetsStep(order: seq<Job>, job: Job, start: real)
    ensures var finish := MaxReal(FinishAll(order, start), job.arrival) + job.work;
            && FinishAll(order + [job], start) == finish
            && Rows(order + [job], start) == Rows(order, start) + [Row(job.name, finish, DueBy(Due(job), finish))]
            && (MeetsDue(order + [job], start) <==> MeetsDue(order, start) && DueBy(Due(job), finish))
  {
    var all := order + [job];
    assert all[..|order|] == order && all[|order|] == job;
    assert FinishAll(all, start) == MaxReal(FinishAll(order, start), job.arrival) + job.work;
    hide FinishAll;
    MeetsLast(order, job, start);
  }

  lemma MeetsLast(order: seq<Job>, job: Job, start: real)
    ensures MeetsDue(order + [job], start)
       <==> MeetsDue(order, start) && DueBy(Due(job), FinishAll(order + [job], start))
  {
    hide FinishAll, DueBy;
    var all, n := order + [job], |order|;
    assert all[..n+1] == all && all[n] == job;
    assert forall i :: 0 <= i < n ==> all[..i+1] == order[..i+1] && all[i] == order[i];
  }

  // ----- The order is earliest deadline first

  lemma DueOrder()
    ensures TotalPreorder(DueLeq)
  {
    LexIsTotalOrder();
  }

  /** The deadline a job is sorted by, zero and none being infinite, and then its name. */
  ghost predicate DueBefore(a: Job, b: Job) {
    var endlessA, endlessB := a.deadline.None? || a.deadline == Some(0.0), b.deadline.None? || b.deadline == Some(0.0);
    || (!endlessA && endlessB)
    || (!endlessA && !endlessB && a.deadline.value < b.deadline.value)
    || ((if endlessA then endlessB else !endlessB && a.deadline == b.deadline) && Precedes(a.name, b.name))
  }

  ghost predicate DueAscends(order: seq<Job>) {
    forall i, j :: 0 <= i < j < |order| ==> DueBefore(order[i], order[j])
  }

  lemma EdfOrderAscends(jobs: seq<Job>)
    ensures DueAscends(EdfOrder(jobs))
  {
    var order := EdfOrder(jobs);
    DueOrder();
    SortSorted(DueLeq, Urgent(jobs));
    hide Sort, Urgent, Precedes;
    forall i, j | 0 <= i < j < |order| ensures DueBefore(order[i], order[j]) {
      assert DueLeq(order[i], order[j]);
      LexByIndex(order[i].name, order[j].name);
    }
  }

  // ----- Demand: the work that arrives from one instant on and is due by another

  function Work(jobs: seq<Job>): real {
    if jobs == [] then 0.0 else Work(jobs[..|jobs|-1]) + jobs[|jobs|-1].work
  }

  predicate DueIn(job: Job, from: real, d: real) { job.arrival >= from && Due(job).Some? && Due(job).value <= d }

  function WorkIn(jobs: seq<Job>, from: real, d: real): real {
    if jobs == [] then 0.0
    else WorkIn(jobs[..|jobs|-1], from, d) + if DueIn(jobs[|jobs|-1], from, d) then jobs[|jobs|-1].work else 0.0
  }

  lemma {:induction false} WorkInConcat(a: seq<Job>, b: seq<Job>, from: real, d: real)
    ensures WorkIn(a + b, from, d) == WorkIn(a, from, d) + WorkIn(b, from, d)
  {
    if b == [] {
      assert a + b == a;
    } else {
      WorkInConcat(a, b[..|b|-1], from, d);
      assert (a + b)[..|a+b|-1] == a + b[..|b|-1];
    }
  }

  lemma {:induction false} WorkInPermutation(a: seq<Job>, b: seq<Job>, from: real, d: real)
    requires multiset(a) == multiset(b)
    ensures WorkIn(a, from, d) == WorkIn(b, from, d)
    decreases |a|
  {
    SameMembers(a, b);
    if a != [] {
      var job, front := a[|a|-1], a[..|a|-1];
      assert a[..|a|-1] + a[|a|..] == front && job in b;
      var k :| 0 <= k < |b| && b[k] == job;
      var left, right := b[..k], b[k+1..];
      assert b == left + [job] + right;
      TakeOut(a, |a| - 1, b, k);
      WorkInPermutation(front, left + right, from, d);
      WorkInConcat(left, [job], from, d);
      WorkInConcat(left + [job], right, from, d);
      WorkInConcat(left, right, from, d);
      assert [job][..0] == [];
    }
  }

  ghost predicate NonNegative(jobs: seq<Job>) { forall i :: 0 <= i < |jobs| ==> jobs[i].work >= 0.0 }

  lemma {:induction false} WorkInBounds(jobs: seq<Job>, from: real, d: real)
    requires NonNegative(jobs)
    ensures WorkIn(jobs, from, d) >= 0.0
    ensures (forall i :: 0 <= i < |jobs| ==> DueIn(jobs[i], from, d)) ==> WorkIn(jobs, from, d) == Work(jobs)
    ensures (forall i :: 0 <= i < |jobs| ==> !DueIn(jobs[i], from, d)) ==> WorkIn(jobs, from, d) == 0.0
  {
    if jobs != [] {
      WorkInBounds(jobs[..|jobs|-1], from, d);
    }
  }

  /** A machine is not done before it has worked off what arrived from `from` on. */
  lemma {:induction false} FinishAfterDemand(order: seq<Job>, start: real, from: real, d: real)
    requires NonNegative(order) && exists i :: 0 <= i < |order| && DueIn(order[i], from, d)
    ensures FinishAll(order, start) >= from + WorkIn(order, from, d)
  {
    var front, last := order[..|order|-1], order[|order|-1];
    if i :| 0 <= i < |front| && DueIn(front[i], from, d) {
      FinishAfterDemand(front, start, from, d);
    } else {
      assert forall i :: 0 <= i < |front| ==> front[i] == order[i];
      WorkInBounds(front, from, d);
    }
  }

  /** An order that meets its deadlines leaves no two instants with more work to do between them than
      time. */
  lemma {:induction false} DemandFits(order: seq<Job>, start: real, from: real, d: real)
    requires NonNegative(order) && MeetsDue(order, start)
    requires exists i :: 0 <= i < |order| && DueIn(order[i], from, d)
    ensures from + WorkIn(order, from, d) <= d
  {
    var front, last := order[..|order|-1], order[|order|-1];
    if DueIn(last, from, d) {
      assert order[..|order|-1+1] == order;
      FinishAfterDemand(order, start, from, d);
    } else {
      assert forall i :: 0 <= i < |front| ==> order[i] == front[i] && order[..i+1] == front[..i+1];
      DemandFits(front, start, from, d);
    }
  }

  /** A machine that starts no later than its first job arrives ends a stretch without idling that began
      with an arrival. */
  lemma {:induction false} BusyStretch(order: seq<Job>, start: real) returns (k: nat)
    requires order != [] && start <= order[0].arrival
    ensures k < |order| && FinishAll(order, start) == order[k].arrival + Work(order[k..])
  {
    var n := |order| - 1;
    var front := order[..n];
    if front == [] || FinishAll(front, start) <= order[n].arrival {
      k := n;
      assert order[n..] == [order[n]] && [order[n]][..0] == [];
    } else {
      k := BusyStretch(front, start);
      assert order[k..][..n-k] == front[k..] && order[k..][n-k] == order[n];
    }
  }

  /** Along the order no job arrives before an earlier one. */
  ghost predicate Agreeable(order: seq<Job>) {
    forall i, j :: 0 <= i < j < |order| ==> order[i].arrival <= order[j].arrival
  }

  /** If any order meets its deadlines, the earliest-deadline order does, as long as no job in it arrives
      before an earlier one. */
  lemma EdfMeets(order: seq<Job>, edf: seq<Job>, start: real)
    requires NonNegative(order) && MeetsDue(order, start)
    requires multiset(edf) == multiset(order) && Sorted(DueLeq, edf) && Agreeable(edf)
    requires edf != [] ==> start <= edf[0].arrival
    ensures MeetsDue(edf, start)
  {
    hide WorkIn, Work, FinishAll;
    SameMembers(edf, order);
    assert NonNegative(edf) by {
      assert forall i :: 0 <= i < |edf| ==> edf[i] in order;
    }
    forall i | 0 <= i < |edf| && Due(edf[i]).Some? ensures FinishAll(edf[..i+1], start) <= Due(edf[i]).value {
      PrefixMeets(order, edf, start, i);
    }
  }

  lemma PrefixMeets(order: seq<Job>, edf: seq<Job>, start: real, i: nat)
    requires NonNegative(order) && NonNegative(edf) && MeetsDue(order, start)
    requires multiset(edf) == multiset(order) && Sorted(DueLeq, edf) && Agreeable(edf)
    requires i < |edf| && start <= edf[0].arrival && Due(edf[i]).Some?
    ensures FinishAll(edf[..i+1], start) <= Due(edf[i]).value
  {
    hide WorkIn, Work, FinishAll, DueLeq, MeetsDue;
    var d, done, rest := Due(edf[i]).value, edf[..i+1], edf[i+1..];
    var k := BusyStretch(done, start);
    var from, busy := done[k].arrival, done[k..];
    forall j | 0 <= j < |busy| ensures DueIn(busy[j], from, d) {
      assert busy[j] == edf[k + j];
      EarlierDue(edf, k + j, i);
    }
    assert busy[|busy|-1] == edf[i];
    SameMembers(edf, order);
    assert edf[i] in order;
    DemandFits(order, start, from, d);
    WorkInBounds(busy, from, d);
    WorkInBounds(done[..k], from, d);
    WorkInBounds(rest, from, d);
    assert edf == done[..k] + busy + rest;
    WorkInConcat(done[..k], busy, from, d);
    WorkInConcat(done[..k] + busy, rest, from, d);
    WorkInPermutation(edf, order, from, d);
  }

  lemma EarlierDue(edf: seq<Job>, j: nat, i: nat)
    requires Sorted(DueLeq, edf) && j <= i < |edf| && Due(edf[i]).Some?
    ensures Due(edf[j]).Some? && Due(edf[j]).value <= Due(edf[i]).value
  {
    assert j < i ==> DueLeq(edf[j], edf[i]);
  }

  lemma {:induction false} FirstArrivalLeast(jobs: seq<Job>)
    requires jobs != []
    ensures forall i :: 0 <= i < |jobs| ==> FirstArrival(jobs) <= jobs[i].arrival
    ensures exists i :: 0 <= i < |jobs| && FirstArrival(jobs) == jobs[i].arrival
  {
    var n := |jobs| - 1;
    if n > 0 {
      FirstArrivalLeast(jobs[..n]);
      assert forall i :: 0 <= i < n ==> jobs[..n][i] == jobs[i];
      if FirstArrival(jobs) != jobs[n].arrival {
        var i :| 0 <= i < n && FirstArrival(jobs[..n]) == jobs[..n][i].arrival;
        assert FirstArrival(jobs) == jobs[i].arrival;
      } else {
        assert FirstArrival(jobs) == jobs[n].arrival;
      }
    } else {
      assert FirstArrival(jobs) == jobs[0].arrival;
    }
  }

  /** The check decides schedulability when no job of its order arrives before an earlier one, as when all
      arrive together: it answers True exactly when some sequential order of the urgent jobs meets every
      deadline it reads. */
  lemma EdfOptimal(jobs: seq<Job>)
    requires Urgent(jobs) != [] && NonNegative(Urgent(jobs)) && Agreeable(EdfOrder(jobs))
    ensures var start := FirstArrival(Urgent(jobs));
            MeetsDue(EdfOrder(jobs), start)
            <==> exists order :: multiset(order) == multiset(Urgent(jobs)) && MeetsDue(order, start)
  {
    var urgent, edf, start := Urgent(jobs), EdfOrder(jobs), FirstArrival(Urgent(jobs));
    DueOrder();
    SortSorted(DueLeq, urgent);
    FirstArrivalLeast(urgent);
    SameMembers(edf, urgent);
    assert edf[0] in urgent;
    if order :| multiset(order) == multiset(urgent) && MeetsDue(order, start) {
      SameMembers(order, urgent);
      assert forall i :: 0 <= i < |order| ==> order[i] in urgent;
      EdfMeets(order, edf, start);
    }
  }

  ghost predicate SharedArrival(jobs: seq<Job>, arrival: real) {
    forall i :: 0 <= i < |jobs| ==> jobs[i].arrival == arrival
  }

  lemma SharedArrivalAgreeable(jobs: seq<Job>, arrival: real)
    requires SharedArrival(Urgent(jobs), arrival)
    ensures Agreeable(EdfOrder(jobs))
  {
    SameMembers(EdfOrder(jobs), Urgent(jobs));
    assert forall i :: 0 <= i < |EdfOrder(jobs)| ==> EdfOrder(jobs)[i] in Urgent(jobs);
  }

  ghost predicate NoZeroDeadline(jobs: seq<Job>) {
    forall i :: 0 <= i < |jobs| ==> jobs[i].deadline != Some(0.0)
  }

  /** What the answer says of the deadlines as stated: they can be met exactly when it is True and no
      urgent deadline is zero.  So a False answer is always right, and a True one exactly when no urgent
      deadline is zero. */
  lemma EdfDecidesDeadlines(jobs: seq<Job>)
    requires Urgent(jobs) != [] && NonNegative(Urgent(jobs)) && Agreeable(EdfOrder(jobs))
    requires FirstArrival(Urgent(jobs)) >= 0.0
    requires forall i :: 0 <= i < |Urgent(jobs)| && Urgent(jobs)[i].deadline == Some(0.0) ==> Urgent(jobs)[i].work > 0.0
    ensures var start := FirstArrival(Urgent(jobs));
            (exists order :: multiset(order) == multiset(Urgent(jobs)) && MeetsDeadlines(order, start))
            <==> MeetsDue(EdfOrder(jobs), start) && NoZeroDeadline(Urgent(jobs))
  {
    var urgent, start := Urgent(jobs), FirstArrival(Urgent(jobs));
    hide FinishAll, Urgent, Sort, FirstArrival;
    EdfOptimal(jobs);
    forall order | multiset(order) == multiset(urgent)
      ensures MeetsDeadlines(order, start) <==> MeetsDue(order, start) && NoZeroDeadline(urgent)
    {
      StatedDeadlines(urgent, order, start);
    }
  }

  /** An order meets the deadlines as stated exactly when it meets them as read and none is zero. */
  lemma StatedDeadlines(jobs: seq<Job>, order: seq<Job>, start: real)
    requires multiset(order) == multiset(jobs) && NonNegative(jobs) && start >= 0.0
    requires forall i :: 0 <= i < |jobs| && jobs[i].deadline == Some(0.0) ==> jobs[i].work > 0.0
    ensures MeetsDeadlines(order, start) <==> MeetsDue(order, start) && NoZeroDeadline(jobs)
  {
    SameMembers(order, jobs);
    assert forall i :: 0 <= i < |order| ==> order[i] in jobs;
    assert forall i :: 0 <= i < |jobs| ==> jobs[i] in order;
    hide FinishAll;
    if k :| 0 <= k < |order| && order[k].deadline == Some(0.0) {
      ZeroDeadlineMissed(order, start, k);
    }
  }

  lemma {:induction false} FinishAtLeastStart(order: seq<Job>, start: real)
    requires order != [] && start >= 0.0 && order[|order|-1].work > 0.0
    requires forall i :: 0 <= i < |order| ==> order[i].work >= 0.0
    ensures FinishAll(order, start) > 0.0
  {
    if |order| > 1 {
      if order[|order|-2].work > 0.0 {
        FinishAtLeastStart(order[..|order|-1], start);
      }
      FinishNonNegative(order[..|order|-1], start);
    }
  }

  lemma {:induction false} FinishNonNegative(order: seq<Job>, start: real)
    requires start >= 0.0 && forall i :: 0 <= i < |order| ==> order[i].work >= 0.0
    ensures FinishAll(order, start) >= 0.0
  {
    if order != [] {
      FinishNonNegative(order[..|order|-1], start);
    }
  }

  /** No order with positive work due at zero meets the deadlines as stated... */
  lemma ZeroDeadlineMissed(order: seq<Job>, start: real, k: nat)
    requires k < |order| && order[k].deadline == Some(0.0) && order[k].work > 0.0
    requires start >= 0.0 && NonNegative(order)
    ensures !MeetsDeadlines(order, start)
  {
    FinishAtLeastStart(order[..k+1], start);
    assert DueBy(order[k].deadline, FinishAll(order[..k+1], start)) == false;
  }

  /** ...yet the check passes one such job, reading its deadline as none. */
  lemma ZeroDeadlineIgnored(job: Job)
    requires job.urgent && job.deadline == Some(0.0) && job.work > 0.0 && job.arrival >= 0.0
    ensures MeetsDue(EdfOrder([job]), FirstArrival(Urgent([job])))
    ensures !MeetsDeadlines(EdfOrder([job]), FirstArrival(Urgent([job])))
  {
    OneJob(job);
    hide Sort, DueLeq, Urgent, FirstArrival, FinishAll;
    ZeroDeadlineMissed([job], job.arrival, 0);
  }

  lemma OneJob(job: Job)
    requires job.urgent
    ensures Urgent([job]) == EdfOrder([job]) == [job] && FirstArrival([job]) == job.arrival
  {
    assert [job][..0] == [] && [job][1..] == [];
    assert Urgent([job]) == Urgent([]) + [job] == [job];
    assert Sort(DueLeq, [job]) == Insert(DueLeq, job, []) == [job];
  }

  /** With staggered arrivals a False answer proves nothing: the check refuses two jobs that the other
      order finishes in time, because it idles until the earlier deadline's job arrives. */
  lemma StaggeredArrivalsRefused(a: Text, b: Text)
    ensures var late, early := Job(a, 100.0, 5.0, Some(110.0), true), Job(b, 0.0, 50.0, Some(120.0), true);
            var jobs := [late, early];
            && !MeetsDue(EdfOrder(jobs), FirstArrival(Urgent(jobs)))
            && MeetsDeadlines([early, late], FirstArrival(Urgent(jobs)))
  {
    var late, early := Job(a, 100.0, 5.0, Some(110.0), true), Job(b, 0.0, 50.0, Some(120.0), true);
    assert DueLeq(late, early);
    hide Sort, LexLeq, DueLeq, Urgent, FirstArrival, FinishAll, MeetsDue, MeetsDeadlines;
    PairOfJobs(late, early);
    PairMeets(late, early, 0.0);
    PairMeets(early, late, 0.0);
  }

  lemma PairMeets(x: Job, y: Job, start: real)
    ensures var first := MaxReal(start, x.arrival) + x.work;
            var second := MaxReal(first, y.arrival) + y.work;
            && (MeetsDue([x, y], start) <==> DueBy(Due(x), first) && DueBy(Due(y), second))
            && (MeetsDeadlines([x, y], start) <==> DueBy(x.deadline, first) && DueBy(y.deadline, second))
  {
    FinishPair(x, y, start);
    var order := [x, y];
    assert order[..0+1] == [x] && order[..1+1] == order && order[0] == x && order[1] == y;
    hide FinishAll;
  }

  lemma PairOfJobs(x: Job, y: Job)
    requires x.urgent && y.urgent && DueLeq(x, y) && y.arrival < x.arrival
    ensures Urgent([x, y]) == EdfOrder([x, y]) == [x, y] && FirstArrival([x, y]) == y.arrival
  {
    var jobs := [x, y];
    assert jobs[..1] == [x] && [x][..0] == [] && jobs[1..] == [y] && [y][1..] == [];
    assert Urgent([x]) == Urgent([]) + [x] == [x];
    assert Sort(DueLeq, [y]) == Insert(DueLeq, y, []) == [y];
    assert FirstArrival([x]) == x.arrival;
  }

  lemma FinishPair(x: Job, y: Job, start: real)
    ensures FinishAll([x], start) == MaxReal(start, x.arrival) + x.work
    ensures FinishAll([x, y], start) == MaxReal(FinishAll([x], start), y.arrival) + y.work
  {
    assert [x][..0] == [] && [x, y][..1] == [x];
    assert FinishAll([], start) == start;
  }
}

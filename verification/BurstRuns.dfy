/** Whole runs of the burst simulator: they end, every state of them keeps the ledgers, every job with work
    to do finishes if the end time is late enough, and when the loop raises. */
module BurstRuns {
  import opened Wrappers
  import opened Numbers
  import opened Utf8
  import opened Burst

  // ----- Runs

  predicate Unfinished(jobs: seq<Job>) { exists i :: 0 <= i < |jobs| && jobs[i].finish.None? }

  /** The loop's guard. */
  predicate Continues(s: Setup, st: State) { st.now < s.end && Unfinished(st.jobs) }

  ghost predicate Turn(s: Setup, st: State, next: State)
    requires Sane(s)
  {
    Weighted(st.jobs) && Continues(s, st) && Step(s, st) == Some(next)
  }

  /** States that follow one another by turns of the loop. */
  ghost predicate Run(s: Setup, run: seq<State>)
    requires Sane(s)
  {
    forall i :: 0 < i < |run| ==> Turn(s, run[i-1], run[i])
  }

  // ----- What they keep

  ghost predicate RunFrom(s: Setup, run: seq<State>, jobs: seq<Job>)
    requires Sane(s)
  {
    run != [] && Run(s, run) && run[0] == State(jobs, 0.0) && forall i :: 0 <= i < |jobs| ==> Fresh(jobs[i])
  }

  lemma RunStart(s: Setup, jobs: seq<Job>)
    requires Sane(s) && forall i :: 0 <= i < |jobs| ==> Fresh(jobs[i])
    ensures RunFrom(s, [State(jobs, 0.0)], jobs)
  {
  }

  lemma RunStep(s: Setup, run: seq<State>, jobs: seq<Job>, next: State)
    requires Sane(s) && run != [] && RunFrom(s, run, jobs) && Turn(s, run[|run|-1], next)
    ensures RunFrom(s, run + [next], jobs)
  {
    assert forall i :: 0 <= i < |run| ==> (run + [next])[i] == run[i];
  }

  lemma FreshInv(s: Setup, jobs: seq<Job>)
    requires Sane(s) && forall i :: 0 <= i < |jobs| ==> Fresh(jobs[i])
    ensures Inv(s, State(jobs, 0.0))
  {
    FreshService(jobs);
  }

  lemma {:induction false} FreshService(jobs: seq<Job>)
    requires forall i :: 0 <= i < |jobs| ==> jobs[i].vruntime == 0.0
    ensures Service(jobs) == 0.0
  {
    if jobs != [] {
      FreshService(jobs[..|jobs|-1]);
    }
  }

  /** Every state of a run keeps the ledgers and the jobs' identities. */
  lemma {:induction false} RunKeeps(s: Setup, run: seq<State>, jobs: seq<Job>, k: nat)
    requires Sane(s) && RunFrom(s, run, jobs) && k < |run|
    ensures Inv(s, run[k]) && Weighted(run[k].jobs) && |run[k].jobs| == |jobs|
    ensures forall i :: 0 <= i < |jobs| ==> SameJob(jobs[i], run[k].jobs[i])
  {
    hide Inv, Step;
    if k == 0 {
      FreshInv(s, jobs);
    } else {
      RunKeeps(s, run, jobs, k - 1);
      assert Turn(s, run[k-1], run[k]);
      StepKeeps(s, run[k-1]);
    }
  }

  lemma RunTurn(s: Setup, run: seq<State>, jobs: seq<Job>, n: nat, i: nat)
    requires Sane(s) && RunFrom(s, run, jobs) && 0 < n < |run| && i < |jobs|
    ensures |run[n-1].jobs| == |run[n].jobs| == |jobs|
    ensures !IsActive(run[n-1].jobs[i], run[n-1].now) ==> run[n].jobs[i] == run[n-1].jobs[i]
  {
    hide Inv, Step, IsActive, Fresh, SameJob;
    RunKeeps(s, run, jobs, n - 1);
    RunKeeps(s, run, jobs, n);
    assert Turn(s, run[n-1], run[n]);
    hide Run, RunFrom;
    if !IsActive(run[n-1].jobs[i], run[n-1].now) {
      InactiveStays(s, run[n-1], i);
    }
  }

  /** A finished job is never touched again, so `finish_ms` is set once in a run. */
  lemma {:induction false} FinishedStays(s: Setup, run: seq<State>, jobs: seq<Job>, i: nat, k: nat, n: nat)
    requires Sane(s) && RunFrom(s, run, jobs) && i < |jobs| && k <= n < |run|
    requires i < |run[k].jobs| && run[k].jobs[i].finish.Some?
    ensures i < |run[n].jobs| && run[n].jobs[i] == run[k].jobs[i]
    decreases n
  {
    hide RunFrom;
    if k < n {
      FinishedStays(s, run, jobs, i, k, n - 1);
      RunTurn(s, run, jobs, n, i);
    }
  }

  /** A job with no more work than the epsilon is never run, so it never finishes. */
  lemma {:induction false} TinyNeverFinishes(s: Setup, run: seq<State>, jobs: seq<Job>, i: nat, n: nat)
    requires Sane(s) && RunFrom(s, run, jobs) && i < |jobs| && n < |run| && jobs[i].work <= EPSILON
    ensures i < |run[n].jobs| && run[n].jobs[i] == jobs[i]
  {
    hide Run;
    if n > 0 {
      TinyNeverFinishes(s, run, jobs, i, n - 1);
      RunTurn(s, run, jobs, n, i);
    }
  }

  /** A list that raises at once: one job, arrived, with nothing to do. */
  lemma NothingToDoRaises(s: Setup, name: Text)
    requires Sane(s) && s.end > 0.0
    ensures var job := Job(name, 0, 0.0, 0.0, None, Urgent, 1.0, 0.0, 0.0, None, None, 0.0);
            var st := State([job], 0.0);
            Fresh(job) && Continues(s, st) && Weighted(st.jobs) && Step(s, st).None?
  {
    var job := Job(name, 0, 0.0, 0.0, None, Urgent, 1.0, 0.0, 0.0, None, None, 0.0);
    var st := State([job], 0.0);
    FreshInv(s, [job]);
    StepRaisesExactly(s, st);
    assert st.jobs[0].finish.None?;
  }

  // ----- The loop ends

  /** How many jobs have yet to arrive. */
  function Later(jobs: seq<Job>, now: real): nat {
    if jobs == [] then 0 else Later(jobs[..|jobs|-1], now) + if jobs[|jobs|-1].arrival > now then 1 else 0
  }

  lemma {:induction false} LaterShrinks(a: seq<Job>, b: seq<Job>, now: real, then': real)
    requires |a| == |b| && now <= then' && forall i :: 0 <= i < |a| ==> a[i].arrival == b[i].arrival
    ensures Later(b, then') <= Later(a, now)
    ensures (exists i :: 0 <= i < |a| && now < a[i].arrival <= then') ==> Later(b, then') < Later(a, now)
  {
    if a != [] {
      var n := |a| - 1;
      LaterShrinks(a[..n], b[..n], now, then');
      if i :| 0 <= i < |a| && now < a[i].arrival <= then' {
        if i < n {
          assert a[..n][i] == a[i];
        }
      }
    }
  }

  function EpochsLeft(s: Setup, now: real): int
    requires s.epoch > 0.0
  {
    ((s.end - now) / s.epoch).Floor
  }

  lemma EpochsLeftFalls(s: Setup, now: real)
    requires s.epoch > 0.0
    ensures EpochsLeft(s, now + s.epoch) == EpochsLeft(s, now) - 1
    ensures now < s.end ==> EpochsLeft(s, now) >= 0
  {
    var q := (s.end - now) / s.epoch;
    assert (s.end - (now + s.epoch)) / s.epoch == q - 1.0 by {
      assert (s.end - now - s.epoch) / s.epoch == (s.end - now) / s.epoch - s.epoch / s.epoch;
    }
    if now < s.end {
      assert q >= 0.0;
    }
  }

  /** A turn jumps to an arrival still to come, or uses up an epoch. */
  lemma TurnShrinks(s: Setup, st: State, next: State)
    requires Sane(s) && Weighted(st.jobs) && Inv(s, st) && st.now < s.end && Step(s, st) == Some(next)
    ensures var later, then' := Later(st.jobs, st.now), Later(next.jobs, next.now);
            || then' < later
            || (then' == later && 0 <= EpochsLeft(s, st.now) && EpochsLeft(s, next.now) < EpochsLeft(s, st.now))
  {
    hide Inv, EpochsLeft, Later, SameJob, Step;
    StepKeeps(s, st);
    StepTime(s, st, next);
    SameArrivals(st.jobs, next.jobs);
    LaterShrinks(st.jobs, next.jobs, st.now, next.now);
    EpochsLeftFalls(s, st.now);
  }

  lemma StepTime(s: Setup, st: State, next: State)
    requires Sane(s) && Weighted(st.jobs) && Step(s, st) == Some(next)
    ensures || next.now == st.now + s.epoch
            || exists i :: 0 <= i < |st.jobs| && st.now < st.jobs[i].arrival <= next.now
  {
    hide RunEpoch, Active, LaterArrivals, NextArrival;
    if Active(st) == [] {
      var i :| 0 <= i < |st.jobs| && st.jobs[i].arrival == NextArrival(st);
    }
  }

  lemma SameArrivals(a: seq<Job>, b: seq<Job>)
    requires |a| == |b| && forall i :: 0 <= i < |a| ==> SameJob(a[i], b[i])
    ensures forall i :: 0 <= i < |a| ==> a[i].arrival == b[i].arrival
  {
  }

  lemma RunAllKeep(s: Setup, run: seq<State>, jobs: seq<Job>)
    requires Sane(s) && RunFrom(s, run, jobs)
    ensures run != [] && forall k :: 0 <= k < |run| ==> Inv(s, run[k])
    ensures var last := run[|run|-1];
            && Weighted(last.jobs)
            && |last.jobs| == |jobs| && forall i :: 0 <= i < |jobs| ==> SameJob(jobs[i], last.jobs[i])
  {
    hide Inv;
    forall k | 0 <= k < |run| ensures Inv(s, run[k]) {
      RunKeeps(s, run, jobs, k);
    }
    RunKeeps(s, run, jobs, |run| - 1);
  }

  // ----- Every job with work to do finishes

  /** The least speed of a workload alone, and beside each of some jobs in either slot. */
  function SlowestBeside(m: Machine, w: Workload, others: seq<Job>): real {
    if others == [] then m.speed(w, 1.0, None)
    else
      var v := others[|others|-1].workload;
      MinReal(SlowestBeside(m, w, others[..|others|-1]),
              MinReal(m.speed(w, 0.75, Some((v, 0.25))), m.speed(w, 0.25, Some((v, 0.75)))))
  }

  /** The least speed any of `jobs` can have beside any of `others`. */
  function Slowest(m: Machine, jobs: seq<Job>, others: seq<Job>): real {
    if jobs == [] then 1.0
    else
      MinReal(Slowest(m, jobs[..|jobs|-1], others), SlowestBeside(m, jobs[|jobs|-1].workload, others))
  }

  ghost predicate NeverSlower(m: Machine, w: Workload, others: seq<Job>, least: real) {
    && m.speed(w, 1.0, None) >= least
    && forall j :: 0 <= j < |others| ==>
         && m.speed(w, 0.75, Some((others[j].workload, 0.25))) >= least
         && m.speed(w, 0.25, Some((others[j].workload, 0.75))) >= least
  }

  lemma {:induction false} SlowestBesideBounds(m: Machine, w: Workload, others: seq<Job>)
    requires Positive(m)
    ensures SlowestBeside(m, w, others) > 0.0 && NeverSlower(m, w, others, SlowestBeside(m, w, others))
  {
    if others != [] {
      var n := |others| - 1;
      SlowestBesideBounds(m, w, others[..n]);
      assert forall j :: 0 <= j < n ==> others[..n][j] == others[j];
    }
  }

  lemma {:induction false} SlowestBounds(m: Machine, jobs: seq<Job>, others: seq<Job>)
    requires Positive(m)
    ensures Slowest(m, jobs, others) > 0.0
    ensures forall i :: 0 <= i < |jobs| ==> NeverSlower(m, jobs[i].workload, others, Slowest(m, jobs, others))
  {
    if jobs != [] {
      var n := |jobs| - 1;
      SlowestBounds(m, jobs[..n], others);
      SlowestBesideBounds(m, jobs[n].workload, others);
      assert forall i :: 0 <= i < n ==> jobs[..n][i] == jobs[i];
      hide SlowestBeside, Positive;
    }
  }

  /** An epoch in which a job runs finishes it or does at least `unit` of its work, so this many epochs
      are enough for it. */
  function Epochs(job: Job, unit: real): nat
    requires unit > 0.0
  {
    if job.finish.Some? || job.remaining <= EPSILON then 0
    else
      RatioPositive(job.remaining, unit);
      (job.remaining / unit).Floor + 1
  }

  function EpochsOf(jobs: seq<Job>, unit: real): nat
    requires unit > 0.0
  {
    if jobs == [] then 0 else EpochsOf(jobs[..|jobs|-1], unit) + Epochs(jobs[|jobs|-1], unit)
  }

  lemma RatioPositive(x: real, unit: real)
    requires x > 0.0 && unit > 0.0
    ensures x / unit > 0.0
  {
    var q := x / unit;
    assert q * unit == x;
  }

  lemma RatioFalls(x: real, y: real, unit: real)
    requires unit > 0.0 && x <= y - unit
    ensures x / unit <= y / unit - 1.0
  {
    var p, q := x / unit, y / unit;
    assert p * unit == x && q * unit == y;
    assert (p - (q - 1.0)) * unit == p * unit - q * unit + unit;
    if p > q - 1.0 {
      Product(p - (q - 1.0), unit);
    }
  }

  lemma ServedNeedsLess(s: Setup, now: real, job: Job, share: real, other: Option<(Workload, real)>, unit: real)
    requires Sane(s) && job.weight > 0.0 && IsActive(job, now)
    requires unit > 0.0 && s.m.speed(job.workload, share, other) * s.epoch >= unit
    ensures Epochs(Advance(s, now, job, share, other), unit) < Epochs(job, unit)
  {
    AdvanceOutcome(s, now, job, share, other);
    LessLeft(s, now, job, share, other, unit);
    RatioPositive(job.remaining, unit);
    hide Advance, Sane;
    var after := Advance(s, now, job, share, other);
    if after.remaining > EPSILON {
      FloorFalls(after.remaining, job.remaining, unit);
    }
  }

  lemma LessLeft(s: Setup, now: real, job: Job, share: real, other: Option<(Workload, real)>, unit: real)
    requires Sane(s) && job.weight > 0.0 && s.m.speed(job.workload, share, other) * s.epoch >= unit
    ensures var left := Advance(s, now, job, share, other).remaining; left == 0.0 || left <= job.remaining - unit
  {
    hide Elapsed;
  }

  lemma FloorFalls(x: real, y: real, unit: real)
    requires unit > 0.0 && 0.0 < x <= y - unit
    ensures (x / unit).Floor + 1 <= (y / unit).Floor
  {
    RatioPositive(x, unit);
    RatioFalls(x, y, unit);
  }

  ghost predicate NoneSlower(m: Machine, jobs: seq<Job>, least: real) {
    forall i :: 0 <= i < |jobs| ==> NeverSlower(m, jobs[i].workload, jobs, least)
  }

  lemma AtLeastUnit(speed: real, least: real, epoch: real)
    requires speed >= least > 0.0 && epoch > 0.0
    ensures speed * epoch >= least * epoch > 0.0
  {
    Product(least, epoch);
    assert speed * epoch - least * epoch == (speed - least) * epoch;
  }

  /** No job needs more epochs after an epoch than before, and the primary needs fewer. */
  lemma EpochNeedsLess(s: Setup, st: State, least: real, unit: real, i: nat)
    requires Sane(s) && Weighted(st.jobs) && Active(st) != [] && i < |st.jobs|
    requires least > 0.0 && NoneSlower(s.m, st.jobs, least) && unit == least * s.epoch && unit > 0.0
    ensures Epochs(RunEpoch(s, st)[i], unit) <= Epochs(st.jobs[i], unit)
    ensures i == Primary(s, st) ==> Epochs(RunEpoch(s, st)[i], unit) < Epochs(st.jobs[i], unit)
  {
    var p := Primary(s, st);
    var others := OtherActive(st, p);
    var noted := NoteGaps(st);
    NotedIs(st, i);
    assert noted[i].workload == st.jobs[i].workload && Epochs(noted[i], unit) == Epochs(st.jobs[i], unit);
    assert i in Active(st) ==> IsActive(noted[i], st.now);
    assert noted[i].weight > 0.0 && noted[p].workload == st.jobs[p].workload;
    assert NeverSlower(s.m, st.jobs[i].workload, st.jobs, least);
    if i == p {
      if others == [] {
        OneNeedsLess(s, st.now, noted[i], 1.0, None, least, unit);
      } else {
        var q := Secondary(st, others);
        assert noted[q].workload == st.jobs[q].workload;
        OneNeedsLess(s, st.now, noted[i], 0.75, Some((noted[q].workload, 0.25)), least, unit);
      }
    } else if others != [] && i == Secondary(st, others) {
      OneNeedsLess(s, st.now, noted[i], 0.25, Some((noted[p].workload, 0.75)), least, unit);
    }
    hide Primary, Secondary, NoteGaps, Advance, OtherActive, Epochs, NeverSlower, NoneSlower;
    assert i != p && (others == [] || i != Secondary(st, others)) ==> RunEpoch(s, st)[i] == noted[i];
  }

  lemma OneNeedsLess(s: Setup, now: real, job: Job, share: real, other: Option<(Workload, real)>, least: real,
                     unit: real)
    requires Sane(s) && job.weight > 0.0 && IsActive(job, now) && least > 0.0
    requires s.m.speed(job.workload, share, other) >= least && unit == least * s.epoch && unit > 0.0
    ensures Epochs(Advance(s, now, job, share, other), unit) < Epochs(job, unit)
  {
    AtLeastUnit(s.m.speed(job.workload, share, other), least, s.epoch);
    ServedNeedsLess(s, now, job, share, other, unit);
  }

  lemma {:induction false} SumNeedsLess(a: seq<Job>, b: seq<Job>, unit: real, p: nat)
    requires unit > 0.0 && |a| == |b| && forall i :: 0 <= i < |a| ==> Epochs(b[i], unit) <= Epochs(a[i], unit)
    ensures EpochsOf(b, unit) <= EpochsOf(a, unit)
    ensures p < |a| && Epochs(b[p], unit) < Epochs(a[p], unit) ==> EpochsOf(b, unit) < EpochsOf(a, unit)
  {
    hide Epochs;
    if a != [] {
      SumNeedsLess(a[..|a|-1], b[..|b|-1], unit, p);
    }
  }

  /** No job arrives later than this. */
  function LastArrival(jobs: seq<Job>): real {
    if jobs == [] then 0.0 else MaxReal(LastArrival(jobs[..|jobs|-1]), jobs[|jobs|-1].arrival)
  }

  lemma {:induction false} LastArrivalBounds(jobs: seq<Job>)
    ensures LastArrival(jobs) >= 0.0 && forall i :: 0 <= i < |jobs| ==> jobs[i].arrival <= LastArrival(jobs)
  {
    if jobs != [] {
      var n := |jobs| - 1;
      LastArrivalBounds(jobs[..n]);
      assert forall i :: 0 <= i < n ==> jobs[..n][i] == jobs[i];
    }
  }

  /** The work an epoch does at least, unless it finishes a job. */
  function Unit(s: Setup, jobs: seq<Job>): (unit: real)
    requires Sane(s)
    ensures unit > 0.0
  {
    SlowestBounds(s.m, jobs, jobs);
    Product(Slowest(s.m, jobs, jobs), s.epoch);
    Slowest(s.m, jobs, jobs) * s.epoch
  }

  /** An instant by which everything that can be done is done: the last arrival, and then enough epochs.
      It can be computed before the run, and does not depend on the end time. */
  function Horizon(s: Setup, jobs: seq<Job>): real
    requires Sane(s)
  {
    LastArrival(jobs) + EpochsOf(jobs, Unit(s, jobs)) as real * s.epoch
  }

  /** One turn: an epoch of the need is used up with an epoch of time, or the time is that of an arrival. */
  lemma TurnWithin(s: Setup, st: State, next: State, least: real, unit: real)
    requires Sane(s) && Weighted(st.jobs) && Step(s, st) == Some(next)
    requires least > 0.0 && NoneSlower(s.m, st.jobs, least) && unit == least * s.epoch && unit > 0.0
    ensures || (EpochsOf(next.jobs, unit) < EpochsOf(st.jobs, unit) && next.now == st.now + s.epoch)
            || (next.jobs == st.jobs && exists i :: 0 <= i < |st.jobs| && next.now == st.jobs[i].arrival)
  {
    hide RunEpoch, Active, LaterArrivals, NextArrival, EpochsOf, Epochs, NoneSlower, Primary;
    if Active(st) == [] {
      var i :| 0 <= i < |st.jobs| && st.jobs[i].arrival == NextArrival(st);
    } else {
      forall i | 0 <= i < |st.jobs|
        ensures Epochs(next.jobs[i], unit) <= Epochs(st.jobs[i], unit)
        ensures i == Primary(s, st) ==> Epochs(next.jobs[i], unit) < Epochs(st.jobs[i], unit)
      {
        EpochNeedsLess(s, st, least, unit, i);
      }
      SumNeedsLess(st.jobs, next.jobs, unit, Primary(s, st));
      ActiveInRange(st, Primary(s, st));
    }
  }

  lemma ActiveInRange(st: State, i: nat)
    ensures i in Active(st) ==> i < |st.jobs|
  {
  }

  lemma SameSpeeds(m: Machine, a: seq<Job>, b: seq<Job>, least: real)
    requires |a| == |b| && NoneSlower(m, a, least) && forall i :: 0 <= i < |a| ==> SameJob(a[i], b[i])
    ensures NoneSlower(m, b, least)
  {
    forall i | 0 <= i < |b| ensures NeverSlower(m, b[i].workload, b, least) {
      assert NeverSlower(m, a[i].workload, a, least);
    }
  }

  /** The time, and the epochs still needed, are within the horizon. */
  ghost predicate Within(s: Setup, st: State, jobs: seq<Job>)
    requires Sane(s)
  {
    var need, all := EpochsOf(st.jobs, Unit(s, jobs)), EpochsOf(jobs, Unit(s, jobs));
    need <= all && st.now + need as real * s.epoch <= LastArrival(jobs) + all as real * s.epoch
  }

  lemma StaysWithin(s: Setup, st: State, next: State, jobs: seq<Job>)
    requires Sane(s) && Weighted(st.jobs) && Step(s, st) == Some(next) && Within(s, st, jobs)
    requires |st.jobs| == |jobs| && forall i :: 0 <= i < |jobs| ==> SameJob(jobs[i], st.jobs[i])
    ensures Within(s, next, jobs)
  {
    hide EpochsOf, LastArrival, Step, Unit, SameJob, Weighted;
    TurnUses(s, st, next, jobs);
    var unit := Unit(s, jobs);
    var before, after, all := EpochsOf(st.jobs, unit), EpochsOf(next.jobs, unit), EpochsOf(jobs, unit);
    NeedAndTime(st.now, next.now, before, after, all, LastArrival(jobs), s.epoch);
  }

  lemma TurnUses(s: Setup, st: State, next: State, jobs: seq<Job>)
    requires Sane(s) && Weighted(st.jobs) && Step(s, st) == Some(next)
    requires |st.jobs| == |jobs| && forall i :: 0 <= i < |jobs| ==> SameJob(jobs[i], st.jobs[i])
    ensures var unit := Unit(s, jobs);
            || (EpochsOf(next.jobs, unit) < EpochsOf(st.jobs, unit) && next.now == st.now + s.epoch)
            || (next.jobs == st.jobs && next.now <= LastArrival(jobs))
  {
    hide EpochsOf, LastArrival, Step, Slowest, NoneSlower;
    var least := Slowest(s.m, jobs, jobs);
    Uniformly(s.m, jobs);
    SameSpeeds(s.m, jobs, st.jobs, least);
    ArrivalsWithin(jobs, st.jobs);
    TurnWithin(s, st, next, least, Unit(s, jobs));
  }

  lemma Uniformly(m: Machine, jobs: seq<Job>)
    requires Positive(m)
    ensures Slowest(m, jobs, jobs) > 0.0 && NoneSlower(m, jobs, Slowest(m, jobs, jobs))
  {
    SlowestBounds(m, jobs, jobs);
  }

  lemma NeedAndTime(now: real, next: real, before: nat, after: nat, all: nat, late: real, epoch: real)
    requires epoch > 0.0 && before <= all && now + before as real * epoch <= late + all as real * epoch
    requires (after < before && next == now + epoch) || (after == before && next <= late)
    ensures after <= all && next + after as real * epoch <= late + all as real * epoch
  {
    if after < before {
      Scaled(after + 1, before, epoch);
      Scaled(after, before, epoch);
    } else {
      Scaled(after, all, epoch);
    }
  }

  lemma ArrivalsWithin(a: seq<Job>, b: seq<Job>)
    requires |a| == |b| && forall i :: 0 <= i < |a| ==> SameJob(a[i], b[i])
    ensures forall i :: 0 <= i < |b| ==> b[i].arrival <= LastArrival(a)
  {
    LastArrivalBounds(a);
    SameArrivals(a, b);
  }

  lemma Scaled(a: nat, b: nat, epoch: real)
    requires a <= b && epoch > 0.0
    ensures a as real * epoch <= b as real * epoch
    ensures (a + 1) as real * epoch == a as real * epoch + epoch
  {
  }

  /** Every state of a run is within the horizon. */
  lemma {:induction false} RunWithin(s: Setup, run: seq<State>, jobs: seq<Job>, k: nat)
    requires Sane(s) && RunFrom(s, run, jobs) && k < |run|
    ensures Within(s, run[k], jobs) && run[k].now <= Horizon(s, jobs)
  {
    LastArrivalBounds(jobs);
    if k > 0 {
      hide Within, Step, Inv;
      RunWithin(s, run, jobs, k - 1);
      RunKeeps(s, run, jobs, k - 1);
      assert Turn(s, run[k-1], run[k]);
      StaysWithin(s, run[k-1], run[k], jobs);
    }
    WithinByHorizon(s, run[k], jobs);
  }

  lemma WithinByHorizon(s: Setup, st: State, jobs: seq<Job>)
    requires Sane(s) && Within(s, st, jobs)
    ensures st.now <= Horizon(s, jobs)
  {
    hide EpochsOf, LastArrival, Unit;
    Scaled(0, EpochsOf(st.jobs, Unit(s, jobs)), s.epoch);
  }

  // ----- How the loop ends

  ghost predicate Tiny(jobs: seq<Job>) { exists i :: 0 <= i < |jobs| && jobs[i].work <= EPSILON }

  /** The loop would go on, but the turn raises. */
  ghost predicate Stuck(s: Setup, st: State)
    requires Sane(s)
  {
    Continues(s, st) && Weighted(st.jobs) && Step(s, st).None?
  }

  ghost predicate Complete(s: Setup, run: seq<State>)
    requires Sane(s) && run != []
  {
    !Continues(s, run[|run|-1]) || Stuck(s, run[|run|-1])
  }

  /** The loop raises on these jobs. */
  ghost predicate Raises(s: Setup, jobs: seq<Job>)
    requires Sane(s)
  {
    exists run :: RunFrom(s, run, jobs) && Stuck(s, run[|run|-1])
  }

  lemma StuckOnEpsilon(s: Setup, jobs: seq<Job>, st: State)
    requires Sane(s) && Weighted(st.jobs) && Inv(s, st) && Step(s, st).None? && Unfinished(st.jobs)
    requires |st.jobs| == |jobs| && forall i :: 0 <= i < |jobs| ==> SameJob(jobs[i], st.jobs[i])
    ensures Tiny(jobs)
  {
    StepRaisesExactly(s, st);
    var i :| 0 <= i < |st.jobs| && st.jobs[i].finish.None?;
    assert SameJob(jobs[i], st.jobs[i]);
  }

  /** With such a job the loop goes on until the end time, or raises. */
  lemma TinyRunsOut(s: Setup, run: seq<State>, jobs: seq<Job>)
    requires Sane(s) && RunFrom(s, run, jobs)
    ensures Tiny(jobs) ==> Unfinished(run[|run|-1].jobs)
  {
    if i :| 0 <= i < |jobs| && jobs[i].work <= EPSILON {
      TinyNeverFinishes(s, run, jobs, i, |run| - 1);
      assert run[|run|-1].jobs[i].finish.None?;
    }
  }

  /** If the end time is past the horizon, every job with more work than the epsilon finishes, whatever the
      currency, the guard and the order of service, and the loop raises exactly when some job has no more. */
  lemma AllFinish(s: Setup, run: seq<State>, jobs: seq<Job>)
    requires Sane(s) && RunFrom(s, run, jobs) && Complete(s, run) && s.end > Horizon(s, jobs)
    ensures var last := run[|run|-1];
            && |last.jobs| == |jobs|
            && (forall i :: 0 <= i < |jobs| && jobs[i].work > EPSILON ==> last.jobs[i].finish.Some?)
            && (Stuck(s, last) <==> Tiny(jobs))
  {
    var last := run[|run|-1];
    RunAllKeep(s, run, jobs);
    RunWithin(s, run, jobs, |run| - 1);
    TinyRunsOut(s, run, jobs);
    hide RunFrom, Inv, Horizon, Within, Step, Tiny;
    if Stuck(s, last) {
      StuckOnEpsilon(s, jobs, last);
      StuckHasFinished(s, jobs, last);
    }
  }

  lemma StuckHasFinished(s: Setup, jobs: seq<Job>, st: State)
    requires Sane(s) && Inv(s, st) && Stuck(s, st)
    requires |st.jobs| == |jobs| && forall i :: 0 <= i < |jobs| ==> SameJob(jobs[i], st.jobs[i])
    ensures forall i :: 0 <= i < |jobs| && jobs[i].work > EPSILON ==> st.jobs[i].finish.Some?
  {
    StepRaisesExactly(s, st);
    hide Inv, Step;
    forall i | 0 <= i < |jobs| && jobs[i].work > EPSILON ensures st.jobs[i].finish.Some? {
      assert SameJob(jobs[i], st.jobs[i]);
    }
  }

  /** Every run can be completed. */
  lemma {:induction false} CompleteRun(s: Setup, run: seq<State>, jobs: seq<Job>) returns (whole: seq<State>)
    requires Sane(s) && RunFrom(s, run, jobs)
    ensures RunFrom(s, whole, jobs) && whole != [] && Complete(s, whole)
    decreases Later(run[|run|-1].jobs, run[|run|-1].now), EpochsLeft(s, run[|run|-1].now)
  {
    var last := run[|run|-1];
    RunAllKeep(s, run, jobs);
    hide Inv, Step, EpochsLeft, Later;
    if Continues(s, last) && Step(s, last).Some? {
      var next := Step(s, last).value;
      TurnShrinks(s, last, next);
      RunStep(s, run, jobs, next);
      whole := CompleteRun(s, run + [next], jobs);
    } else {
      whole := run;
    }
  }

  /** Runs agree as far as both go. */
  lemma {:induction false} RunsAgree(s: Setup, a: seq<State>, b: seq<State>, jobs: seq<Job>, k: nat)
    requires Sane(s) && RunFrom(s, a, jobs) && RunFrom(s, b, jobs) && k < |a| && k < |b|
    ensures a[k] == b[k]
  {
    hide Step;
    if k > 0 {
      RunsAgree(s, a, b, jobs, k - 1);
      assert Turn(s, a[k-1], a[k]) && Turn(s, b[k-1], b[k]);
    }
  }

  /** So a complete run decides whether the loop raises. */
  lemma RaisesByRun(s: Setup, run: seq<State>, jobs: seq<Job>)
    requires Sane(s) && RunFrom(s, run, jobs) && Complete(s, run)
    ensures Raises(s, jobs) <==> Stuck(s, run[|run|-1])
  {
    hide Step;
    if other :| RunFrom(s, other, jobs) && Stuck(s, other[|other|-1]) {
      var n := if |run| < |other| then |run| else |other|;
      RunsAgree(s, run, other, jobs, n - 1);
      if |run| < |other| {
        assert Turn(s, other[n-1], other[n]);
      } else if |other| < |run| {
        assert Turn(s, run[n-1], run[n]);
      }
    }
  }

  /** Past the horizon the loop raises exactly when some job has no more work than the epsilon. */
  lemma RaisesPastHorizon(s: Setup, jobs: seq<Job>)
    requires Sane(s) && s.end > Horizon(s, jobs) && forall i :: 0 <= i < |jobs| ==> Fresh(jobs[i])
    ensures Raises(s, jobs) <==> Tiny(jobs)
  {
    RunStart(s, jobs);
    hide RunFrom, Horizon;
    var run := CompleteRun(s, [State(jobs, 0.0)], jobs);
    AllFinish(s, run, jobs);
    RaisesByRun(s, run, jobs);
  }

  /** For some end time the loop raises exactly when some job has no more work than the epsilon. */
  lemma RaisesForSomeEnd(s: Setup, jobs: seq<Job>)
    requires Sane(s) && forall i :: 0 <= i < |jobs| ==> Fresh(jobs[i])
    ensures (exists end :: Raises(s.(end := end), jobs)) <==> Tiny(jobs)
  {
    hide RunFrom, Horizon, Tiny;
    forall end | Raises(s.(end := end), jobs) ensures Tiny(jobs) {
      StuckIsTiny(s.(end := end), jobs);
    }
    if Tiny(jobs) {
      var late := s.(end := Horizon(s, jobs) + 1.0);
      SameHorizon(s, late, jobs);
      RaisesPastHorizon(late, jobs);
      assert Raises(s.(end := late.end), jobs);
    }
  }

  lemma StuckIsTiny(s: Setup, jobs: seq<Job>)
    requires Sane(s) && Raises(s, jobs)
    ensures Tiny(jobs)
  {
    var run :| RunFrom(s, run, jobs) && Stuck(s, run[|run|-1]);
    RunAllKeep(s, run, jobs);
    hide Inv, Step, RunFrom;
    StuckOnEpsilon(s, jobs, run[|run|-1]);
  }

  lemma SameHorizon(s: Setup, t: Setup, jobs: seq<Job>)
    requires Sane(s) && Sane(t) && s.m == t.m && s.epoch == t.epoch
    ensures Horizon(s, jobs) == Horizon(t, jobs)
  {
    assert Unit(s, jobs) == Unit(t, jobs);
  }

  // ----- The loop

  /** The loop of `burst_deadline_sim` from time 0, for any jobs with positive weights.  It always ends, and
      `run` is every state at its head.  If the end time is past the horizon, it raises exactly when some
      job has no more work than the epsilon, and all others finish. */
  method BurstLoop(s: Setup, jobs: seq<Job>) returns (r: Option<State>, ghost run: seq<State>)
    requires Sane(s) && forall i :: 0 <= i < |jobs| ==> Fresh(jobs[i])
    ensures RunFrom(s, run, jobs)
    ensures forall k :: 0 <= k < |run| ==> Inv(s, run[k])
    ensures var last := run[|run|-1];
            && (r.Some? ==> r.value == last && !Continues(s, last))
            && (r.None? ==> Stuck(s, last))
            && (r.None? <==> last.now < s.end && Tiny(jobs))
    ensures r.None? <==> Raises(s, jobs)
    ensures s.end > Horizon(s, jobs) ==>
              && (r.None? <==> Tiny(jobs))
              && |run[|run|-1].jobs| == |jobs|
              && forall i :: 0 <= i < |jobs| && jobs[i].work > EPSILON ==> run[|run|-1].jobs[i].finish.Some?
    ensures r.Some? ==>
              |r.value.jobs| == |jobs| && forall i :: 0 <= i < |jobs| ==> SameJob(jobs[i], r.value.jobs[i])
  {
    r, run := Loop(s, jobs);
    hide RunFrom, Inv, Horizon, Step, Raises, Tiny, Stuck;
    RunAllKeep(s, run, jobs);
    LoopEnds(s, run, jobs);
  }

  method Loop(s: Setup, jobs: seq<Job>) returns (r: Option<State>, ghost run: seq<State>)
    requires Sane(s) && forall i :: 0 <= i < |jobs| ==> Fresh(jobs[i])
    ensures RunFrom(s, run, jobs) && run != []
    ensures var last := run[|run|-1];
            if r.None? then Stuck(s, last) else r.value == last && !Continues(s, last)
  {
    var st := State(jobs, 0.0);
    run := [st];
    RunStart(s, jobs);
    hide Inv, RunFrom, Step, EpochsLeft, Later, SameJob;
    while st.now < s.end && Unfinished(st.jobs)
      invariant run != [] && RunFrom(s, run, jobs) && run[|run|-1] == st
      decreases Later(st.jobs, st.now), EpochsLeft(s, st.now)
    {
      RunAllKeep(s, run, jobs);
      var next := TakeTurn(s, st);
      if next.None? {
        return None, run;
      }
      TurnShrinks(s, st, next.value);
      RunStep(s, run, jobs, next.value);
      run := run + [next.value];
      st := next.value;
    }
    return Some(st), run;
  }

  lemma LoopEnds(s: Setup, run: seq<State>, jobs: seq<Job>)
    requires Sane(s) && RunFrom(s, run, jobs) && Complete(s, run)
    ensures var last := run[|run|-1];
            && (Stuck(s, last) <==> Raises(s, jobs)) && (Stuck(s, last) <==> last.now < s.end && Tiny(jobs))
            && (s.end > Horizon(s, jobs) ==>
                  && (Stuck(s, last) <==> Tiny(jobs)) && |last.jobs| == |jobs|
                  && forall i :: 0 <= i < |jobs| && jobs[i].work > EPSILON ==> last.jobs[i].finish.Some?)
  {
    var last := run[|run|-1];
    RaisesByRun(s, run, jobs);
    TinyRunsOut(s, run, jobs);
    RunAllKeep(s, run, jobs);
    hide RunFrom, Inv, Horizon, Step, Raises;
    if Stuck(s, last) {
      StuckOnEpsilon(s, jobs, last);
    }
    if s.end > Horizon(s, jobs) {
      AllFinish(s, run, jobs);
    }
  }
}

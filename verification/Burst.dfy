/** The burst simulator: at most two jobs co-run, chosen by least virtual service with an optional
    slack guard and a progress floor for the video job. */
module Burst {
  import opened Wrappers
  import opened Numbers
  import opened Ordering
  import opened Utf8
  import opened Currency

  const EPSILON := 0.000000001
  const RISKY_SLACK := 12.0
  const PROGRESS_FLOOR := 20.0

  type Workload = nat

  datatype Kind = Video | Urgent | Other

  /** `Workload.speed` of one job beside at most one co-runner, `solo_speed` and `dominant_fraction`. */
  datatype Machine = Machine(speed: (Workload, real, Option<(Workload, real)>) -> real,
                             solo: (Workload, real) -> real,
                             dominant: (Workload, real, real) -> real)

  ghost predicate Positive(m: Machine) {
    && (forall w, share, other :: m.speed(w, share, other) > 0.0)
    && (forall w, share :: m.solo(w, share) > 0.0)
  }

  datatype Job = Job(name: Text, workload: Workload, arrival: real, work: real, deadline: Option<real>,
                     kind: Kind, weight: real, remaining: real, vruntime: real, finish: Option<real>,
                     lastProgress: Option<real>, maxNoProgress: real)

  datatype Setup = Setup(m: Machine, currency: Currency, guard: bool, epoch: real, end: real)

  ghost predicate Sane(s: Setup) { Positive(s.m) && s.epoch > 0.0 }

  datatype State = State(jobs: seq<Job>, now: real)

  // ----- Choosing who runs

  predicate IsActive(job: Job, now: real) { job.arrival <= now && job.finish.None? && job.remaining > EPSILON }

  /** Indices of the jobs that satisfy a test, in list order. */
  function Where(jobs: seq<Job>, test: Job -> bool): (r: seq<nat>)
    ensures forall i :: i in r <==> 0 <= i < |jobs| && test(jobs[i])
  {
    if jobs == [] then []
    else
      var n := |jobs| - 1;
      Where(jobs[..n], test) + if test(jobs[n]) then [n] else []
  }

  function Active(st: State): (r: seq<nat>)
    ensures forall i :: i in r <==> 0 <= i < |st.jobs| && IsActive(st.jobs[i], st.now)
  {
    Where(st.jobs, (job: Job) => IsActive(job, st.now))
  }

  /** Python's `min`: the first candidate no other is strictly below. */
  function MinBy(candidates: seq<nat>, less: (nat, nat) -> bool): (r: nat)
    requires candidates != []
    ensures r in candidates
  {
    if |candidates| == 1 then candidates[0]
    else
      var best, last := MinBy(candidates[..|candidates|-1], less), candidates[|candidates|-1];
      if less(last, best) then last else best
  }

  /** Strictly below by (vruntime, arrival_ms, name). */
  predicate LessService(a: Job, b: Job) {
    || a.vruntime < b.vruntime
    || (a.vruntime == b.vruntime
        && (a.arrival < b.arrival || (a.arrival == b.arrival && a.name != b.name && LexLeq(a.name, b.name))))
  }

  /** Deadline less now less predicted remaining time; None when there is no (non-zero) deadline. */
  function Slack(m: Machine, job: Job, now: real): Option<real>
    requires Positive(m)
  {
    if job.deadline.None? || job.deadline.value == 0.0 then None
    else Some(job.deadline.value - now - job.remaining / m.solo(job.workload, 0.75))
  }

  predicate Risky(m: Machine, job: Job, now: real)
    requires Positive(m)
  {
    job.kind == Urgent && Slack(m, job, now).Some? && Slack(m, job, now).value < RISKY_SLACK
  }

  /** Strictly below by (slack, vruntime). */
  predicate LessSlack(m: Machine, a: Job, b: Job, now: real)
    requires Positive(m) && Risky(m, a, now) && Risky(m, b, now)
  {
    var x, y := Slack(m, a, now).value, Slack(m, b, now).value;
    x < y || (x == y && a.vruntime < b.vruntime)
  }

  ghost predicate InRange(jobs: seq<Job>, indices: seq<nat>) {
    forall k :: 0 <= k < |indices| ==> indices[k] < |jobs|
  }

  function LeastService(jobs: seq<Job>, candidates: seq<nat>): (r: nat)
    requires candidates != []
    ensures r in candidates
  {
    MinBy(candidates, (i: nat, j: nat) => i < |jobs| && j < |jobs| && LessService(jobs[i], jobs[j]))
  }

  function RiskyJobs(s: Setup, st: State): (r: seq<nat>)
    requires Sane(s)
    ensures forall i :: i in r <==> i in Active(st) && Risky(s.m, st.jobs[i], st.now)
  {
    Where(st.jobs, (job: Job) => IsActive(job, st.now) && Risky(s.m, job, st.now))
  }

  function Primary(s: Setup, st: State): (p: nat)
    requires Sane(s) && Active(st) != []
    ensures p in Active(st)
  {
    var risky := RiskyJobs(s, st);
    if s.guard && risky != [] then
      MinBy(risky, (i: nat, j: nat) =>
              i in risky && j in risky && LessSlack(s.m, st.jobs[i], st.jobs[j], st.now))
    else LeastService(st.jobs, Active(st))
  }

  function OtherActive(st: State, p: nat): (r: seq<nat>)
    ensures forall i :: i in r <==> i in Active(st) && i != p
    ensures InRange(st.jobs, r)
  {
    var r := Without(Active(st), p);
    assert forall k :: 0 <= k < |r| ==> r[k] in Active(st);
    r
  }

  function Without(s: seq<nat>, p: nat): (r: seq<nat>)
    ensures forall i :: i in r <==> i in s && i != p
  {
    if s == [] then [] else (if s[0] == p then [] else [s[0]]) + Without(s[1..], p)
  }

  /** The first video job among the others, if it is due for the floor. */
  predicate Starving(job: Job, now: real) {
    job.kind == Video && job.lastProgress.Some? && now - job.lastProgress.value >= PROGRESS_FLOOR
  }

  function FirstVideo(jobs: seq<Job>, others: seq<nat>): (r: Option<nat>)
    requires InRange(jobs, others)
    ensures r.Some? ==> r.value in others && jobs[r.value].kind == Video
    ensures r.None? ==> forall i :: i in others ==> jobs[i].kind != Video
  {
    if others == [] then None
    else if jobs[others[0]].kind == Video then Some(others[0])
    else FirstVideo(jobs, others[1..])
  }

  function Secondary(st: State, others: seq<nat>): (q: nat)
    requires others != [] && InRange(st.jobs, others)
    ensures q in others
  {
    var video := FirstVideo(st.jobs, others);
    if video.Some? && Starving(st.jobs[video.value], st.now) then video.value
    else LeastService(st.jobs, others)
  }

  // ----- One epoch

  function NoteGap(job: Job, now: real): Job {
    if job.lastProgress.None? then job
    else job.(maxNoProgress := MaxReal(job.maxNoProgress, now - job.lastProgress.value))
  }

  function NoteGaps(st: State): (jobs: seq<Job>)
    ensures |jobs| == |st.jobs|
  {
    seq(|st.jobs|, i requires 0 <= i < |st.jobs| =>
      if IsActive(st.jobs[i], st.now) then NoteGap(st.jobs[i], st.now) else st.jobs[i])
  }

  function WorkDone(s: Setup, job: Job, share: real, other: Option<(Workload, real)>): real {
    MinReal(job.remaining, s.m.speed(job.workload, share, other) * s.epoch)
  }

  function Elapsed(s: Setup, job: Job, share: real, other: Option<(Workload, real)>): real
    requires Sane(s)
  {
    WorkDone(s, job, share, other) / s.m.speed(job.workload, share, other)
  }

  /** A running job over one epoch. */
  function Advance(s: Setup, now: real, job: Job, share: real, other: Option<(Workload, real)>): Job
    requires Sane(s) && job.weight > 0.0
  {
    var speed := s.m.speed(job.workload, share, other);
    var work, dt := WorkDone(s, job, share, other), Elapsed(s, job, share, other);
    var left := job.remaining - work;
    job.(remaining := left,
         lastProgress := Some(now + dt),
         vruntime := job.vruntime
                   + CurrencyDelta(s.currency, dt, share, work, s.m.dominant(job.workload, share, speed), job.weight),
         finish := if left <= EPSILON then Some(now + dt) else job.finish)
  }

  ghost predicate Weighted(jobs: seq<Job>) { forall i :: 0 <= i < |jobs| ==> jobs[i].weight > 0.0 }

  /** The jobs after an epoch with something active. */
  function RunEpoch(s: Setup, st: State): (jobs: seq<Job>)
    requires Sane(s) && Weighted(st.jobs) && Active(st) != []
    ensures |jobs| == |st.jobs|
  {
    var p := Primary(s, st);
    var others := OtherActive(st, p);
    var noted := NoteGaps(st);
    if others == [] then noted[p := Advance(s, st.now, noted[p], 1.0, None)]
    else
      var q := Secondary(st, others);
      noted[p := Advance(s, st.now, noted[p], 0.75, Some((noted[q].workload, 0.25)))]
           [q := Advance(s, st.now, noted[q], 0.25, Some((noted[p].workload, 0.75)))]
  }

  function LaterArrivals(st: State): (r: seq<nat>)
    ensures forall i :: i in r <==> 0 <= i < |st.jobs| && st.jobs[i].arrival > st.now
  {
    Where(st.jobs, (job: Job) => job.arrival > st.now)
  }

  function NextArrival(st: State): (t: real)
    requires LaterArrivals(st) != []
    ensures t > st.now && exists i :: 0 <= i < |st.jobs| && st.jobs[i].arrival == t
  {
    var later := LaterArrivals(st);
    var i := MinBy(later, (i: nat, j: nat) =>
                            i < |st.jobs| && j < |st.jobs| && st.jobs[i].arrival < st.jobs[j].arrival);
    st.jobs[i].arrival
  }

  /** One turn of the loop; None is the ValueError of `min` over no later arrivals. */
  function Step(s: Setup, st: State): Option<State>
    requires Sane(s) && Weighted(st.jobs)
  {
    if Active(st) == [] then
      if LaterArrivals(st) == [] then None else Some(st.(now := NextArrival(st)))
    else Some(State(RunEpoch(s, st), st.now + s.epoch))
  }

  // ----- What every turn keeps

  ghost predicate Fresh(job: Job) {
    && job.remaining == job.work && job.vruntime == 0.0 && job.finish.None?
    && job.lastProgress.None? && job.maxNoProgress == 0.0 && job.weight > 0.0
  }

  /** The ledger of one job at a loop head. */
  ghost predicate Ledger(s: Setup, job: Job, now: real) {
    && job.weight > 0.0
    && (s.currency == FgeProgress ==> job.vruntime * job.weight == job.work - job.remaining)
    && (s.currency == SmTime ==> job.vruntime >= 0.0)
    && job.remaining <= job.work
    && (job.lastProgress.None? ==> job.remaining == job.work && job.finish.None?)
    && (job.lastProgress.Some? ==> job.arrival <= job.lastProgress.value <= now && job.remaining >= 0.0)
    // `finish_ms` marks the moment the remaining work reached the epsilon.
    && (job.finish.Some? ==> job.remaining <= EPSILON && job.finish == job.lastProgress)
    && (job.lastProgress.Some? && job.finish.None? ==> job.remaining > EPSILON)
  }

  /** The no-progress gap of a video job that has started and not finished. */
  ghost predicate FloorKept(s: Setup, job: Job, now: real) {
    job.kind == Video ==>
      && job.maxNoProgress < PROGRESS_FLOOR + s.epoch
      && (job.lastProgress.Some? && job.finish.None? ==> now - job.lastProgress.value < PROGRESS_FLOOR + s.epoch)
  }

  ghost predicate OneVideo(jobs: seq<Job>) {
    forall i, j :: 0 <= i < |jobs| && 0 <= j < |jobs| && jobs[i].kind == Video && jobs[j].kind == Video ==> i == j
  }

  /** Virtual service times weight: of a job, and over all jobs. */
  function Charged(job: Job): real { job.vruntime * job.weight }

  function Service(jobs: seq<Job>): real {
    if jobs == [] then 0.0 else Service(jobs[..|jobs|-1]) + Charged(jobs[|jobs|-1])
  }

  ghost predicate Inv(s: Setup, st: State) {
    && (forall i :: 0 <= i < |st.jobs| ==> Ledger(s, st.jobs[i], st.now))
    && (s.currency == SmTime ==> Service(st.jobs) <= st.now)
    && (OneVideo(st.jobs) ==> forall i :: 0 <= i < |st.jobs| ==> FloorKept(s, st.jobs[i], st.now))
  }

  ghost predicate SameJob(a: Job, b: Job) {
    && a.name == b.name && a.workload == b.workload && a.arrival == b.arrival && a.work == b.work
    && a.deadline == b.deadline && a.kind == b.kind && a.weight == b.weight
  }

  // Arithmetic of one charge.

  lemma ElapsedBounds(s: Setup, job: Job, share: real, other: Option<(Workload, real)>)
    requires Sane(s) && job.remaining > 0.0
    ensures 0.0 < WorkDone(s, job, share, other) <= job.remaining
    ensures 0.0 < Elapsed(s, job, share, other) <= s.epoch
  {
    var speed := s.m.speed(job.workload, share, other);
    var work := WorkDone(s, job, share, other);
    Product(speed, s.epoch);
    QuotientAtMost(work, speed, s.epoch);
  }

  lemma ElapsedTimesSpeed(s: Setup, job: Job, share: real, other: Option<(Workload, real)>)
    requires Sane(s)
    ensures s.m.speed(job.workload, share, other) * Elapsed(s, job, share, other) == WorkDone(s, job, share, other)
  {
  }

  lemma Product(a: real, b: real)
    requires a > 0.0 && b > 0.0
    ensures a * b > 0.0
  {
  }

  lemma QuotientAtMost(work: real, speed: real, epoch: real)
    requires speed > 0.0 && 0.0 < work <= speed * epoch
    ensures 0.0 < work / speed <= epoch
  {
    var q := work / speed;
    assert q * speed == work;
    assert (q - epoch) * speed == q * speed - epoch * speed;
    if q > epoch {
      Product(q - epoch, speed);
    }
  }

  lemma ChargeTimesWeight(v: real, charge: real, weight: real)
    requires weight > 0.0
    ensures (v + charge / weight) * weight == v * weight + charge
  {
    var q := charge / weight;
    assert q * weight == charge;
    assert (v + q) * weight == v * weight + q * weight;
  }

  /** What one epoch does to a job that runs in it. */
  lemma AdvanceKeeps(s: Setup, now: real, job: Job, share: real, other: Option<(Workload, real)>)
    requires Sane(s) && Ledger(s, job, now) && IsActive(job, now) && share > 0.0
    ensures var after := Advance(s, now, job, share, other);
            && Ledger(s, after, now + s.epoch) && SameJob(job, after)
            && after.lastProgress.Some? && after.lastProgress.value > now
            && after.maxNoProgress == job.maxNoProgress
            && job.remaining - after.remaining
               == s.m.speed(job.workload, share, other) * (after.lastProgress.value - now)
            && (s.currency == SmTime ==>
                  Charged(after) <= Charged(job) + share * s.epoch)
  {
    var dt, work := Elapsed(s, job, share, other), WorkDone(s, job, share, other);
    ElapsedBounds(s, job, share, other);
    ElapsedTimesSpeed(s, job, share, other);
    hide Elapsed, WorkDone;
    var after := Advance(s, now, job, share, other);
    ChargeTimesWeight(job.vruntime, work, job.weight);
    ChargeTimesWeight(job.vruntime, share * dt, job.weight);
    if s.currency == SmTime {
      ShareAtMost(share, dt, s.epoch);
      ChargePositive(share, dt, job.weight);
    }
  }

  lemma ShareAtMost(share: real, dt: real, epoch: real)
    requires share > 0.0 && dt <= epoch
    ensures share * dt <= share * epoch
  {
  }

  lemma ChargePositive(share: real, dt: real, weight: real)
    requires share > 0.0 && dt > 0.0 && weight > 0.0
    ensures share * dt / weight > 0.0
  {
    Product(share, dt);
  }

  lemma NotedKeeps(s: Setup, st: State, i: nat)
    requires i < |st.jobs| && Inv(s, st)
    ensures var noted := NoteGaps(st)[i];
            && Ledger(s, noted, st.now) && SameJob(noted, st.jobs[i])
            && noted.finish == st.jobs[i].finish && noted.lastProgress == st.jobs[i].lastProgress
            && noted.remaining == st.jobs[i].remaining && noted.vruntime == st.jobs[i].vruntime
            && (IsActive(noted, st.now) <==> IsActive(st.jobs[i], st.now))
            && (OneVideo(st.jobs) ==> FloorKept(s, noted, st.now))
            && (!IsActive(st.jobs[i], st.now) ==> noted == st.jobs[i])
  {
  }

  lemma LedgerLater(s: Setup, job: Job, now: real, later: real)
    requires Ledger(s, job, now) && now <= later
    ensures Ledger(s, job, later)
  {
  }

  lemma {:induction false} ServiceUpdate(jobs: seq<Job>, i: nat, job: Job)
    requires i < |jobs|
    ensures Service(jobs[i := job]) == Service(jobs) - Charged(jobs[i]) + Charged(job)
  {
    hide Charged;
    var n := |jobs| - 1;
    if i < n {
      assert jobs[i := job][..n] == jobs[..n][i := job];
      ServiceUpdate(jobs[..n], i, job);
    } else {
      assert jobs[i := job][..n] == jobs[..n];
    }
  }

  lemma {:induction false} ServiceSame(a: seq<Job>, b: seq<Job>)
    requires |a| == |b| && forall i :: 0 <= i < |a| ==> a[i].vruntime == b[i].vruntime && a[i].weight == b[i].weight
    ensures Service(a) == Service(b)
  {
    if a != [] {
      ServiceSame(a[..|a|-1], b[..|b|-1]);
    }
  }

  /** The jobs that run in an epoch, with their shares. */
  ghost function Ran(s: Setup, st: State): (r: set<nat>)
    requires Sane(s) && Active(st) != []
    ensures forall i :: i in r ==> i in Active(st)
  {
    var p := Primary(s, st);
    var others := OtherActive(st, p);
    if others == [] then {p} else {p, Secondary(st, others)}
  }

  /** Each job after an epoch: run, or only its gap noted. */
  lemma EpochJob(s: Setup, st: State, i: nat)
    requires Sane(s) && Inv(s, st) && Active(st) != [] && i < |st.jobs| && Weighted(st.jobs)
    ensures var after := RunEpoch(s, st)[i];
            && Ledger(s, after, st.now + s.epoch) && SameJob(st.jobs[i], after)
            && after.maxNoProgress == NoteGaps(st)[i].maxNoProgress
            && (i in Ran(s, st) ==> after.lastProgress.Some? && after.lastProgress.value > st.now)
            && (i !in Ran(s, st) ==> after == NoteGaps(st)[i])
  {
    var p := Primary(s, st);
    var others := OtherActive(st, p);
    var noted := NoteGaps(st);
    NotedKeeps(s, st, i);
    hide Primary, Secondary, NoteGaps, Ledger, Advance, Active, OtherActive, SameJob;
    LedgerLater(s, noted[i], st.now, st.now + s.epoch);
    if i == p {
      if others == [] {
        AdvanceKeeps(s, st.now, noted[i], 1.0, None);
      } else {
        AdvanceKeeps(s, st.now, noted[i], 0.75, Some((noted[Secondary(st, others)].workload, 0.25)));
      }
    } else if others != [] && i == Secondary(st, others) {
      AdvanceKeeps(s, st.now, noted[i], 0.25, Some((noted[p].workload, 0.75)));
    }
    assert SameJob(noted[i], st.jobs[i]);
    SameJobs(st.jobs[i], noted[i], RunEpoch(s, st)[i]);
  }

  lemma SameJobs(a: Job, b: Job, c: Job)
    requires SameJob(b, a) && SameJob(b, c)
    ensures SameJob(a, c)
  {
  }

  /** Two running jobs use at most one machine. */
  lemma EpochService(s: Setup, st: State)
    requires Sane(s) && Inv(s, st) && Active(st) != [] && Weighted(st.jobs) && s.currency == SmTime
    ensures Service(RunEpoch(s, st)) <= st.now + s.epoch
  {
    var p := Primary(s, st);
    var others := OtherActive(st, p);
    var noted := NoteGaps(st);
    forall i | 0 <= i < |noted|
      ensures noted[i].vruntime == st.jobs[i].vruntime && noted[i].weight == st.jobs[i].weight
    {
      NotedKeeps(s, st, i);
    }
    ServiceSame(noted, st.jobs);
    NotedKeeps(s, st, p);
    hide Primary, Secondary, NoteGaps, Ledger, Advance, Active, OtherActive, SameJob;
    if others == [] {
      AloneService(s, st.now, noted, p);
    } else {
      var q := Secondary(st, others);
      NotedKeeps(s, st, q);
      PairService(s, st.now, noted, p, q);
    }
  }

  lemma AloneService(s: Setup, now: real, jobs: seq<Job>, p: nat)
    requires Sane(s) && p < |jobs| && s.currency == SmTime
    requires Ledger(s, jobs[p], now) && IsActive(jobs[p], now)
    ensures Service(jobs[p := Advance(s, now, jobs[p], 1.0, None)]) <= Service(jobs) + s.epoch
  {
    hide Charged;
    AdvanceKeeps(s, now, jobs[p], 1.0, None);
    ServiceUpdate(jobs, p, Advance(s, now, jobs[p], 1.0, None));
  }

  lemma PairService(s: Setup, now: real, jobs: seq<Job>, p: nat, q: nat)
    requires Sane(s) && p < |jobs| && q < |jobs| && p != q && s.currency == SmTime
    requires Ledger(s, jobs[p], now) && IsActive(jobs[p], now)
    requires Ledger(s, jobs[q], now) && IsActive(jobs[q], now)
    ensures Service(jobs[p := Advance(s, now, jobs[p], 0.75, Some((jobs[q].workload, 0.25)))]
                        [q := Advance(s, now, jobs[q], 0.25, Some((jobs[p].workload, 0.75)))])
         <= Service(jobs) + s.epoch
  {
    var first := Advance(s, now, jobs[p], 0.75, Some((jobs[q].workload, 0.25)));
    var second := Advance(s, now, jobs[q], 0.25, Some((jobs[p].workload, 0.75)));
    AdvanceKeeps(s, now, jobs[p], 0.75, Some((jobs[q].workload, 0.25)));
    AdvanceKeeps(s, now, jobs[q], 0.25, Some((jobs[p].workload, 0.75)));
    hide Advance, Ledger, SameJob, Charged;
    ServiceUpdate(jobs, p, first);
    ServiceUpdate(jobs[p := first], q, second);
  }

  /** A starving video job always runs. */
  lemma StarvingRuns(s: Setup, st: State, v: nat)
    requires Sane(s) && OneVideo(st.jobs) && v in Active(st) && Starving(st.jobs[v], st.now)
    ensures v in Ran(s, st)
  {
    var p := Primary(s, st);
    var others := OtherActive(st, p);
    if v != p {
      assert v in others;
      var video := FirstVideo(st.jobs, others);
      assert video == Some(v);
    }
  }

  lemma EpochFloor(s: Setup, st: State, v: nat)
    requires Sane(s) && Inv(s, st) && Active(st) != [] && Weighted(st.jobs) && v < |st.jobs| && OneVideo(st.jobs)
    ensures FloorKept(s, RunEpoch(s, st)[v], st.now + s.epoch)
  {
    EpochJob(s, st, v);
    NotedKeeps(s, st, v);
    if st.jobs[v].kind == Video && v in Active(st) && Starving(st.jobs[v], st.now) {
      StarvingRuns(s, st, v);
    }
    hide RunEpoch, NoteGaps, Ran;
  }

  /** Every turn of the loop keeps every job's ledger, the machine's total, and the video's floor. */
  lemma StepKeeps(s: Setup, st: State)
    requires Sane(s) && Weighted(st.jobs) && Inv(s, st) && Step(s, st).Some?
    ensures Inv(s, Step(s, st).value) && Weighted(Step(s, st).value.jobs)
    ensures Step(s, st).value.now > st.now && |Step(s, st).value.jobs| == |st.jobs|
    ensures forall i :: 0 <= i < |st.jobs| ==> SameJob(st.jobs[i], Step(s, st).value.jobs[i])
  {
    hide Inv, RunEpoch;
    if Active(st) == [] {
      IdleKeeps(s, st);
    } else {
      EpochKeeps(s, st);
    }
  }

  lemma IdleKeeps(s: Setup, st: State)
    requires Sane(s) && Inv(s, st) && Active(st) == [] && LaterArrivals(st) != []
    ensures Inv(s, st.(now := NextArrival(st)))
  {
    var later := NextArrival(st);
    forall i | 0 <= i < |st.jobs| ensures Ledger(s, st.jobs[i], later) {
      LedgerLater(s, st.jobs[i], st.now, later);
    }
    forall i | 0 <= i < |st.jobs| && OneVideo(st.jobs) ensures FloorKept(s, st.jobs[i], later) {
      assert i !in Active(st);
    }
  }

  lemma EpochKeeps(s: Setup, st: State)
    requires Sane(s) && Weighted(st.jobs) && Inv(s, st) && Active(st) != []
    ensures Inv(s, State(RunEpoch(s, st), st.now + s.epoch))
    ensures forall i :: 0 <= i < |st.jobs| ==> SameJob(st.jobs[i], RunEpoch(s, st)[i])
  {
    hide RunEpoch, Ledger, FloorKept, Active, NoteGaps, Service, Primary, Ran;
    var jobs, now := RunEpoch(s, st), st.now + s.epoch;
    forall i | 0 <= i < |st.jobs| ensures Ledger(s, jobs[i], now) && SameJob(st.jobs[i], jobs[i]) {
      EpochJob(s, st, i);
    }
    if s.currency == SmTime {
      EpochService(s, st);
    }
    if OneVideo(jobs) {
      assert OneVideo(st.jobs) by {
        assert forall i :: 0 <= i < |st.jobs| ==> SameJob(st.jobs[i], jobs[i]);
      }
      forall i | 0 <= i < |st.jobs| ensures FloorKept(s, jobs[i], now) {
        EpochFloor(s, st, i);
      }
    }
  }

  /** `max_no_progress_ms` takes the gap of every active job that has started, whether it runs or not. */
  lemma GapRecorded(s: Setup, st: State, i: nat)
    requires Sane(s) && Inv(s, st) && Weighted(st.jobs) && i in Active(st) && st.jobs[i].lastProgress.Some?
    ensures RunEpoch(s, st)[i].maxNoProgress
         == MaxReal(st.jobs[i].maxNoProgress, st.now - st.jobs[i].lastProgress.value)
  {
    EpochJob(s, st, i);
  }

  /** A turn leaves a job that is not active as it was. */
  lemma InactiveStays(s: Setup, st: State, i: nat)
    requires Sane(s) && Weighted(st.jobs) && Inv(s, st) && Step(s, st).Some?
    requires i < |st.jobs| && !IsActive(st.jobs[i], st.now)
    ensures Step(s, st).value.jobs[i] == st.jobs[i]
  {
    if Active(st) != [] {
      EpochJob(s, st, i);
      NotedKeeps(s, st, i);
    }
  }

  /** A turn takes the minimum of nothing exactly when every unfinished job has arrived with no more
      work than the epsilon; so never when all work exceeds it. */
  lemma StepRaisesExactly(s: Setup, st: State)
    requires Sane(s) && Weighted(st.jobs) && Inv(s, st)
    ensures Step(s, st).None? <==>
              forall i :: 0 <= i < |st.jobs| ==>
                st.jobs[i].arrival <= st.now && (st.jobs[i].finish.None? ==> st.jobs[i].work <= EPSILON)
  {
    if Step(s, st).None? {
      forall i | 0 <= i < |st.jobs|
        ensures st.jobs[i].arrival <= st.now && (st.jobs[i].finish.None? ==> st.jobs[i].work <= EPSILON)
      {
        assert i !in Active(st) && i !in LaterArrivals(st);
      }
    } else if Active(st) != [] {
      assert Active(st)[0] in Active(st);
    } else {
      assert LaterArrivals(st)[0] in LaterArrivals(st);
    }
  }

  // ----- Who is chosen

  ghost predicate Ascending(indices: seq<nat>) { forall a, b :: 0 <= a < b < |indices| ==> indices[a] < indices[b] }

  lemma {:induction false} WhereAscends(jobs: seq<Job>, test: Job -> bool)
    ensures Ascending(Where(jobs, test))
  {
    if jobs != [] {
      var n := |jobs| - 1;
      WhereAscends(jobs[..n], test);
      assert forall k :: 0 <= k < |Where(jobs[..n], test)| ==> Where(jobs[..n], test)[k] in Where(jobs[..n], test);
    }
  }

  lemma {:induction false} WithoutAscends(s: seq<nat>, p: nat)
    requires Ascending(s)
    ensures Ascending(Without(s, p))
  {
    if s != [] {
      WithoutAscends(s[1..], p);
      var rest := Without(s[1..], p);
      forall k | 0 <= k < |rest| ensures s[0] < rest[k] {
        assert rest[k] in rest;
        assert rest[k] in s[1..];
      }
    }
  }

  lemma ActiveAscends(st: State, p: nat)
    ensures Ascending(Active(st)) && Ascending(OtherActive(st, p))
  {
    WhereAscends(st.jobs, (job: Job) => IsActive(job, st.now));
    WithoutAscends(Active(st), p);
  }

  /** `less` orders the candidates, up to ties. */
  ghost predicate StrictWeak(candidates: seq<nat>, less: (nat, nat) -> bool) {
    && (forall x, y :: x in candidates && y in candidates ==> !(less(x, y) && less(y, x)))
    && (forall x, y, z :: x in candidates && y in candidates && z in candidates && less(x, y) ==>
          less(x, z) || less(z, y))
  }

  /** Python's `min`: nothing is below what it takes, and among ties it takes the first. */
  lemma {:induction false} MinByFirst(candidates: seq<nat>, less: (nat, nat) -> bool, i: nat)
    requires candidates != [] && i in candidates && StrictWeak(candidates, less)
    ensures var r := MinBy(candidates, less); !less(i, r) && (Ascending(candidates) && i < r ==> less(r, i))
  {
    var n := |candidates| - 1;
    if n > 0 {
      var front, last := candidates[..n], candidates[n];
      var best := MinBy(front, less);
      assert best in front && candidates == front + [last];
      FrontWeak(front, last, less);
      if i in front {
        MinByFirst(front, less, i);
      }
      assert MinBy(candidates, less) == if less(last, best) then last else best;
      hide StrictWeak, Ascending, MinBy;
      Weakly(candidates, less, last, best, i);
      Weakly(candidates, less, i, last, best);
    }
  }

  lemma FrontWeak(front: seq<nat>, last: nat, less: (nat, nat) -> bool)
    requires StrictWeak(front + [last], less)
    ensures StrictWeak(front, less)
    ensures Ascending(front + [last]) ==> Ascending(front) && forall x :: x in front ==> x < last
  {
    var all := front + [last];
    assert forall x :: x in front ==> x in all;
    assert all[|front|] == last && forall k :: 0 <= k < |front| ==> all[k] == front[k];
    if Ascending(all) {
      forall x | x in front ensures x < last {
        var k :| 0 <= k < |front| && front[k] == x;
        assert all[k] < all[|front|];
      }
    }
  }

  lemma Weakly(candidates: seq<nat>, less: (nat, nat) -> bool, x: nat, y: nat, z: nat)
    requires StrictWeak(candidates, less) && x in candidates && y in candidates && z in candidates
    ensures less(x, y) ==> !less(y, x) && (less(x, z) || less(z, y))
  {
  }

  /** Below by (vruntime, arrival_ms, name), told on the fields. */
  ghost predicate ServedLess(a: Job, b: Job) {
    || a.vruntime < b.vruntime
    || (a.vruntime == b.vruntime && a.arrival < b.arrival)
    || (a.vruntime == b.vruntime && a.arrival == b.arrival && a.name != b.name && Precedes(a.name, b.name))
  }

  lemma LessServiceIs(a: Job, b: Job)
    ensures LessService(a, b) <==> ServedLess(a, b)
  {
    LexByIndex(a.name, b.name);
    hide Precedes;
  }

  lemma LessServiceOneWay(a: Job, b: Job)
    requires LessService(a, b)
    ensures !LessService(b, a)
  {
    LexTotal(a.name, b.name);
    hide LexLeq;
  }

  lemma LessServiceWeak(a: Job, b: Job, c: Job)
    requires LessService(a, b)
    ensures LessService(a, c) || LessService(c, b)
  {
    LexTotal(a.name, c.name);
    LexTotal(c.name, b.name);
    LexTotal(a.name, b.name);
    if LexLeq(b.name, c.name) && LexLeq(c.name, a.name) {
      LexTransitive(b.name, c.name, a.name);
    }
    if LexLeq(a.name, b.name) && LexLeq(b.name, c.name) {
      LexTransitive(a.name, b.name, c.name);
    }
    if LexLeq(c.name, a.name) && LexLeq(a.name, b.name) {
      LexTransitive(c.name, a.name, b.name);
    }
    hide LexLeq;
  }

  /** No candidate has received less virtual service than the one chosen for it, and, the candidates being
      in list order, none before it as little. */
  lemma LeastServiceIsLeast(jobs: seq<Job>, candidates: seq<nat>, i: nat)
    requires candidates != [] && InRange(jobs, candidates) && i in candidates
    ensures var r := LeastService(jobs, candidates);
            && r < |jobs| && r in candidates && !ServedLess(jobs[i], jobs[r])
            && (Ascending(candidates) && i < r ==> ServedLess(jobs[r], jobs[i]))
  {
    var less := (i: nat, j: nat) => i < |jobs| && j < |jobs| && LessService(jobs[i], jobs[j]);
    assert StrictWeak(candidates, less) by {
      forall x, y | x in candidates && y in candidates ensures !(less(x, y) && less(y, x)) {
        if less(x, y) {
          LessServiceOneWay(jobs[x], jobs[y]);
        }
      }
      forall x, y, z | x in candidates && y in candidates && z in candidates && less(x, y)
        ensures less(x, z) || less(z, y)
      {
        LessServiceWeak(jobs[x], jobs[y], jobs[z]);
      }
    }
    MinByFirst(candidates, less, i);
    var r := MinBy(candidates, less);
    assert LeastService(jobs, candidates) == r && r in candidates;
    LessServiceIs(jobs[i], jobs[r]);
    LessServiceIs(jobs[r], jobs[i]);
  }

  /** The slack is the room that is left: started that much later, the job would run at its predicted
      speed to the very deadline. */
  lemma SlackIsRoom(m: Machine, job: Job, now: real)
    requires Positive(m)
    ensures Slack(m, job, now).None? <==> job.deadline.None? || job.deadline == Some(0.0)
    ensures Slack(m, job, now).Some? ==>
              (job.deadline.value - now - Slack(m, job, now).value) * m.solo(job.workload, 0.75) == job.remaining
  {
    var speed := m.solo(job.workload, 0.75);
    var time := job.remaining / speed;
    assert time * speed == job.remaining;
  }

  /** A job is risky exactly when it is urgent and could not do its work by 12 ms before its deadline. */
  lemma RiskyIs(m: Machine, job: Job, now: real)
    requires Positive(m)
    ensures Risky(m, job, now) <==>
              && job.kind == Urgent && job.deadline.Some? && job.deadline != Some(0.0)
              && (job.deadline.value - now - 12.0) * m.solo(job.workload, 0.75) < job.remaining
  {
    if job.deadline.Some? && job.deadline != Some(0.0) {
      SlackIsRoom(m, job, now);
      var speed, room, slack := m.solo(job.workload, 0.75), job.deadline.value - now, Slack(m, job, now).value;
      hide Slack, Positive;
      assert (room - 12.0) * speed - (room - slack) * speed == (slack - 12.0) * speed;
      if slack < 12.0 {
        Product(12.0 - slack, speed);
        assert (slack - 12.0) * speed == -((12.0 - slack) * speed);
      } else if slack > 12.0 {
        Product(slack - 12.0, speed);
      }
    }
  }

  /** The guard promotes the first of the risky jobs with the least (slack, vruntime); without a risky
      job, or without the guard, the primary is the first of the active jobs with the least service. */
  lemma PrimaryIsRight(s: Setup, st: State, i: nat)
    requires Sane(s) && i in Active(st)
    ensures var p, m, now := Primary(s, st), s.m, st.now;
            if s.guard && (exists j :: j in Active(st) && Risky(m, st.jobs[j], now)) then
              && p in Active(st) && Risky(m, st.jobs[p], now)
              && (Risky(m, st.jobs[i], now) ==>
                    var x, y := Slack(m, st.jobs[i], now).value, Slack(m, st.jobs[p], now).value;
                    && (x > y || (x == y && st.jobs[i].vruntime >= st.jobs[p].vruntime))
                    && (i < p ==> x > y || st.jobs[i].vruntime > st.jobs[p].vruntime))
            else
              && p in Active(st) && !ServedLess(st.jobs[i], st.jobs[p])
              && (i < p ==> ServedLess(st.jobs[p], st.jobs[i]))
  {
    var risky := RiskyJobs(s, st);
    if s.guard && risky != [] {
      assert risky[0] in risky;
      if Risky(s.m, st.jobs[i], st.now) {
        RiskyPrimary(s, st, i);
      }
    } else {
      assert forall j :: j in Active(st) && Risky(s.m, st.jobs[j], st.now) ==> j in risky;
      var active := Active(st);
      assert forall k :: 0 <= k < |active| ==> active[k] in active;
      ActiveAscends(st, 0);
      hide ServedLess, Ascending, Risky;
      LeastServiceIsLeast(st.jobs, active, i);
    }
  }

  lemma RiskyPrimary(s: Setup, st: State, i: nat)
    requires Sane(s) && s.guard && i in RiskyJobs(s, st)
    ensures var p := Primary(s, st);
            && p in RiskyJobs(s, st) && !LessSlack(s.m, st.jobs[i], st.jobs[p], st.now)
            && (i < p ==> LessSlack(s.m, st.jobs[p], st.jobs[i], st.now))
  {
    var risky := RiskyJobs(s, st);
    WhereAscends(st.jobs, (job: Job) => IsActive(job, st.now) && Risky(s.m, job, st.now));
    var less := (i: nat, j: nat) => i in risky && j in risky && LessSlack(s.m, st.jobs[i], st.jobs[j], st.now);
    assert Primary(s, st) == MinBy(risky, less);
    MinByFirst(risky, less, i);
  }

  lemma {:induction false} FirstVideoIsFirst(jobs: seq<Job>, others: seq<nat>, i: nat)
    requires InRange(jobs, others) && Ascending(others) && i in others && jobs[i].kind == Video
    ensures var v := FirstVideo(jobs, others); v.Some? && v.value <= i
  {
    assert others == [others[0]] + others[1..];
    if jobs[others[0]].kind != Video {
      FirstVideoIsFirst(jobs, others[1..], i);
    }
  }

  /** No video job among the other active ones comes before it. */
  ghost predicate IsFirstVideo(st: State, p: nat, v: nat) {
    && v in Active(st) && v != p && st.jobs[v].kind == Video
    && forall u :: u in Active(st) && u != p && u < v ==> st.jobs[u].kind != Video
  }

  /** Beside the primary runs the first other video job if it has made no progress for 20 ms, and
      otherwise the first of the other active jobs with the least service. */
  lemma SecondaryIsRight(st: State, p: nat, i: nat)
    requires i in Active(st) && i != p
    ensures OtherActive(st, p) != []
    ensures var q := Secondary(st, OtherActive(st, p));
            && q in Active(st) && q != p
            && if exists v: nat :: IsFirstVideo(st, p, v) && st.jobs[v].lastProgress.Some?
                         && st.now - st.jobs[v].lastProgress.value >= 20.0
               then IsFirstVideo(st, p, q)
               else !ServedLess(st.jobs[i], st.jobs[q]) && (i < q ==> ServedLess(st.jobs[q], st.jobs[i]))
  {
    var others := OtherActive(st, p);
    assert i in others;
    ActiveAscends(st, p);
    FirstVideoIs(st, p);
    hide FirstVideo, ServedLess, OtherActive, Active, Ascending, IsFirstVideo;
    LeastServiceIsLeast(st.jobs, others, i);
  }

  lemma FirstVideoIs(st: State, p: nat)
    ensures forall v: nat :: IsFirstVideo(st, p, v) <==> FirstVideo(st.jobs, OtherActive(st, p)) == Some(v)
  {
    var others := OtherActive(st, p);
    var video := FirstVideo(st.jobs, others);
    ActiveAscends(st, p);
    forall v: nat | IsFirstVideo(st, p, v) ensures video == Some(v) {
      assert v in others;
      FirstVideoIsFirst(st.jobs, others, v);
      assert video.value in others;
    }
    if video.Some? {
      forall u | u in Active(st) && u != p && u < video.value ensures st.jobs[u].kind != Video {
        assert u in others;
        if st.jobs[u].kind == Video {
          FirstVideoIsFirst(st.jobs, others, u);
        }
      }
    }
  }

  // ----- What is served

  /** What a charge is, by currency. */
  ghost predicate Owes(s: Setup, job: Job, share: real, speed: real, dt: real, work: real, owed: real) {
    match s.currency
    case Wall => owed == dt
    case SmTime => owed == share * dt
    case FgeProgress => owed == work
    case DominantTime => owed == s.m.dominant(job.workload, share, speed) * dt
  }

  /** A job is served for part of the epoch: until its work is done, or to the end. */
  ghost predicate ServedFor(s: Setup, now: real, before: Job, after: Job, share: real,
                            other: Option<(Workload, real)>, dt: real) {
    var speed, work := s.m.speed(before.workload, share, other), before.remaining - after.remaining;
    && 0.0 <= dt <= s.epoch && work == speed * dt
    && (after.remaining == 0.0 || dt == s.epoch)
    && after.lastProgress == Some(now + dt)
    && after.finish == (if after.remaining <= EPSILON then Some(now + dt) else before.finish)
    && Owes(s, before, share, speed, dt, work, (after.vruntime - before.vruntime) * before.weight)
    && after.maxNoProgress == before.maxNoProgress && SameJob(before, after)
  }

  lemma AdvanceServes(s: Setup, now: real, job: Job, share: real, other: Option<(Workload, real)>)
    requires Sane(s) && job.weight > 0.0 && job.remaining > 0.0
    ensures ServedFor(s, now, job, Advance(s, now, job, share, other), share, other, Elapsed(s, job, share, other))
  {
    var speed := s.m.speed(job.workload, share, other);
    var work, dt := WorkDone(s, job, share, other), Elapsed(s, job, share, other);
    TimeServed(s, job, share, other);
    hide WorkDone, Elapsed;
    OwesCharge(s, job, share, speed, dt, work, s.m.dominant(job.workload, share, speed));
    hide Owes, CurrencyDelta;
  }

  lemma TimeServed(s: Setup, job: Job, share: real, other: Option<(Workload, real)>)
    requires Sane(s) && job.remaining > 0.0
    ensures var work, dt := WorkDone(s, job, share, other), Elapsed(s, job, share, other);
            && 0.0 <= dt <= s.epoch && work == s.m.speed(job.workload, share, other) * dt
            && (work == job.remaining || dt == s.epoch)
  {
    ElapsedBounds(s, job, share, other);
    ElapsedTimesSpeed(s, job, share, other);
    if WorkDone(s, job, share, other) != job.remaining {
      hide Elapsed;
      SameQuotient(Elapsed(s, job, share, other), s.epoch, s.m.speed(job.workload, share, other));
    }
  }

  lemma OwesCharge(s: Setup, job: Job, share: real, speed: real, dt: real, work: real, dominant: real)
    requires job.weight > 0.0 && dominant == s.m.dominant(job.workload, share, speed)
    ensures var charge := CurrencyDelta(s.currency, dt, share, work, dominant, job.weight);
            Owes(s, job, share, speed, dt, work, (job.vruntime + charge - job.vruntime) * job.weight)
  {
    ChargeTimesWeight(0.0, dt, job.weight);
    ChargeTimesWeight(0.0, share * dt, job.weight);
    ChargeTimesWeight(0.0, work, job.weight);
    ChargeTimesWeight(0.0, dominant * dt, job.weight);
  }

  lemma SameQuotient(x: real, y: real, speed: real)
    requires speed > 0.0 && speed * x == speed * y
    ensures x == y
  {
    assert speed * (x - y) == 0.0;
    if x > y {
      Product(speed, x - y);
    } else if x < y {
      Product(speed, y - x);
    }
  }

  /** Alone the primary has the whole machine; with others active it has three quarters and the secondary
      one, each slowed by the other. */
  lemma EpochServes(s: Setup, st: State)
    requires Sane(s) && Weighted(st.jobs) && Active(st) != []
    ensures var p := Primary(s, st);
            var others, noted, after := OtherActive(st, p), NoteGaps(st), RunEpoch(s, st);
            if others == [] then
              exists dt :: ServedFor(s, st.now, noted[p], after[p], 1.0, None, dt)
            else
              var q := Secondary(st, others);
              && p != q
              && (exists dt ::
                    ServedFor(s, st.now, noted[p], after[p], 0.75, Some((st.jobs[q].workload, 0.25)), dt))
              && (exists dt ::
                    ServedFor(s, st.now, noted[q], after[q], 0.25, Some((st.jobs[p].workload, 0.75)), dt))
  {
    var p := Primary(s, st);
    var others, noted := OtherActive(st, p), NoteGaps(st);
    Startable(st, p);
    var after := RunEpoch(s, st);
    hide Primary, NoteGaps, Advance, Elapsed, ServedFor, OtherActive, Active, Secondary;
    if others == [] {
      assert after[p] == Advance(s, st.now, noted[p], 1.0, None);
      AdvanceServes(s, st.now, noted[p], 1.0, None);
    } else {
      var q := Secondary(st, others);
      Startable(st, q);
      var besideP, besideQ := Some((st.jobs[q].workload, 0.25)), Some((st.jobs[p].workload, 0.75));
      assert after[p] == Advance(s, st.now, noted[p], 0.75, besideP);
      assert after[q] == Advance(s, st.now, noted[q], 0.25, besideQ);
      AdvanceServes(s, st.now, noted[p], 0.75, besideP);
      AdvanceServes(s, st.now, noted[q], 0.25, besideQ);
    }
  }

  lemma Startable(st: State, i: nat)
    requires i in Active(st) && Weighted(st.jobs)
    ensures i < |st.jobs| && NoteGaps(st)[i].remaining > 0.0 && NoteGaps(st)[i].weight > 0.0
    ensures NoteGaps(st)[i].workload == st.jobs[i].workload
  {
  }

  /** The clock jumps to the first of the arrivals still to come. */
  lemma NextArrivalIsFirst(st: State, i: nat)
    requires i < |st.jobs| && st.jobs[i].arrival > st.now
    ensures LaterArrivals(st) != [] && st.now < NextArrival(st) <= st.jobs[i].arrival
  {
    var later := LaterArrivals(st);
    assert i in later;
    WhereAscends(st.jobs, (job: Job) => job.arrival > st.now);
    MinByFirst(later, (i: nat, j: nat) =>
                        i < |st.jobs| && j < |st.jobs| && st.jobs[i].arrival < st.jobs[j].arrival, i);
  }

  // ----- The turn as it runs

  /** What an epoch means for one job.  One that runs was active, loses work, progresses within the epoch
      and is finished exactly when what is left is within the epsilon; any other active job only has its
      gap noted; the rest are untouched. */
  ghost predicate Outcome(s: Setup, st: State, i: nat, after: Job)
    requires Sane(s) && Active(st) != [] && i < |st.jobs|
  {
    var before := st.jobs[i];
    if i in Ran(s, st) then
      && IsActive(before, st.now) && 0.0 <= after.remaining < before.remaining
      && after.lastProgress.Some? && st.now < after.lastProgress.value <= st.now + s.epoch
      && after.finish == (if after.remaining <= EPSILON then after.lastProgress else None)
    else after == if IsActive(before, st.now) then NoteGap(before, st.now) else before
  }

  lemma AdvanceOutcome(s: Setup, now: real, job: Job, share: real, other: Option<(Workload, real)>)
    requires Sane(s) && job.weight > 0.0 && IsActive(job, now)
    ensures var after := Advance(s, now, job, share, other);
            && 0.0 <= after.remaining < job.remaining
            && after.lastProgress.Some? && now < after.lastProgress.value <= now + s.epoch
            && after.finish == (if after.remaining <= EPSILON then after.lastProgress else None)
  {
    ElapsedBounds(s, job, share, other);
    hide WorkDone, Elapsed, CurrencyDelta;
  }

  lemma EpochOutcome(s: Setup, st: State, i: nat)
    requires Sane(s) && Weighted(st.jobs) && Active(st) != [] && i < |st.jobs|
    ensures Outcome(s, st, i, RunEpoch(s, st)[i])
  {
    var p := Primary(s, st);
    var others := OtherActive(st, p);
    var noted := NoteGaps(st);
    assert i in Active(st) ==> IsActive(noted[i], st.now) && noted[i].remaining == st.jobs[i].remaining;
    assert noted[i].weight > 0.0;
    hide Primary, Secondary, NoteGaps, Advance, OtherActive;
    if i == p {
      if others == [] {
        AdvanceOutcome(s, st.now, noted[i], 1.0, None);
      } else {
        AdvanceOutcome(s, st.now, noted[i], 0.75, Some((noted[Secondary(st, others)].workload, 0.25)));
      }
    } else if others != [] && i == Secondary(st, others) {
      AdvanceOutcome(s, st.now, noted[i], 0.25, Some((noted[p].workload, 0.75)));
    } else {
      assert RunEpoch(s, st)[i] == noted[i];
      NotedIs(st, i);
    }
  }

  lemma NotedIs(st: State, i: nat)
    requires i < |st.jobs|
    ensures NoteGaps(st)[i] == if IsActive(st.jobs[i], st.now) then NoteGap(st.jobs[i], st.now) else st.jobs[i]
  {
  }

  /** One epoch of co-running: choose who runs, note the gaps of all active jobs, and serve those that
      run. */
  method CoRun(s: Setup, st: State) returns (jobs: seq<Job>)
    requires Sane(s) && Weighted(st.jobs) && Active(st) != []
    ensures jobs == RunEpoch(s, st)
    ensures forall i :: 0 <= i < |jobs| ==> Outcome(s, st, i, jobs[i])
  {
    var active := Active(st);
    var primary := Primary(s, st);
    var others := OtherActive(st, primary);
    var running: seq<(nat, real)> := [(primary, if others == [] then 1.0 else 0.75)];
    if others != [] {
      running := running + [(Secondary(st, others), 0.25)];
    }
    jobs := NoteActive(st, active);
    jobs := ServeRunning(s, st.now, jobs, running);
    hide Outcome;
    forall i | 0 <= i < |jobs| ensures Outcome(s, st, i, jobs[i]) {
      EpochOutcome(s, st, i);
    }
  }

  /** The loop over the active jobs. */
  method NoteActive(st: State, active: seq<nat>) returns (jobs: seq<Job>)
    requires active == Active(st)
    ensures jobs == NoteGaps(st)
  {
    jobs := st.jobs;
    for k := 0 to |active|
      invariant |jobs| == |st.jobs|
      invariant forall i :: 0 <= i < |jobs| ==>
                  jobs[i] == if i in active[..k] then NoteGap(st.jobs[i], st.now) else st.jobs[i]
    {
      var i := active[k];
      assert i in active && active[..k+1] == active[..k] + [i];
      var job := jobs[i];
      if job.lastProgress.Some? {
        jobs := jobs[i := job.(maxNoProgress := MaxReal(job.maxNoProgress, st.now - job.lastProgress.value))];
      }
    }
    assert active[..|active|] == active;
  }

  /** The first entry of `running` for another job, with its share. */
  function Corunner(jobs: seq<Job>, running: seq<(nat, real)>, i: nat): Option<(Workload, real)>
    requires forall k :: 0 <= k < |running| ==> running[k].0 < |jobs|
  {
    if running == [] then None
    else if running[0].0 != i then Some((jobs[running[0].0].workload, running[0].1))
    else Corunner(jobs, running[1..], i)
  }

  /** The loop over the running jobs. */
  method ServeRunning(s: Setup, now: real, noted: seq<Job>, running: seq<(nat, real)>) returns (jobs: seq<Job>)
    requires Sane(s) && Weighted(noted) && 1 <= |running| <= 2
    requires forall k :: 0 <= k < |running| ==> running[k].0 < |noted|
    requires |running| == 2 ==> running[0].0 != running[1].0
    ensures var (p, share) := running[0];
            if |running| == 1 then jobs == noted[p := Advance(s, now, noted[p], share, None)]
            else
              var (q, rest) := running[1];
              jobs == noted[p := Advance(s, now, noted[p], share, Some((noted[q].workload, rest)))]
                           [q := Advance(s, now, noted[q], rest, Some((noted[p].workload, share)))]
  {
    hide Advance;
    jobs := noted;
    assert running[1..] == if |running| == 1 then [] else [running[1]];
    ghost var p, q := running[0].0, if |running| == 2 then running[1].0 else 0;
    for k := 0 to |running|
      invariant |jobs| == |noted|
      invariant forall i :: 0 <= i < |jobs| ==> jobs[i].workload == noted[i].workload
      invariant forall i :: 0 <= i < |jobs| ==>
                  jobs[i] == if i == p && k >= 1 then
                               Advance(s, now, noted[i], running[0].1, Corunner(noted, running, i))
                             else if i == q && k == 2 then
                               Advance(s, now, noted[i], running[1].1, Corunner(noted, running, i))
                             else noted[i]
    {
      var (i, share) := running[k];
      SameCorunner(jobs, noted, running, i);
      var job := Serve(s, now, jobs[i], share, Corunner(jobs, running, i));
      jobs := jobs[i := job];
    }
  }

  lemma {:induction false} SameCorunner(a: seq<Job>, b: seq<Job>, running: seq<(nat, real)>, i: nat)
    requires |a| == |b| && forall k :: 0 <= k < |running| ==> running[k].0 < |a|
    requires forall k :: 0 <= k < |a| ==> a[k].workload == b[k].workload
    ensures Corunner(a, running, i) == Corunner(b, running, i)
  {
    if running != [] {
      SameCorunner(a, b, running[1..], i);
    }
  }

  /** The body of that loop: a job's fields, one after another. */
  method Serve(s: Setup, now: real, job: Job, share: real, other: Option<(Workload, real)>) returns (r: Job)
    requires Sane(s) && job.weight > 0.0
    ensures r == Advance(s, now, job, share, other) && r.workload == job.workload
  {
    var speed, work, dt := Pace(s, job, share, other);
    hide WorkDone, Elapsed, CurrencyDelta, Sane;
    r := job;
    r := r.(remaining := r.remaining - work);
    r := r.(lastProgress := Some(now + dt));
    r := r.(vruntime := r.vruntime
                        + CurrencyDelta(s.currency, dt, share, work, s.m.dominant(r.workload, share, speed), r.weight));
    if r.remaining <= EPSILON {
      r := r.(finish := Some(now + dt));
    }
  }

  /** How fast the job runs, how much it does, and for how long. */
  method Pace(s: Setup, job: Job, share: real, other: Option<(Workload, real)>)
    returns (speed: real, work: real, dt: real)
    requires Sane(s)
    ensures speed == s.m.speed(job.workload, share, other)
    ensures work == WorkDone(s, job, share, other) && dt == Elapsed(s, job, share, other)
  {
    speed := s.m.speed(job.workload, share, other);
    work := MinReal(job.remaining, speed * s.epoch);
    dt := work / speed;
  }

  /** The body of the loop. */
  method TakeTurn(s: Setup, st: State) returns (next: Option<State>)
    requires Sane(s) && Weighted(st.jobs)
    ensures next == Step(s, st)
  {
    var active := Active(st);
    if active == [] {
      if LaterArrivals(st) == [] {
        return None;
      }
      return Some(st.(now := NextArrival(st)));
    }
    var jobs := CoRun(s, st);
    return Some(State(jobs, st.now + s.epoch));
  }
}

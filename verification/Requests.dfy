/** The state a denoising step reads and writes, and interleavings of many requests on one adapter with
    one scheduler.  The UNet or transformer, the scheduler's own arithmetic and the generator are one
    abstract function. */
module Requests {
  import opened Wrappers

  /** `StepState`: `savedIndex` is extra["scheduler_step_index"]. */
  datatype StepState<L, R> = StepState(stepIndex: nat, latent: L, rng: R, timesteps: seq<int>, savedIndex: Option<nat>)

  /** The scheduler between calls.  `rest` is everything neither adapter saves, such as the model outputs
      a multistep scheduler keeps. */
  datatype Fields<S> = Fields(timesteps: seq<int>, stepIndex: Option<nat>, rest: S)

  /** The scheduler the adapter was made with, `set_timesteps`, the latent and generator every request
      starts from (steps and seed are the adapter's), and one step: from the latent, the timestep, the
      scheduler and the generator, the next latent, step index, rest and generator. */
  datatype Model<!L(!new), !R(!new), !S(!new)> = Model(
    first: Fields<S>,
    reset: Fields<S> -> Fields<S>,
    latent: L,
    rng: R,
    sample: (L, int, Fields<S>, R) -> (L, Option<nat>, S, R))

  /** SDXL restores the scheduler's step index always, CogVideoX only when one was saved. */
  datatype Variant = Sdxl | CogVideoX

  /** `initial_state` on values: `left` is what the last request left in the scheduler. */
  function InitialState<L(!new), R(!new), S(!new)>(m: Model<L, R, S>, left: Fields<S>): StepState<L, R> {
    var fields := m.reset(left);
    StepState(0, m.latent, m.rng, fields.timesteps, fields.stepIndex)
  }

  predicate Exhausted<L, R>(s: StepState<L, R>) { s.stepIndex >= |s.timesteps| }

  /** The step proper, with the scheduler's step index and rest as they stand when the sampler reads
      them. */
  function Sampled<L(!new), R(!new), S(!new)>(m: Model<L, R, S>, s: StepState<L, R>, index: Option<nat>, rest: S)
    : (StepState<L, R>, S)
    requires !Exhausted(s)
  {
    var (latent, next, after, rng) :=
      m.sample(s.latent, s.timesteps[s.stepIndex], Fields(s.timesteps, index, rest), s.rng);
    (StepState(s.stepIndex + 1, latent, rng, s.timesteps, next), after)
  }

  lemma SampledIs<L(!new), R(!new), S(!new)>(m: Model<L, R, S>, s: StepState<L, R>, index: Option<nat>, rest: S)
    requires !Exhausted(s)
    ensures var fields := Fields(s.timesteps, index, rest);
            var (latent, next, after, rng) := m.sample(s.latent, s.timesteps[s.stepIndex], fields, s.rng);
            Sampled(m, s, index, rest) == (StepState(s.stepIndex + 1, latent, rng, s.timesteps, next), after)
  {
  }

  function IndexRead<L, R, S>(v: Variant, left: Fields<S>, s: StepState<L, R>): Option<nat> {
    if v == Sdxl || s.savedIndex.Some? then s.savedIndex else left.stepIndex
  }

  /** `denoise_one` on values.  Past the last timestep it is an IndexError. */
  function Denoised<L(!new), R(!new), S(!new)>(m: Model<L, R, S>, v: Variant, left: Fields<S>, s: StepState<L, R>)
    : Option<(StepState<L, R>, Fields<S>)>
  {
    if Exhausted(s) then None
    else
      var (next, rest) := Sampled(m, s, IndexRead(v, left, s), left.rest);
      Some((next, Fields(s.timesteps, next.savedIndex, rest)))
  }

  /** A request alone on a new adapter after `k` steps, and the scheduler with it. */
  function Alone<L(!new), R(!new), S(!new)>(m: Model<L, R, S>, k: nat): Option<(StepState<L, R>, Fields<S>)> {
    if k == 0 then Some((InitialState(m, m.first), m.reset(m.first)))
    else
      match Alone(m, k - 1)
      case None => None
      case Some((s, left)) => Denoised(m, Sdxl, left, s)
  }

  /** The state a request has after `k` steps on its own. */
  function Solo<L(!new), R(!new), S(!new)>(m: Model<L, R, S>, k: nat): Option<StepState<L, R>> {
    match Alone(m, k)
    case None => None
    case Some((s, _)) => Some(s)
  }

  /** A sampler that writes down the timesteps it is given. */
  ghost predicate WritesDown<R(!new), S(!new)>(m: Model<seq<int>, R, S>) {
    forall latent, t, fields, rng :: m.sample(latent, t, fields, rng).0 == latent + [t]
  }

  lemma SampledWrites<R(!new), S(!new)>(
    m: Model<seq<int>, R, S>, s: StepState<seq<int>, R>, index: Option<nat>, rest: S)
    requires WritesDown(m) && !Exhausted(s)
    ensures Sampled(m, s, index, rest).0.latent == s.latent + [s.timesteps[s.stepIndex]]
  {
    var t, fields := s.timesteps[s.stepIndex], Fields(s.timesteps, index, rest);
    assert m.sample(s.latent, t, fields, s.rng).0 == s.latent + [t];
  }

  /** A request of `n` timesteps takes `n` steps, step k at timestep k, and no more. */
  lemma {:induction false} SoloTrace<R(!new), S(!new)>(m: Model<seq<int>, R, S>, k: nat)
    requires WritesDown(m)
    ensures var timesteps := m.reset(m.first).timesteps;
            && (Solo(m, k).Some? <==> k <= |timesteps|)
            && (k <= |timesteps| ==>
                  && Solo(m, k).value.stepIndex == k && Solo(m, k).value.timesteps == timesteps
                  && Solo(m, k).value.latent == m.latent + timesteps[..k])
  {
    var timesteps := m.reset(m.first).timesteps;
    if k > 0 {
      SoloTrace(m, k - 1);
      if k <= |timesteps| {
        var (s, left) := Alone(m, k - 1).value;
        SampledWrites(m, s, s.savedIndex, left.rest);
        assert (m.latent + timesteps[..k-1]) + [timesteps[k-1]] == m.latent + (timesteps[..k-1] + [timesteps[k-1]]);
        assert timesteps[..k] == timesteps[..k-1] + [timesteps[k-1]];
      }
    } else {
      assert timesteps[..0] == [];
    }
  }

  // ----- Interleavings

  datatype Call = Init(request: nat) | Denoise(request: nat)

  /** The adapter between calls: the scheduler, and each request's latest state and step count. */
  datatype Shared<L, R, S> = Shared(left: Fields<S>, states: map<nat, StepState<L, R>>, steps: map<nat, nat>)

  function Apply<L(!new), R(!new), S(!new)>(m: Model<L, R, S>, v: Variant, a: Shared<L, R, S>, c: Call)
    : Shared<L, R, S>
  {
    match c
    case Init(r) => Shared(m.reset(a.left), a.states[r := InitialState(m, a.left)], a.steps[r := 0])
    case Denoise(r) =>
      if r !in a.states || r !in a.steps then a
      else
        match Denoised(m, v, a.left, a.states[r])
        case None => a
        case Some((s, left)) => Shared(left, a.states[r := s], a.steps[r := a.steps[r] + 1])
  }

  function RunCalls<L(!new), R(!new), S(!new)>(m: Model<L, R, S>, v: Variant, left: Fields<S>, calls: seq<Call>)
    : Shared<L, R, S>
  {
    if calls == [] then Shared(left, map[], map[])
    else Apply(m, v, RunCalls(m, v, left, calls[..|calls|-1]), calls[|calls|-1])
  }

  /** Every request is where it would be had it run alone. */
  ghost predicate AsIfAlone<L(!new), R(!new), S(!new)>(m: Model<L, R, S>, a: Shared<L, R, S>) {
    a.states.Keys == a.steps.Keys && forall r :: r in a.states ==> Some(a.states[r]) == Solo(m, a.steps[r])
  }

  /** Whatever the scheduler held at first and however the calls interleave. */
  ghost predicate Isolated<L(!new), R(!new), S(!new)>(m: Model<L, R, S>, v: Variant) {
    forall left, calls :: AsIfAlone(m, RunCalls(m, v, left, calls))
  }

  lemma RunSnoc<L(!new), R(!new), S(!new)>(m: Model<L, R, S>, v: Variant, left: Fields<S>, calls: seq<Call>, c: Call)
    ensures RunCalls(m, v, left, calls + [c]) == Apply(m, v, RunCalls(m, v, left, calls), c)
  {
    assert (calls + [c])[..|calls|] == calls;
  }

  // ----- Isolation is that no leftover is observed from a solo state

  /** What a sequence of calls leaves in the scheduler if every request's state is taken from its solo
      run, not from the calls before. */
  datatype Leftover<S> = Leftover(left: Fields<S>, steps: map<nat, nat>)

  function SoloStep<L(!new), R(!new), S(!new)>(m: Model<L, R, S>, v: Variant, left: Fields<S>, k: nat)
    : Option<(StepState<L, R>, Fields<S>)>
  {
    match Solo(m, k)
    case None => None
    case Some(s) => Denoised(m, v, left, s)
  }

  function LeaveBy<L(!new), R(!new), S(!new)>(m: Model<L, R, S>, v: Variant, t: Leftover<S>, c: Call): Leftover<S> {
    match c
    case Init(r) => Leftover(m.reset(t.left), t.steps[r := 0])
    case Denoise(r) =>
      if r !in t.steps then t
      else
        match SoloStep(m, v, t.left, t.steps[r])
        case None => t
        case Some((_, left)) => Leftover(left, t.steps[r := t.steps[r] + 1])
  }

  function LeftBy<L(!new), R(!new), S(!new)>(m: Model<L, R, S>, v: Variant, left: Fields<S>, calls: seq<Call>)
    : Leftover<S>
  {
    if calls == [] then Leftover(left, map[])
    else LeaveBy(m, v, LeftBy(m, v, left, calls[..|calls|-1]), calls[|calls|-1])
  }

  /** A call on this leftover gives what it gives on a new adapter. */
  ghost predicate Unseen<L(!new), R(!new), S(!new)>(m: Model<L, R, S>, v: Variant, t: Leftover<S>, c: Call) {
    match c
    case Init(_) => InitialState(m, t.left) == InitialState(m, m.first)
    case Denoise(r) =>
      r in t.steps && SoloStep(m, v, t.left, t.steps[r]).Some? ==>
        Some(SoloStep(m, v, t.left, t.steps[r]).value.0) == Solo(m, t.steps[r] + 1)
  }

  /** Neither `set_timesteps` nor a step from a solo state shows what other requests left behind. */
  ghost predicate Unobserved<L(!new), R(!new), S(!new)>(m: Model<L, R, S>, v: Variant) {
    forall left, calls, c :: Unseen(m, v, LeftBy(m, v, left, calls), c)
  }

  ghost predicate Agrees<L(!new), R(!new), S(!new)>(m: Model<L, R, S>, a: Shared<L, R, S>, t: Leftover<S>) {
    AsIfAlone(m, a) && a.left == t.left && a.steps == t.steps
  }

  /** As long as every request is as if alone, the next call keeps it so exactly when it sees nothing. */
  lemma OneCall<L(!new), R(!new), S(!new)>(m: Model<L, R, S>, v: Variant, a: Shared<L, R, S>, t: Leftover<S>, c: Call)
    requires Agrees(m, a, t)
    ensures Apply(m, v, a, c).left == LeaveBy(m, v, t, c).left && Apply(m, v, a, c).steps == LeaveBy(m, v, t, c).steps
    ensures AsIfAlone(m, Apply(m, v, a, c)) <==> Unseen(m, v, t, c)
  {
    hide Denoised, Alone;
    var b, r := Apply(m, v, a, c), c.request;
    assert r in a.states ==> Some(a.states[r]) == Solo(m, a.steps[r]);
    if c.Init? {
      assert Solo(m, 0) == Some(InitialState(m, m.first)) by { FirstSolo(m); }
      assert b.states[r] == InitialState(m, a.left) && b.steps[r] == 0;
    } else if r in a.states && SoloStep(m, v, t.left, t.steps[r]).Some? {
      assert b.states[r] == SoloStep(m, v, t.left, t.steps[r]).value.0 && b.steps[r] == t.steps[r] + 1;
    }
    assert forall q :: q in a.states && q != r ==> b.states[q] == a.states[q] && b.steps[q] == a.steps[q];
  }

  lemma FirstSolo<L(!new), R(!new), S(!new)>(m: Model<L, R, S>)
    ensures Solo(m, 0) == Some(InitialState(m, m.first))
  {
  }

  lemma {:induction false} RunAgrees<L(!new), R(!new), S(!new)>(m: Model<L, R, S>, v: Variant, left: Fields<S>,
                                                                calls: seq<Call>)
    requires Isolated(m, v) || Unobserved(m, v)
    ensures Agrees(m, RunCalls(m, v, left, calls), LeftBy(m, v, left, calls))
  {
    hide Apply, LeaveBy, Solo, Unseen;
    if calls != [] {
      var front, c := calls[..|calls|-1], calls[|calls|-1];
      RunAgrees(m, v, left, front);
      OneCall(m, v, RunCalls(m, v, left, front), LeftBy(m, v, left, front), c);
      if Unobserved(m, v) {
        assert Unseen(m, v, LeftBy(m, v, left, front), c);
      } else {
        assert AsIfAlone(m, RunCalls(m, v, left, calls));
      }
    }
  }

  /** Either adapter isolates its requests exactly when what they leave in the scheduler is unobserved. */
  lemma IsolatedExactly<L(!new), R(!new), S(!new)>(m: Model<L, R, S>, v: Variant)
    ensures Isolated(m, v) <==> Unobserved(m, v)
  {
    hide RunCalls, LeftBy, Apply, LeaveBy, Unseen, AsIfAlone;
    if Unobserved(m, v) {
      forall left, calls ensures AsIfAlone(m, RunCalls(m, v, left, calls)) {
        RunAgrees(m, v, left, calls);
        AgreesAlone(m, RunCalls(m, v, left, calls), LeftBy(m, v, left, calls));
      }
    }
    if Isolated(m, v) {
      forall left, calls, c ensures Unseen(m, v, LeftBy(m, v, left, calls), c) {
        RunAgrees(m, v, left, calls);
        OneCall(m, v, RunCalls(m, v, left, calls), LeftBy(m, v, left, calls), c);
        RunSnoc(m, v, left, calls, c);
        assert AsIfAlone(m, RunCalls(m, v, left, calls + [c]));
      }
    }
  }

  lemma AgreesAlone<L(!new), R(!new), S(!new)>(m: Model<L, R, S>, a: Shared<L, R, S>, t: Leftover<S>)
    requires Agrees(m, a, t)
    ensures AsIfAlone(m, a)
  {
  }

  // ----- When only the saved fields matter

  /** `set_timesteps` yields the same timesteps and step index whatever it finds. */
  ghost predicate ResetSteady<L(!new), R(!new), S(!new)>(m: Model<L, R, S>) {
    forall left :: InitialState(m, left) == InitialState(m, m.first)
  }

  /** From a solo state, the next state does not depend on the fields neither adapter saves. */
  ghost predicate RestUnread<L(!new), R(!new), S(!new)>(m: Model<L, R, S>) {
    forall k: nat, index, rest :: RestUnreadAt(m, k, index, rest)
  }

  ghost predicate RestUnreadAt<L(!new), R(!new), S(!new)>(m: Model<L, R, S>, k: nat, index: Option<nat>, rest: S) {
    Solo(m, k).Some? && !Exhausted(Solo(m, k).value) ==>
      Sampled(m, Solo(m, k).value, index, rest).0 == Next(m, k, index)
  }

  /** The state after step `k` with this index in the scheduler. */
  ghost function Next<L(!new), R(!new), S(!new)>(m: Model<L, R, S>, k: nat, index: Option<nat>): StepState<L, R>
    requires Solo(m, k).Some? && !Exhausted(Solo(m, k).value)
  {
    Sampled(m, Solo(m, k).value, index, m.first.rest).0
  }

  /** A step on any leftover, and the solo run's. */
  lemma NextIs<L(!new), R(!new), S(!new)>(m: Model<L, R, S>, v: Variant, left: Fields<S>, k: nat)
    requires RestUnread(m) && Solo(m, k).Some? && !Exhausted(Solo(m, k).value)
    ensures var s := Solo(m, k).value;
            && SoloStep(m, v, left, k).Some?
            && SoloStep(m, v, left, k).value.0 == Next(m, k, IndexRead(v, left, s))
            && SoloStep(m, v, left, k).value.1.stepIndex == Next(m, k, IndexRead(v, left, s)).savedIndex
            && Solo(m, k + 1) == Some(Next(m, k, s.savedIndex))
  {
    var s, alone := Solo(m, k).value, Alone(m, k).value.1;
    hide Solo, Sampled;
    assert RestUnreadAt(m, k, IndexRead(v, left, s), left.rest);
    assert RestUnreadAt(m, k, s.savedIndex, alone.rest);
    SoloAfter(m, k);
  }

  lemma SoloAfter<L(!new), R(!new), S(!new)>(m: Model<L, R, S>, k: nat)
    requires Solo(m, k).Some? && !Exhausted(Solo(m, k).value)
    ensures Alone(m, k).Some?
    ensures var s := Solo(m, k).value;
            Solo(m, k + 1) == Some(Sampled(m, s, s.savedIndex, Alone(m, k).value.1.rest).0)
  {
    hide Sampled;
  }

  /** The SDXL adapter then isolates its requests: any interleaving, any leftovers. */
  lemma SdxlIsolates<L(!new), R(!new), S(!new)>(m: Model<L, R, S>)
    requires ResetSteady(m) && RestUnread(m)
    ensures Isolated(m, Sdxl)
  {
    hide Solo, Next, LeftBy, SoloStep, RestUnread;
    forall left, calls, c ensures Unseen(m, Sdxl, LeftBy(m, Sdxl, left, calls), c) {
      var t := LeftBy(m, Sdxl, left, calls);
      if c.Denoise? && c.request in t.steps {
        StepIfAny(m, Sdxl, t.left, t.steps[c.request]);
        if SoloStep(m, Sdxl, t.left, t.steps[c.request]).Some? {
          NextIs(m, Sdxl, t.left, t.steps[c.request]);
        }
      }
    }
    IsolatedExactly(m, Sdxl);
  }

  lemma StepIfAny<L(!new), R(!new), S(!new)>(m: Model<L, R, S>, v: Variant, left: Fields<S>, k: nat)
    ensures SoloStep(m, v, left, k).Some? <==> Solo(m, k).Some? && !Exhausted(Solo(m, k).value)
  {
    hide Solo, Sampled;
  }

  /** On the way of a solo run, a sampler called with no saved index does not look at the index another
      request may have left. */
  ghost predicate LeftoverUnread<L(!new), R(!new), S(!new)>(m: Model<L, R, S>) {
    forall j: nat, k: nat :: UnreadAt(m, j, k)
  }

  ghost predicate UnreadAt<L(!new), R(!new), S(!new)>(m: Model<L, R, S>, j: nat, k: nat) {
    Solo(m, j).Some? && Solo(m, k).Some? && !Exhausted(Solo(m, k).value) && Solo(m, k).value.savedIndex.None? ==>
      Next(m, k, Solo(m, j).value.savedIndex) == Next(m, k, None)
  }

  /** The index in the scheduler is what some solo state saved. */
  ghost predicate LeftByStep<L(!new), R(!new), S(!new)>(m: Model<L, R, S>, index: Option<nat>) {
    exists j: nat :: Solo(m, j).Some? && Solo(m, j).value.savedIndex == index
  }

  lemma {:induction false} LeftIndex<L(!new), R(!new), S(!new)>(m: Model<L, R, S>, left: Fields<S>, calls: seq<Call>)
    requires ResetSteady(m) && RestUnread(m) && LeftoverUnread(m)
    ensures var t := LeftBy(m, CogVideoX, left, calls); t.steps != map[] ==> LeftByStep(m, t.left.stepIndex)
  {
    if calls != [] {
      var front, c := calls[..|calls|-1], calls[|calls|-1];
      var t := LeftBy(m, CogVideoX, left, front);
      LeftIndex(m, left, front);
      hide Solo, Next, SoloStep, RestUnread, LeftBy, Unseen, LeftoverUnread, UnreadAt;
      if c.Init? {
        FirstSolo(m);
        assert InitialState(m, t.left) == InitialState(m, m.first);
      } else if c.request in t.steps {
        UnseenStep(m, t, c.request);
      }
    }
  }

  lemma UnseenStep<L(!new), R(!new), S(!new)>(m: Model<L, R, S>, t: Leftover<S>, r: nat)
    requires RestUnread(m) && LeftoverUnread(m) && r in t.steps && LeftByStep(m, t.left.stepIndex)
    ensures Unseen(m, CogVideoX, t, Denoise(r))
    ensures LeftByStep(m, LeaveBy(m, CogVideoX, t, Denoise(r)).left.stepIndex)
  {
    hide Solo, Next, SoloStep, RestUnread;
    var k := t.steps[r];
    StepIfAny(m, CogVideoX, t.left, k);
    if SoloStep(m, CogVideoX, t.left, k).Some? {
      NextIs(m, CogVideoX, t.left, k);
      var j: nat :| Solo(m, j).Some? && Solo(m, j).value.savedIndex == t.left.stepIndex;
      assert UnreadAt(m, j, k);
    }
  }

  lemma LeftIndexIsolates<L(!new), R(!new), S(!new)>(m: Model<L, R, S>)
    requires ResetSteady(m) && RestUnread(m) && LeftoverUnread(m)
    ensures Isolated(m, CogVideoX)
  {
    hide LeftBy, Solo, SoloStep, RestUnread, LeftoverUnread;
    forall left, calls, c ensures Unseen(m, CogVideoX, LeftBy(m, CogVideoX, left, calls), c) {
      var t := LeftBy(m, CogVideoX, left, calls);
      LeftIndex(m, left, calls);
      if c.Denoise? && c.request in t.steps {
        UnseenStep(m, t, c.request);
      }
    }
    IsolatedExactly(m, CogVideoX);
  }

  // ----- When the CogVideoX adapter does not

  function Repeat(r: nat, n: nat): seq<Call> {
    if n == 0 then [] else Repeat(r, n - 1) + [Denoise(r)]
  }

  /** One request is `n` steps in, the scheduler holds its index, and the others are as they were. */
  ghost predicate Stepped<L(!new), R(!new), S(!new)>(m: Model<L, R, S>, before: Shared<L, R, S>, a: Shared<L, R, S>,
                                                     r: nat, n: nat) {
    && Solo(m, n).Some? && r in a.states && r in a.steps && a.steps[r] == n && a.states[r] == Solo(m, n).value
    && a.left.stepIndex == Solo(m, n).value.savedIndex
    && (forall q :: q != r && q in before.states ==> q in a.states && a.states[q] == before.states[q])
    && (forall q :: q != r && q in before.steps ==> q in a.steps && a.steps[q] == before.steps[q])
  }

  lemma InitStepped<L(!new), R(!new), S(!new)>(m: Model<L, R, S>, v: Variant, before: Shared<L, R, S>, r: nat)
    requires AsIfAlone(m, Apply(m, v, before, Init(r)))
    ensures Stepped(m, before, Apply(m, v, before, Init(r)), r, 0)
  {
    var a := Apply(m, v, before, Init(r));
    assert Some(a.states[r]) == Solo(m, a.steps[r]);
  }

  lemma DenoiseStepped<L(!new), R(!new), S(!new)>(m: Model<L, R, S>, v: Variant, before: Shared<L, R, S>,
                                                  a: Shared<L, R, S>, r: nat, n: nat)
    requires Stepped(m, before, a, r, n) && AsIfAlone(m, Apply(m, v, a, Denoise(r))) && Solo(m, n + 1).Some?
    ensures Stepped(m, before, Apply(m, v, a, Denoise(r)), r, n + 1)
  {
    var b := Apply(m, v, a, Denoise(r));
    NotExhausted(m, n);
    DenoiseEffect(m, v, a, r);
    hide Solo, Apply;
    assert Some(b.states[r]) == Solo(m, b.steps[r]);
  }

  lemma DenoiseEffect<L(!new), R(!new), S(!new)>(m: Model<L, R, S>, v: Variant, a: Shared<L, R, S>, r: nat)
    requires r in a.states && r in a.steps && !Exhausted(a.states[r])
    ensures var b := Apply(m, v, a, Denoise(r));
            && b.steps == a.steps[r := a.steps[r] + 1] && r in b.states && b.states == a.states[r := b.states[r]]
            && b.left.stepIndex == b.states[r].savedIndex
  {
    hide Sampled;
  }

  lemma NotExhausted<L(!new), R(!new), S(!new)>(m: Model<L, R, S>, n: nat)
    requires Solo(m, n + 1).Some?
    ensures Solo(m, n).Some? && !Exhausted(Solo(m, n).value)
  {
    hide Sampled;
  }

  /** Starting a request after any calls and stepping it `n` times in a row. */
  lemma {:induction false} StepInARow<L(!new), R(!new), S(!new)>(m: Model<L, R, S>, v: Variant, left: Fields<S>,
                                                                 calls: seq<Call>, r: nat, n: nat)
    requires Isolated(m, v) && Solo(m, n).Some?
    ensures Stepped(m, RunCalls(m, v, left, calls), RunCalls(m, v, left, calls + [Init(r)] + Repeat(r, n)), r, n)
  {
    hide Solo, RunCalls, Apply, Stepped, AsIfAlone;
    var before := RunCalls(m, v, left, calls);
    if n == 0 {
      RunSnoc(m, v, left, calls, Init(r));
      assert calls + [Init(r)] + Repeat(r, 0) == calls + [Init(r)];
      assert AsIfAlone(m, RunCalls(m, v, left, calls + [Init(r)]));
      InitStepped(m, v, before, r);
    } else {
      NotExhausted(m, n - 1);
      StepInARow(m, v, left, calls, r, n - 1);
      var earlier := calls + [Init(r)] + Repeat(r, n - 1);
      assert calls + [Init(r)] + Repeat(r, n) == earlier + [Denoise(r)];
      RunSnoc(m, v, left, earlier, Denoise(r));
      assert AsIfAlone(m, RunCalls(m, v, left, earlier + [Denoise(r)]));
      DenoiseStepped(m, v, before, RunCalls(m, v, left, earlier), r, n - 1);
    }
  }

  lemma UnsavedStep<L(!new), R(!new), S(!new)>(m: Model<L, R, S>, a: Shared<L, R, S>, r: nat)
    requires RestUnread(m) && AsIfAlone(m, a)
    requires r in a.states && !Exhausted(a.states[r]) && a.states[r].savedIndex.None?
    ensures var next := Apply(m, CogVideoX, a, Denoise(r));
            && r in a.steps && r in next.states && r in next.steps && next.steps[r] == a.steps[r] + 1
            && next.states[r] == Next(m, a.steps[r], a.left.stepIndex)
  {
    assert Some(a.states[r]) == Solo(m, a.steps[r]);
    hide Solo, Next;
    NextIs(m, CogVideoX, a.left, a.steps[r]);
  }

  /** Run request 0 for `k` steps, then request 1 for `j` steps, then step request 0 once more. */
  lemma LeakAt<L(!new), R(!new), S(!new)>(m: Model<L, R, S>, j: nat, k: nat)
    requires RestUnread(m) && Isolated(m, CogVideoX)
    ensures UnreadAt(m, j, k)
  {
    hide RunCalls, Apply, Repeat, Sampled, Solo, Next, RestUnread, SoloStep;
    if Solo(m, j).Some? && Solo(m, k).Some? && !Exhausted(Solo(m, k).value) && Solo(m, k).value.savedIndex.None? {
      var left := m.first;
      var first := [] + [Init(0)] + Repeat(0, k);
      var second := first + [Init(1)] + Repeat(1, j);
      StepInARow(m, CogVideoX, left, [], 0, k);
      StepInARow(m, CogVideoX, left, first, 1, j);
      var a, b := RunCalls(m, CogVideoX, left, second), RunCalls(m, CogVideoX, left, second + [Denoise(0)]);
      assert 0 in a.states && a.states[0] == Solo(m, k).value && a.steps[0] == k;
      RunSnoc(m, CogVideoX, left, second, Denoise(0));
      assert AsIfAlone(m, a) && AsIfAlone(m, b);
      UnsavedStep(m, a, 0);
      assert Some(b.states[0]) == Solo(m, b.steps[0]);
      NextIs(m, CogVideoX, left, k);
    }
  }

  /** When only the saved fields matter, the CogVideoX adapter isolates its requests exactly when an index
      left by one request is never read by a step that saved none. */
  lemma CogVideoXIsolatesExactly<L(!new), R(!new), S(!new)>(m: Model<L, R, S>)
    requires ResetSteady(m) && RestUnread(m)
    ensures Isolated(m, CogVideoX) <==> LeftoverUnread(m)
  {
    if LeftoverUnread(m) {
      LeftIndexIsolates(m);
    } else if Isolated(m, CogVideoX) {
      forall j: nat, k: nat ensures UnreadAt(m, j, k) {
        LeakAt(m, j, k);
      }
    }
  }

  /** A scheduler that counts its steps from an unset index: the second step of one request disturbs
      the first step of another. */
  lemma CountingSchedulerLeaks()
    ensures exists m: Model<int, int, ()> :: !Isolated(m, CogVideoX) && Isolated(m, Sdxl)
  {
    var sample := (latent: int, t: int, f: Fields<()>, rng: int) =>
      (latent + (if f.stepIndex.Some? then 1 else 0), Some(0 as nat), (), rng);
    var fields := Fields([1, 0], None, ());
    var m: Model<int, int, ()> := Model(fields, _ => fields, 0, 0, sample);
    var start := InitialState(m, fields);
    assert Solo(m, 0) == Some(start);
    assert Solo(m, 1) == Some(Sampled(m, start, None, ()).0);
    assert !UnreadAt(m, 1, 0);
    assert RestUnread(m) by {
      forall k: nat, index, rest ensures RestUnreadAt(m, k, index, rest) {
        assert rest == ();
      }
    }
    CogVideoXIsolatesExactly(m);
    SdxlIsolates(m);
  }

  /** A multistep scheduler: its rest counts the steps since `set_timesteps`, and the sampler reads it. */
  function Multistep(): Model<int, int, int> {
    var fields := Fields([1, 0], None, 0);
    Model(fields, _ => fields, 0, 0, (latent, t, f: Fields<int>, rng) => (latent + f.rest, None, f.rest + 1, rng))
  }

  /** With it a step of one request shows in the first step of another, whichever adapter drives it. */
  lemma HistoryLeaks(v: Variant)
    ensures ResetSteady(Multistep()) && !Isolated(Multistep(), v)
  {
    var m := Multistep();
    var start := InitialState(m, m.first);
    assert Solo(m, 0) == Some(start) && Solo(m, 1) == Some(start.(stepIndex := 1));
    var calls := [] + [Init(0)] + [Init(1)] + [Denoise(0)];
    var t := LeftBy(m, v, m.first, calls);
    LeaveSnoc(m, v, m.first, [], Init(0));
    LeaveSnoc(m, v, m.first, [] + [Init(0)], Init(1));
    LeaveSnoc(m, v, m.first, [] + [Init(0)] + [Init(1)], Denoise(0));
    hide LeftBy, Solo;
    assert t.left.rest == 1 && t.steps == map[0 := 1, 1 := 0];
    assert SoloStep(m, v, t.left, 0).value.0.latent == 1;
    assert !Unseen(m, v, t, Denoise(1));
    IsolatedExactly(m, v);
  }

  lemma LeaveSnoc<L(!new), R(!new), S(!new)>(m: Model<L, R, S>, v: Variant, left: Fields<S>, calls: seq<Call>, c: Call)
    ensures LeftBy(m, v, left, calls + [c]) == LeaveBy(m, v, LeftBy(m, v, left, calls), c)
    ensures LeftBy(m, v, left, []) == Leftover(left, map[])
  {
    assert (calls + [c])[..|calls|] == calls;
  }
}

/** The SDXL and CogVideoX step adapters: one object whose scheduler, timing fields and previous stream
    are shared by every request it serves. */
module Adapter {
  import opened Wrappers
  import opened Requests
  import opened Streams
  import opened Timing

  class Scheduler<S(!new)> {
    var timesteps: seq<int>
    var stepIndex: Option<nat>
    /** What neither adapter saves. */
    var rest: S

    constructor (fields: Fields<S>)
      ensures Held() == fields
    {
      timesteps, stepIndex, rest := fields.timesteps, fields.stepIndex, fields.rest;
    }

    function Held(): Fields<S>
      reads this
    {
      Fields(timesteps, stepIndex, rest)
    }
  }

  class StepAdapter<L(!new), R(!new), S(!new)> {
    const variant: Variant
    const model: Model<L, R, S>
    /** True device milliseconds of each step this adapter runs, by step number. */
    const deviceMs: nat -> real
    const scheduler: Scheduler<S>

    var lastStepSeconds: Option<real>
    var lastStepUnits: Option<int>
    var pendingEvents: Option<Reading>
    /** Set by the runtime before each step. */
    var stream: Stream
    var previousStream: Stream

    /** How many pairs of timing events have been made; a pair is known by its number. */
    var pairs: nat

    /** Quota and stream of every step so far, the step last read, and the operations issued. */
    ghost var quotas: seq<int>
    ghost var placed: seq<Stream>
    ghost var reading: Option<Reading>
    ghost var issued: seq<Op>

    ghost function Clock(): Clock
      reads this
    {
      Timing.Clock(reading, pendingEvents)
    }

    ghost predicate Valid()
      reads this
    {
      Consistent() && Settled(Clock(), quotas)
    }

    /** What also holds within a step. */
    ghost predicate Consistent()
      reads this
    {
      && |quotas| == |placed| == pairs
      && Attributed(Clock(), quotas)
      && lastStepSeconds == (if reading.None? then None else Some(Seconds(reading.value.step)))
      && lastStepUnits == (if reading.None? then None else Some(reading.value.units))
      && issued == Log(placed) && previousStream == Previous(placed)
    }

    function Seconds(step: nat): (r: real)
      ensures r * 1000.0 == deviceMs(step)
    {
      deviceMs(step) / 1000.0
    }

    constructor (variant: Variant, model: Model<L, R, S>, deviceMs: nat -> real, scheduler: Scheduler<S>)
      ensures Valid() && this.variant == variant && this.model == model && this.scheduler == scheduler
      ensures quotas == [] && Clock() == NEW_CLOCK
    {
      this.variant, this.model, this.deviceMs, this.scheduler := variant, model, deviceMs, scheduler;
      lastStepSeconds, lastStepUnits, pendingEvents := None, None, None;
      stream, previousStream, pairs := None, None, 0;
      quotas, placed, reading, issued := [], [], None, [];
    }

    /** `initial_state`: `set_timesteps` on whatever the scheduler holds, and the state read from it. */
    method InitialState() returns (s: StepState<L, R>)
      modifies scheduler
      ensures s == Requests.InitialState(model, old(scheduler.Held()))
      ensures scheduler.Held() == model.reset(old(scheduler.Held()))
      ensures s == StepState(0, model.latent, model.rng, scheduler.timesteps, scheduler.stepIndex)
    {
      var fields := model.reset(scheduler.Held());
      scheduler.timesteps, scheduler.stepIndex, scheduler.rest := fields.timesteps, fields.stepIndex, fields.rest;
      s := StepState(0, model.latent, model.rng, scheduler.timesteps, scheduler.stepIndex);
    }

    /** Reading the outstanding events into the fields. */
    method ReadPending()
      requires Consistent() && pendingEvents.Some?
      modifies this`lastStepSeconds, this`lastStepUnits, this`pendingEvents, this`reading
      ensures Valid() && Clock() == Drained(old(Clock()))
    {
      var Reading(step, units) := pendingEvents.value;
      lastStepSeconds := Some(Seconds(step));
      lastStepUnits := Some(units);
      reading := pendingEvents;
      pendingEvents := None;
    }

    /** `drain_timing`: with a read outstanding it is the newest step's. */
    method DrainTiming() returns (seconds: Option<real>)
      requires Consistent() && (Valid() || pendingEvents.Some?)
      modifies this`lastStepSeconds, this`lastStepUnits, this`pendingEvents, this`reading
      ensures Valid() && Clock() == Drained(old(Clock())) && seconds == lastStepSeconds
      ensures old(pendingEvents).Some? ==>
                seconds == Some(Seconds(|quotas| - 1)) && lastStepUnits == Some(quotas[|quotas|-1])
    {
      if pendingEvents.Some? {
        ReadPending();
      }
      return lastStepSeconds;
    }

    /** `denoise_one`.  `retired` is the answer of `query()` on the outstanding events.  The new state is
        the value-level step's; the timing fields are of a step run at this quota; the issued operations
        are those of the placed streams.  An exhausted state raises before anything changes. */
    method DenoiseOne(state: StepState<L, R>, quota: int, retired: bool) returns (r: Option<StepState<L, R>>)
      requires Valid()
      modifies this, scheduler
      ensures Valid()
      ensures r.None? <==> Denoised(model, variant, old(scheduler.Held()), state).None?
      ensures r.None? ==> unchanged(this) && unchanged(scheduler)
      ensures r.Some? ==> Denoised(model, variant, old(scheduler.Held()), state) == Some((r.value, scheduler.Held()))
      ensures r.None? <==> state.stepIndex >= |state.timesteps|
      ensures r.Some? ==>
                var restored := variant == Sdxl || state.savedIndex.Some?;
                var index := if restored then state.savedIndex else old(scheduler.stepIndex);
                var fields := Fields(state.timesteps, index, old(scheduler.rest));
                var (latent, next, rest, rng) :=
                  model.sample(state.latent, state.timesteps[state.stepIndex], fields, state.rng);
                && r.value == StepState(state.stepIndex + 1, latent, rng, state.timesteps, next)
                && scheduler.Held() == Fields(state.timesteps, next, rest)
      ensures stream == old(stream)
      ensures r.Some? ==>
                && quotas == old(quotas) + [quota] && placed == old(placed) + [old(stream)]
                && Clock() == AfterStep(old(Clock()), |old(quotas)|, quota, retired)
                && lastStepUnits == Some(quota)
                && (exists k :: 0 <= k < |quotas| && quotas[k] == quota && lastStepSeconds == Some(Seconds(k)))
    {
      hide Log, Previous, Sampled;
      if state.stepIndex >= |state.timesteps| {
        return None;
      }
      SampledIs(model, state, IndexRead(variant, scheduler.Held(), state), scheduler.rest);
      Restore(state);
      ghost var before := Clock();
      ReadIfRetired(retired);
      Issue();
      var next := RunSampler(state);
      Finish(quota);
      hide Consistent, AfterStep;
      ReadIfNew(quota, before, retired);
      return Some(next);
    }

    /** The first step, and the first at a new quota, is waited for. */
    method ReadIfNew(quota: int, ghost before: Clock, ghost retired: bool)
      requires Consistent() && quotas != [] && quotas[|quotas|-1] == quota
      requires pendingEvents == Some(Reading(|quotas| - 1, quota))
      requires Attributed(before, quotas[..|quotas|-1])
      requires reading == (if retired then Drained(before) else before).last
      modifies this`lastStepSeconds, this`lastStepUnits, this`pendingEvents, this`reading
      ensures Valid() && Clock() == AfterStep(before, |quotas| - 1, quota, retired)
      ensures lastStepUnits == Some(quota)
      ensures exists k :: 0 <= k < |quotas| && quotas[k] == quota && lastStepSeconds == Some(Seconds(k))
    {
      hide Log, Previous;
      AfterStepAttributed(before, quotas[..|quotas|-1], quota, retired);
      assert quotas[..|quotas|-1] + [quota] == quotas;
      if lastStepSeconds.None? || lastStepUnits != Some(quota) {
        var seconds := DrainTiming();
      }
      assert quotas[reading.value.step] == quota;
    }

    /** Putting the request's scheduler state back, as far as the variant does. */
    method Restore(state: StepState<L, R>)
      modifies scheduler
      ensures scheduler.Held()
           == Fields(state.timesteps, IndexRead(variant, old(scheduler.Held()), state), old(scheduler.rest))
    {
      scheduler.timesteps := state.timesteps;
      if variant == Sdxl || state.savedIndex.Some? {
        scheduler.stepIndex := state.savedIndex;
      }
    }

    /** The model and scheduler work of a step, and the state it leads to. */
    method RunSampler(state: StepState<L, R>) returns (r: StepState<L, R>)
      requires !Exhausted(state) && scheduler.timesteps == state.timesteps
      modifies scheduler
      ensures (r, scheduler.rest) == Sampled(model, state, old(scheduler.stepIndex), old(scheduler.rest))
      ensures scheduler.Held() == Fields(state.timesteps, r.savedIndex, scheduler.rest)
    {
      var timestep := state.timesteps[state.stepIndex];
      var (latent, next, rest, rng) := model.sample(state.latent, timestep, scheduler.Held(), state.rng);
      scheduler.stepIndex, scheduler.rest := next, rest;
      r := StepState(state.stepIndex + 1, latent, rng, state.timesteps, scheduler.stepIndex);
    }

    /** The previous step's events are read if the device has passed them. */
    method ReadIfRetired(retired: bool)
      requires Valid()
      modifies this`lastStepSeconds, this`lastStepUnits, this`pendingEvents, this`reading
      ensures Valid() && Clock() == if retired then Drained(old(Clock())) else old(Clock())
    {
      if pendingEvents.Some? && retired {
        ReadPending();
      }
    }

    /** The stream handover and the step's launch. */
    method Issue()
      requires Valid()
      modifies this`issued
      ensures issued == Log(placed + [stream])
    {
      ghost var step := |placed|;
      if stream.Some? && previousStream.Some? && stream != previousStream {
        issued := issued + [Record(previousStream, step)];
        issued := issued + [Wait(stream, step)];
      }
      issued := issued + [Launch(stream, step)];
      assert (placed + [stream])[..|placed|] == placed;
    }

    /** After the step is issued: its events are outstanding and its stream is the previous one. */
    method Finish(quota: int)
      requires |quotas| == |placed| == pairs && Attributed(Clock(), quotas)
      requires lastStepSeconds == (if reading.None? then None else Some(Seconds(reading.value.step)))
      requires lastStepUnits == (if reading.None? then None else Some(reading.value.units))
      requires issued == Log(placed + [stream]) && previousStream == Previous(placed)
      modifies this`pendingEvents, this`previousStream, this`pairs, this`quotas, this`placed
      ensures quotas == old(quotas) + [quota] && placed == old(placed) + [stream]
      ensures pendingEvents == Some(Reading(|old(quotas)|, quota)) && Consistent()
    {
      hide Log;
      pendingEvents := Some(Reading(pairs, quota));
      pairs := pairs + 1;
      if stream.Some? {
        previousStream := stream;
      }
      assert (placed + [stream])[..|placed|] == placed;
      quotas := quotas + [quota];
      placed := placed + [stream];
    }
  }
}

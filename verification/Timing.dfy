/** Which step the adapter's timing fields speak of, with the read of a step's events deferred. */
module Timing {
  import opened Wrappers

  /** A step of the adapter, by number, and the quota it ran at. */
  datatype Reading = Reading(step: nat, units: int)

  /** What the last reading was of, and the step whose events are outstanding. */
  datatype Clock = Clock(last: Option<Reading>, pending: Option<Reading>)

  const NEW_CLOCK := Clock(None, None)

  /** `drain_timing`. */
  function Drained(c: Clock): Clock {
    if c.pending.None? then c else Clock(c.pending, None)
  }

  /** The timing part of `denoise_one`: read the outstanding events if the device has passed them, put
      this step's in their place, and wait for them if nothing has been read at this quota. */
  function AfterStep(c: Clock, step: nat, units: int, retired: bool): Clock {
    var read := if retired then Drained(c) else c;
    var issued := Clock(read.last, Some(Reading(step, units)));
    if issued.last.None? || issued.last.value.units != units then Drained(issued) else issued
  }

  /** A step's quota, and what `query()` answers about the step before it. */
  datatype Step = Step(units: int, retired: bool)

  function After(steps: seq<Step>): Clock {
    if steps == [] then NEW_CLOCK
    else
      var n := |steps| - 1;
      AfterStep(After(steps[..n]), n, steps[n].units, steps[n].retired)
  }

  /** The clock speaks of steps that were run, at the quota each was run at, and anything outstanding is
      the newest step. */
  ghost predicate Attributed(c: Clock, quotas: seq<int>) {
    && (c.last.Some? ==> c.last.value.step < |quotas| && quotas[c.last.value.step] == c.last.value.units)
    && (c.pending.Some? ==> c.pending.value.step == |quotas| - 1 && quotas[|quotas|-1] == c.pending.value.units)
  }

  /** Between steps something has always been read. */
  ghost predicate Settled(c: Clock, quotas: seq<int>) { Attributed(c, quotas) && (quotas != [] ==> c.last.Some?) }

  lemma AfterStepAttributed(c: Clock, quotas: seq<int>, units: int, retired: bool)
    requires Attributed(c, quotas)
    ensures var next := AfterStep(c, |quotas|, units, retired);
            && Settled(next, quotas + [units])
            && next.last.Some? && next.last.value.units == units
            && Drained(next).last == Some(if next.pending.Some? then Reading(|quotas|, units) else next.last.value)
    ensures Attributed(Drained(c), quotas)
  {
    assert forall i :: 0 <= i < |quotas| ==> (quotas + [units])[i] == quotas[i];
  }

  function Quotas(steps: seq<Step>): seq<int> { seq(|steps|, i requires 0 <= i < |steps| => steps[i].units) }

  /** For every sequence of quotas and every answer of `query()`, the reading is of a step run at the
      current quota, and draining gives the newest step's if it is not the one already read. */
  lemma {:induction false} ReadingsAttributed(steps: seq<Step>)
    requires steps != []
    ensures var c, n := After(steps), |steps| - 1;
            && Settled(c, Quotas(steps))
            && c.last.value.units == steps[n].units
            && (c.pending.Some? ==> Drained(c).last == Some(Reading(n, steps[n].units)))
            && (c.pending.None? ==> c.last == Some(Reading(n, steps[n].units)))
  {
    var n := |steps| - 1;
    if n > 0 {
      ReadingsAttributed(steps[..n]);
    }
    assert Quotas(steps) == Quotas(steps[..n]) + [steps[n].units];
    AfterStepAttributed(After(steps[..n]), Quotas(steps[..n]), steps[n].units, steps[n].retired);
  }

  /** A step whose start settles what has been read: the first one, one at a new quota, or one before
      which `query()` answered yes. */
  predicate Settles(steps: seq<Step>, i: nat)
    requires i < |steps|
  {
    i == 0 || steps[i].units != steps[i-1].units || steps[i].retired
  }

  /** How stale the reading is, exactly: with `i` the last step that settles, it is of `i` itself if that
      step was the first at its quota, since it is then waited for, and of the step before it if not.  So at
      one quota, if `query()` never answers yes, the first step's time is reported for ever. */
  lemma {:induction false} ReadingExact(steps: seq<Step>, i: nat)
    requires i < |steps| && Settles(steps, i)
    requires forall j :: i < j < |steps| ==> !Settles(steps, j)
    ensures After(steps).last
         == Some(Reading(if i == 0 || steps[i].units != steps[i-1].units then i else i - 1, steps[i].units))
    ensures steps[i].units == steps[|steps|-1].units
    decreases |steps|
  {
    var n := |steps| - 1;
    var front := steps[..n];
    if i < n {
      assert forall j :: i < j < n ==> !Settles(front, j) by {
        assert forall j :: i < j < n ==> Settles(front, j) == Settles(steps, j);
      }
      ReadingExact(front, i);
      assert !Settles(steps, n);
    } else if n > 0 {
      ReadingsAttributed(front);
    }
  }

  /** Some step always settles, so the reading is always determined. */
  lemma LastSettling(steps: seq<Step>) returns (i: nat)
    requires steps != []
    ensures i < |steps| && Settles(steps, i) && forall j :: i < j < |steps| ==> !Settles(steps, j)
  {
    i := |steps| - 1;
    while !Settles(steps, i)
      invariant i < |steps| && forall j :: i < j < |steps| ==> !Settles(steps, j)
      decreases i
    {
      i := i - 1;
    }
  }
}

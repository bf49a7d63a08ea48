/** The boost rotation of two perpetually backlogged tenants: each epoch the one with the least
    virtual service gets 75% of the machine and the other 25%. */
module Rotation {
  import opened Currency
  import opened Numbers

  /** Speed and dominant-resource fraction of a tenant in the two positions it can be in, its
      co-runner being in the other. */
  datatype Workload = Workload(boostedSpeed: real, baseSpeed: real, boostedDominant: real, baseDominant: real)

  datatype Tenant = Tenant(vruntime: real, progress: real, sm: real, dominant: real, boosts: nat)

  const IDLE := Tenant(0.0, 0.0, 0.0, 0.0, 0)

  /** The arguments of a run; `a` is the tenant whose name sorts first. */
  datatype Setup = Setup(currency: Currency, epochMs: real, a: Workload, b: Workload, scaleA: real, scaleB: real)

  function Share(boosted: bool): real { if boosted then 0.75 else 0.25 }

  function Speed(w: Workload, boosted: bool): real { if boosted then w.boostedSpeed else w.baseSpeed }

  function Dominant(w: Workload, boosted: bool): real { if boosted then w.boostedDominant else w.baseDominant }

  function Work(s: Setup, w: Workload, boosted: bool): real { Speed(w, boosted) * s.epochMs }

  function Accounted(work: real, scale: real): real { work * scale }

  /** The charge for one epoch; `scale` biases the work the predictor reports. */
  function Charge(s: Setup, w: Workload, scale: real, boosted: bool): real {
    var work := Accounted(Work(s, w, boosted), scale);
    CurrencyDelta(s.currency, s.epochMs, Share(boosted), work, Dominant(w, boosted), 1.0)
  }

  /** One epoch's service and its charge. */
  function Served(s: Setup, w: Workload, scale: real, t: Tenant, boosted: bool): Tenant {
    t.(vruntime := t.vruntime + Charge(s, w, scale, boosted),
       progress := t.progress + Work(s, w, boosted),
       sm := t.sm + Share(boosted) * s.epochMs,
       dominant := t.dominant + Dominant(w, boosted) * s.epochMs)
  }

  function Serve(s: Setup, w: Workload, scale: real, t: Tenant, boosted: bool): Tenant {
    Served(s, w, scale, t.(boosts := t.boosts + if boosted then 1 else 0), boosted)
  }

  /** The minimum by (vruntime, boost_epochs, name) is the first tenant. */
  predicate BoostsFirst(a: Tenant, b: Tenant) {
    a.vruntime < b.vruntime || (a.vruntime == b.vruntime && a.boosts <= b.boosts)
  }

  function Epoch(s: Setup, a: Tenant, b: Tenant): (Tenant, Tenant) {
    var first := BoostsFirst(a, b);
    (Serve(s, s.a, s.scaleA, a, first), Serve(s, s.b, s.scaleB, b, !first))
  }

  /** The two tenants after `n` epochs. */
  function After(s: Setup, n: nat): (Tenant, Tenant) {
    if n == 0 then (IDLE, IDLE)
    else
      var (a, b) := After(s, n - 1);
      Epoch(s, a, b)
  }

  /** `InfiniteTenant`. */
  class InfiniteTenant {
    const workload: Workload
    var vruntime: real
    var progress: real
    var sm: real
    var dominant: real
    var boosts: nat

    ghost function Value(): Tenant
      reads this
    {
      Tenant(vruntime, progress, sm, dominant, boosts)
    }

    constructor (workload: Workload)
      ensures Value() == IDLE && this.workload == workload
    {
      this.workload := workload;
      vruntime, progress, sm, dominant, boosts := 0.0, 0.0, 0.0, 0.0, 0;
    }

    /** The body of the loop over tenants. */
    method RunEpoch(s: Setup, scale: real, boosted: bool)
      modifies this`vruntime, this`progress, this`sm, this`dominant
      ensures old(boosts) == boosts
      ensures Value() == Served(s, workload, scale, old(Value()), boosted)
    {
      hide CurrencyDelta, Work, Accounted, Share, Dominant;
      var share, work := Share(boosted), Work(s, workload, boosted);
      progress := progress + work;
      sm := sm + share * s.epochMs;
      dominant := dominant + Dominant(workload, boosted) * s.epochMs;
      vruntime := vruntime
        + CurrencyDelta(s.currency, s.epochMs, share, Accounted(work, scale), Dominant(workload, boosted), 1.0);
    }
  }

  /** `boost_rotation`. */
  method BoostRotation(s: Setup, epochs: nat) returns (a: InfiniteTenant, b: InfiniteTenant)
    ensures fresh(a) && fresh(b) && a != b
    ensures (a.Value(), b.Value()) == After(s, epochs)
  {
    hide Served;
    a := new InfiniteTenant(s.a);
    b := new InfiniteTenant(s.b);
    for n := 0 to epochs
      invariant fresh(a) && fresh(b) && a != b && a.workload == s.a && b.workload == s.b
      invariant (a.Value(), b.Value()) == After(s, n)
    {
      var first := a.vruntime < b.vruntime || (a.vruntime == b.vruntime && a.boosts <= b.boosts);
      if first {
        a.boosts := a.boosts + 1;
      } else {
        b.boosts := b.boosts + 1;
      }
      a.RunEpoch(s, s.scaleA, first);
      b.RunEpoch(s, s.scaleB, !first);
    }
  }

  // ----- Ledgers

  /** What boosting one tenant and not the other does to the gap a - b. */
  function FirstStep(s: Setup): real { Charge(s, s.a, s.scaleA, true) - Charge(s, s.b, s.scaleB, false) }

  function SecondStep(s: Setup): real { Charge(s, s.b, s.scaleB, true) - Charge(s, s.a, s.scaleA, false) }

  function Gap(s: Setup, n: nat): real { After(s, n).0.vruntime - After(s, n).1.vruntime }

  /** One epoch moves the gap by one tenant's step. */
  lemma GapStep(s: Setup, n: nat)
    ensures var (a, b) := After(s, n);
            var (a', b') := After(s, n + 1);
            && (Gap(s, n) < 0.0 ==> BoostsFirst(a, b)) && (Gap(s, n) > 0.0 ==> !BoostsFirst(a, b))
            && (Gap(s, n) == 0.0 ==> (BoostsFirst(a, b) <==> a.boosts <= b.boosts))
            && (if BoostsFirst(a, b)
                then Gap(s, n + 1) == Gap(s, n) + FirstStep(s) && a'.boosts == a.boosts + 1 && b'.boosts == b.boosts
                else Gap(s, n + 1) == Gap(s, n) - SecondStep(s) && a'.boosts == a.boosts && b'.boosts == b.boosts + 1)
  {
    hide Charge;
  }

  /** `x` added `n` times. */
  function Times(n: nat, x: real): real { if n == 0 then 0.0 else Times(n - 1, x) + x }

  lemma {:induction false} TimesIsProduct(n: nat, x: real)
    ensures Times(n, x) == n as real * x
  {
    if n > 0 {
      TimesIsProduct(n - 1, x);
    }
  }

  /** The gap is the boosts of one tenant against those of the other, and every epoch grants the whole
      machine once. */
  lemma {:induction false} BoostLedger(s: Setup, n: nat)
    ensures var (a, b) := After(s, n);
            && a.boosts + b.boosts == n
            && Gap(s, n) == Times(a.boosts, FirstStep(s)) - Times(b.boosts, SecondStep(s))
            && a.sm + b.sm == Times(n, s.epochMs)
  {
    hide Epoch, Charge, Serve, Served;
    if n > 0 {
      BoostLedger(s, n - 1);
      GapStep(s, n - 1);
      SmStep(s, n - 1);
      hide After, Gap, FirstStep, SecondStep;
    }
  }

  lemma SmStep(s: Setup, n: nat)
    ensures After(s, n + 1).0.sm + After(s, n + 1).1.sm == After(s, n).0.sm + After(s, n).1.sm + s.epochMs
  {
    hide Charge;
  }

  /** What a tenant has received is so many boosted epochs and the rest unboosted ones. */
  lemma {:induction false} TenantTotals(s: Setup, n: nat)
    ensures var (a, b) := After(s, n);
            a.boosts + b.boosts == n && Received(s, s.a, a, n) && Received(s, s.b, b, n)
  {
    hide Charge, Received;
    if n == 0 {
      NothingReceived(s, s.a);
      NothingReceived(s, s.b);
    } else {
      TenantTotals(s, n - 1);
      var (a, b) := After(s, n - 1);
      TotalsStep(s, s.a, s.scaleA, a, BoostsFirst(a, b), n - 1);
      TotalsStep(s, s.b, s.scaleB, b, !BoostsFirst(a, b), n - 1);
      hide Serve;
    }
  }

  lemma NothingReceived(s: Setup, w: Workload)
    ensures Received(s, w, IDLE, 0)
  {
  }

  /** `boosted` for `boosts` of `n` epochs and `base` for the rest. */
  function Mix(boosts: nat, n: nat, boosted: real, base: real): real
    requires boosts <= n
  {
    Times(boosts, boosted) + Times(n - boosts, base)
  }

  /** What a rate comes to in one epoch. */
  function PerEpoch(s: Setup, rate: real): real { rate * s.epochMs }

  ghost predicate Received(s: Setup, w: Workload, t: Tenant, n: nat) {
    && t.boosts <= n
    && t.progress == Mix(t.boosts, n, PerEpoch(s, w.boostedSpeed), PerEpoch(s, w.baseSpeed))
    && t.sm == Mix(t.boosts, n, PerEpoch(s, 0.75), PerEpoch(s, 0.25))
    && t.dominant == Mix(t.boosts, n, PerEpoch(s, w.boostedDominant), PerEpoch(s, w.baseDominant))
  }

  lemma TotalsStep(s: Setup, w: Workload, scale: real, t: Tenant, boosted: bool, n: nat)
    requires Received(s, w, t, n)
    ensures Received(s, w, Serve(s, w, scale, t, boosted), n + 1)
    ensures Serve(s, w, scale, t, boosted).boosts == t.boosts + if boosted then 1 else 0
  {
    var after := Serve(s, w, scale, t, boosted);
    ServeAdds(s, w, scale, t, boosted);
    hide Serve, Mix, PerEpoch;
    MixField(t.progress, after.progress, t.boosts, n, boosted, PerEpoch(s, w.boostedSpeed), PerEpoch(s, w.baseSpeed));
    MixField(t.sm, after.sm, t.boosts, n, boosted, PerEpoch(s, 0.75), PerEpoch(s, 0.25));
    MixField(t.dominant, after.dominant, t.boosts, n, boosted,
             PerEpoch(s, w.boostedDominant), PerEpoch(s, w.baseDominant));
  }

  lemma MixField(before: real, after: real, boosts: nat, n: nat, boost: bool, boosted: real, base: real)
    requires boosts <= n && before == Mix(boosts, n, boosted, base)
    requires after == before + if boost then boosted else base
    ensures after == Mix(if boost then boosts + 1 else boosts, n + 1, boosted, base)
  {
    MixGrows(boosts, n, boosted, base);
  }

  lemma ServeAdds(s: Setup, w: Workload, scale: real, t: Tenant, boosted: bool)
    ensures var after := Serve(s, w, scale, t, boosted);
            && after.boosts == t.boosts + (if boosted then 1 else 0)
            && after.progress
               == t.progress + (if boosted then PerEpoch(s, w.boostedSpeed) else PerEpoch(s, w.baseSpeed))
            && after.sm == t.sm + (if boosted then PerEpoch(s, 0.75) else PerEpoch(s, 0.25))
            && after.dominant
               == t.dominant + (if boosted then PerEpoch(s, w.boostedDominant) else PerEpoch(s, w.baseDominant))
  {
    hide Charge;
  }

  lemma MixGrows(boosts: nat, n: nat, boosted: real, base: real)
    requires boosts <= n
    ensures Mix(boosts + 1, n + 1, boosted, base) == Mix(boosts, n, boosted, base) + boosted
    ensures Mix(boosts, n + 1, boosted, base) == Mix(boosts, n, boosted, base) + base
  {
  }

  // ----- Fairness

  /** If a boosted charge exceeds the other's unboosted charge by something between 0 and D, whichever
      tenant is boosted, the virtual times never drift further apart than D. */
  lemma {:induction false} GapBounded(s: Setup, d: real, n: nat)
    requires 0.0 <= FirstStep(s) <= d && 0.0 <= SecondStep(s) <= d
    ensures -d <= Gap(s, n) <= d
  {
    if n > 0 {
      GapBounded(s, d, n - 1);
      GapStep(s, n - 1);
      hide After, Gap, FirstStep, SecondStep;
    }
  }

  lemma {:induction false} FirstRunsAway(s: Setup, n: nat)
    requires FirstStep(s) < 0.0
    ensures Gap(s, n) == Times(n, FirstStep(s)) && After(s, n).0.boosts >= After(s, n).1.boosts
    ensures n > 0 ==> Gap(s, n) < 0.0
    ensures n == 0 ==> BoostsFirst(After(s, n).0, After(s, n).1)
  {
    if n > 0 {
      FirstRunsAway(s, n - 1);
      GapStep(s, n - 1);
      hide After, Gap, FirstStep, SecondStep;
    }
  }

  lemma {:induction false} SecondRunsAway(s: Setup, n: nat)
    requires FirstStep(s) >= 0.0 && SecondStep(s) < 0.0
    ensures Gap(s, n + 1) == FirstStep(s) + Times(n, -SecondStep(s))
    ensures !BoostsFirst(After(s, n + 1).0, After(s, n + 1).1)
    ensures Gap(s, n + 1) >= 0.0
  {
    if n == 0 {
      assert After(s, 0) == (IDLE, IDLE);
      GapStep(s, 0);
      GapStep(s, 1);
    } else {
      SecondRunsAway(s, n - 1);
      GapStep(s, n);
      GapStep(s, n + 1);
    }
    hide After, Gap, FirstStep, SecondStep;
  }

  lemma Archimedes(step: real, d: real) returns (n: nat)
    requires step > 0.0
    ensures Times(n, step) > d
  {
    n := if d <= 0.0 then 1 else (d / step).Floor + 1;
    TimesIsProduct(n, step);
    if d > 0.0 {
      AboveQuotient(n as real, d, step);
    }
  }

  lemma AboveQuotient(n: real, d: real, step: real)
    requires step > 0.0 && n > d / step
    ensures n * step > d
  {
    var q := d / step;
    assert q * step == d;
  }

  lemma {:induction false} TimesNegated(n: nat, x: real)
    ensures Times(n, -x) == -Times(n, x)
  {
    if n > 0 {
      TimesNegated(n - 1, x);
    }
  }

  ghost predicate BoundedGap(s: Setup, d: real) { forall n: nat :: -d <= Gap(s, n) <= d }

  /** The rotation is fair over every number of epochs exactly when neither tenant's boosted charge is
      below the other's unboosted charge; otherwise one tenant is boosted for ever. */
  lemma FairExactly(s: Setup)
    ensures (exists d :: BoundedGap(s, d)) <==> FirstStep(s) >= 0.0 && SecondStep(s) >= 0.0
  {
    hide Gap, FirstStep, SecondStep, After;
    if FirstStep(s) >= 0.0 && SecondStep(s) >= 0.0 {
      var d := if FirstStep(s) < SecondStep(s) then SecondStep(s) else FirstStep(s);
      forall n: nat ensures -d <= Gap(s, n) <= d {
        GapBounded(s, d, n);
      }
      assert BoundedGap(s, d);
    } else {
      forall d ensures !BoundedGap(s, d) {
        var n := Escapes(s, d);
      }
    }
  }

  lemma Escapes(s: Setup, d: real) returns (n: nat)
    requires FirstStep(s) < 0.0 || SecondStep(s) < 0.0
    ensures Gap(s, n) < -d || Gap(s, n) > d
  {
    hide Gap, FirstStep, SecondStep, After;
    if FirstStep(s) < 0.0 {
      n := Archimedes(-FirstStep(s), d);
      FirstRunsAway(s, n);
      TimesNegated(n, FirstStep(s));
    } else {
      var m := Archimedes(-SecondStep(s), d);
      SecondRunsAway(s, m);
      n := m + 1;
    }
  }

  /** Charging allocated SM time equalises it to within half an epoch, and charging wall time exactly;
      either way the tenants are boosted equally often to within one. */
  lemma TimeCurrenciesAlternate(s: Setup, n: nat)
    requires s.epochMs > 0.0 && (s.currency == SmTime || s.currency == Wall)
    ensures var (a, b) := After(s, n);
            && -1 <= a.boosts - b.boosts <= 1
            && -0.5 * s.epochMs <= Gap(s, n) <= 0.5 * s.epochMs
            && (s.currency == Wall ==> Gap(s, n) == 0.0)
  {
    TimeSteps(s);
    var half := if s.currency == SmTime then 0.5 * s.epochMs else 0.0;
    Alternate(s, half, n);
  }

  lemma TimeSteps(s: Setup)
    ensures s.currency == SmTime ==> FirstStep(s) == SecondStep(s) == 0.5 * s.epochMs
    ensures s.currency == Wall ==> FirstStep(s) == SecondStep(s) == 0.0
  {
  }

  /** With equal steps the gap is the difference of the boost counts, in steps. */
  lemma {:induction false} Alternate(s: Setup, step: real, n: nat)
    requires step >= 0.0 && FirstStep(s) == step && SecondStep(s) == step
    ensures var diff := After(s, n).0.boosts - After(s, n).1.boosts;
            && -1 <= diff <= 1
            && Gap(s, n) == if diff == 1 then step else if diff == -1 then -step else 0.0
  {
    if n > 0 {
      Alternate(s, step, n - 1);
      GapStep(s, n - 1);
      hide After, Gap, FirstStep, SecondStep;
    }
  }

  // ----- What each currency equalises

  /** What a tenant's virtual time counts after `n` epochs: elapsed time, allocated SM time, occupancy of
      its dominant resource, or its progress scaled by the predictor's bias. */
  function Counted(s: Setup, scale: real, t: Tenant, n: nat): real {
    match s.currency
    case Wall => Times(n, s.epochMs)
    case SmTime => t.sm
    case DominantTime => t.dominant
    case FgeProgress => scale * t.progress
  }

  lemma {:induction false} VirtualTimeCounts(s: Setup, n: nat)
    ensures var (a, b) := After(s, n);
            a.vruntime == Counted(s, s.scaleA, a, n) && b.vruntime == Counted(s, s.scaleB, b, n)
  {
    hide Serve, Counted;
    if n == 0 {
      NothingCounted(s, s.scaleA);
      NothingCounted(s, s.scaleB);
    } else {
      VirtualTimeCounts(s, n - 1);
      var (a, b) := After(s, n - 1);
      var first := BoostsFirst(a, b);
      CountedStep(s, s.a, s.scaleA, a, first, n - 1);
      CountedStep(s, s.b, s.scaleB, b, !first, n - 1);
    }
  }

  lemma NothingCounted(s: Setup, scale: real)
    ensures Counted(s, scale, IDLE, 0) == 0.0
  {
  }

  lemma CountedStep(s: Setup, w: Workload, scale: real, t: Tenant, boosted: bool, n: nat)
    requires t.vruntime == Counted(s, scale, t, n)
    ensures var after := Serve(s, w, scale, t, boosted); after.vruntime == Counted(s, scale, after, n + 1)
  {
    if s.currency == FgeProgress {
      var work := Work(s, w, boosted);
      assert Charge(s, w, scale, boosted) == work * scale;
      Distribute(scale, t.progress, work);
    }
  }

  lemma Distribute(scale: real, done: real, work: real)
    ensures scale * (done + work) == scale * done + work * scale
  {
  }

  /** So what the currency counts, and under `fge_progress` that is not the true progress, stays within D. */
  lemma CountedFair(s: Setup, d: real, n: nat)
    requires 0.0 <= FirstStep(s) <= d && 0.0 <= SecondStep(s) <= d
    ensures var (a, b) := After(s, n); -d <= Counted(s, s.scaleA, a, n) - Counted(s, s.scaleB, b, n) <= d
  {
    GapBounded(s, d, n);
    VirtualTimeCounts(s, n);
  }

  // ----- When true progress is equalised

  function Lead(s: Setup, n: nat): real { After(s, n).0.progress - After(s, n).1.progress }

  ghost predicate BoundedLead(s: Setup, d: real) { forall n: nat :: -d <= Lead(s, n) <= d }

  /** A workload that always makes progress. */
  predicate Moves(w: Workload) { w.boostedSpeed > 0.0 && w.baseSpeed > 0.0 }

  ghost predicate Sane(s: Setup) {
    s.epochMs > 0.0 && Moves(s.a) && Moves(s.b) && s.scaleA > 0.0 && s.scaleB > 0.0
  }

  /** One epoch's progress of each tenant. */
  lemma ProgressStep(s: Setup, n: nat)
    ensures var (a, b) := After(s, n);
            var (a', b') := After(s, n + 1);
            var first := BoostsFirst(a, b);
            a'.progress == a.progress + Work(s, s.a, first) && b'.progress == b.progress + Work(s, s.b, !first)
  {
    hide Work, Charge;
  }

  /** What one epoch adds to the lead of the first tenant, boosted or not. */
  function Drift(s: Setup, first: bool): real { Work(s, s.a, first) - Work(s, s.b, !first) }

  lemma LeadStep(s: Setup, n: nat)
    ensures Lead(s, n + 1) == Lead(s, n) + Drift(s, BoostsFirst(After(s, n).0, After(s, n).1))
  {
    ProgressStep(s, n);
    hide After, Work;
  }

  lemma {:induction false} FirstLeads(s: Setup, n: nat)
    requires FirstStep(s) < 0.0
    ensures Lead(s, n) == Times(n, Drift(s, true))
  {
    if n == 0 {
      assert After(s, 0) == (IDLE, IDLE);
    } else {
      FirstLeads(s, n - 1);
      FirstRunsAway(s, n - 1);
      GapStep(s, n - 1);
      LeadStep(s, n - 1);
      hide After, Gap, FirstStep, Lead, Drift;
    }
  }

  lemma {:induction false} SecondLeads(s: Setup, n: nat)
    requires FirstStep(s) >= 0.0 && SecondStep(s) < 0.0
    ensures Lead(s, n + 1) == Drift(s, true) + Times(n, Drift(s, false))
  {
    if n == 0 {
      assert After(s, 0) == (IDLE, IDLE);
      LeadStep(s, 0);
    } else {
      SecondLeads(s, n - 1);
      SecondRunsAway(s, n - 1);
      LeadStep(s, n);
    }
    hide After, Gap, FirstStep, SecondStep, Lead, Drift;
  }

  lemma Outgrows(x: real, d: real) returns (n: nat)
    requires x != 0.0
    ensures Times(n, x) < -d || Times(n, x) > d
  {
    if x > 0.0 {
      n := Archimedes(x, d);
    } else {
      n := Archimedes(-x, d);
      TimesNegated(n, x);
    }
  }

  lemma {:induction false} TimesZero(n: nat)
    ensures Times(n, 0.0) == 0.0
  {
    if n > 0 {
      TimesZero(n - 1);
    }
  }

  /** If the first tenant is boosted for ever, the lead is bounded exactly when it does not move. */
  lemma FirstLeadBounded(s: Setup)
    requires FirstStep(s) < 0.0
    ensures (exists d :: BoundedLead(s, d)) <==> Drift(s, true) == 0.0
  {
    hide Lead, FirstStep, Drift;
    if Drift(s, true) == 0.0 {
      forall n: nat ensures 0.0 <= Lead(s, n) <= 0.0 {
        FirstLeads(s, n);
        TimesZero(n);
      }
      assert BoundedLead(s, 0.0);
    } else {
      forall d ensures !BoundedLead(s, d) {
        var n := Outgrows(Drift(s, true), d);
        FirstLeads(s, n);
      }
    }
  }

  lemma SecondLeadBounded(s: Setup)
    requires FirstStep(s) >= 0.0 && SecondStep(s) < 0.0
    ensures (exists d :: BoundedLead(s, d)) <==> Drift(s, false) == 0.0
  {
    hide Lead, FirstStep, SecondStep, Drift;
    var start := Drift(s, true);
    var size := if start < 0.0 then -start else start;
    if Drift(s, false) == 0.0 {
      forall n: nat ensures -size <= Lead(s, n) <= size {
        if n == 0 {
          NoLead(s);
        } else {
          SecondLeads(s, n - 1);
          TimesZero(n - 1);
        }
      }
      assert BoundedLead(s, size);
    } else {
      forall d ensures !BoundedLead(s, d) {
        var n := Outgrows(Drift(s, false), d + size);
        SecondLeads(s, n);
        assert Lead(s, n + 1) < -d || Lead(s, n + 1) > d;
      }
    }
  }

  lemma NoLead(s: Setup)
    ensures Lead(s, 0) == 0.0
  {
  }

  /** Progress grows without end. */
  lemma {:induction false} ProgressGrows(s: Setup, n: nat)
    requires Sane(s)
    ensures After(s, n).0.progress >= Times(n, MinReal(Work(s, s.a, true), Work(s, s.a, false)))
  {
    if n == 0 {
      assert After(s, 0) == (IDLE, IDLE);
    } else {
      ProgressGrows(s, n - 1);
      ProgressStep(s, n - 1);
      hide After, Work;
    }
  }

  lemma WorkPositive(s: Setup, w: Workload, boosted: bool)
    requires s.epochMs > 0.0 && Moves(w)
    ensures Work(s, w, boosted) > 0.0
  {
    Product(Speed(w, boosted), s.epochMs);
  }

  lemma Product(a: real, b: real)
    requires a > 0.0 && b > 0.0
    ensures a * b > 0.0
  {
  }

  /** If neither tenant is boosted for ever, true progress is equalised exactly when the predictor is
      biased alike for both. */
  lemma LeadBoundedByScale(s: Setup)
    requires s.currency == FgeProgress && Sane(s) && FirstStep(s) >= 0.0 && SecondStep(s) >= 0.0
    ensures (exists d :: BoundedLead(s, d)) <==> s.scaleA == s.scaleB
  {
    hide FirstStep, SecondStep, After, Work;
    var reach := if FirstStep(s) < SecondStep(s) then SecondStep(s) else FirstStep(s);
    if s.scaleA == s.scaleB {
      var d := reach / s.scaleA;
      forall n: nat ensures -d <= Lead(s, n) <= d {
        CountedFair(s, reach, n);
        Unscale(s.scaleA, After(s, n).0.progress, After(s, n).1.progress, reach);
      }
      assert BoundedLead(s, d);
    } else {
      forall d ensures !BoundedLead(s, d) {
        var n := BiasedLead(s, reach, d);
      }
    }
  }

  lemma Unscale(scale: real, x: real, y: real, reach: real)
    requires scale > 0.0 && -reach <= scale * x - scale * y <= reach
    ensures -(reach / scale) <= x - y <= reach / scale
  {
    var d := reach / scale;
    assert d * scale == reach;
    assert scale * x - scale * y == scale * (x - y);
    if x - y > d {
      Product(x - y - d, scale);
    }
    if x - y < -d {
      Product(-d - (x - y), scale);
    }
  }

  lemma BiasedLead(s: Setup, reach: real, d: real) returns (n: nat)
    requires s.currency == FgeProgress && Sane(s) && s.scaleA != s.scaleB
    requires 0.0 <= FirstStep(s) <= reach && 0.0 <= SecondStep(s) <= reach
    ensures Lead(s, n) < -d || Lead(s, n) > d
  {
    hide FirstStep, SecondStep, After, Work;
    var size := if s.scaleA < s.scaleB then s.scaleB - s.scaleA else s.scaleA - s.scaleB;
    var slack := reach + s.scaleB * d;
    n := FarEnough(s, slack / size);
    CountedFair(s, reach, n);
    Quotient(slack, size);
    TooFar(s.scaleA, s.scaleB, After(s, n).0.progress, After(s, n).1.progress, reach, d, size, slack / size);
  }

  lemma FarEnough(s: Setup, far: real) returns (n: nat)
    requires Sane(s)
    ensures After(s, n).0.progress > far
  {
    WorkPositive(s, s.a, true);
    WorkPositive(s, s.a, false);
    hide After, Work;
    n := Archimedes(MinReal(Work(s, s.a, true), Work(s, s.a, false)), far);
    ProgressGrows(s, n);
  }

  lemma Quotient(x: real, size: real)
    requires size > 0.0
    ensures x / size * size == x
  {
  }

  /** Scaled progresses and true ones cannot both stay close while progress grows. */
  lemma TooFar(p: real, q: real, x: real, y: real, reach: real, d: real, size: real, far: real)
    requires q > 0.0 && size > 0.0 && size == (if p < q then q - p else p - q)
    requires -reach <= p * x - q * y <= reach && x > far && far * size == reach + q * d
    ensures x - y < -d || x - y > d
  {
    Product(x - far, size);
    assert (x - far) * size == x * size - far * size;
    assert p * x - q * y == (p - q) * x + q * (x - y);
    assert x * size == (p - q) * x || x * size == -((p - q) * x);
    Between(q, x - y, d);
  }

  lemma Between(q: real, z: real, d: real)
    requires q > 0.0
    ensures -d <= z <= d ==> -(q * d) <= q * z <= q * d
  {
  }

  /** Under `fge_progress` the rotation keeps true progress within some bound over every number of epochs
      exactly when: one tenant is boosted for ever and the two then move at the same speed, or neither is
      and the predictor is biased alike for both. */
  lemma ProgressFairExactly(s: Setup)
    requires s.currency == FgeProgress && Sane(s)
    ensures (exists d :: BoundedLead(s, d)) <==>
              if FirstStep(s) < 0.0 then s.a.boostedSpeed == s.b.baseSpeed
              else if SecondStep(s) < 0.0 then s.a.baseSpeed == s.b.boostedSpeed
              else s.scaleA == s.scaleB
  {
    hide FirstStep, SecondStep, BoundedLead;
    if FirstStep(s) < 0.0 {
      FirstLeadBounded(s);
      SameWork(s.epochMs, s.a.boostedSpeed, s.b.baseSpeed);
    } else if SecondStep(s) < 0.0 {
      SecondLeadBounded(s);
      SameWork(s.epochMs, s.a.baseSpeed, s.b.boostedSpeed);
    } else {
      LeadBoundedByScale(s);
    }
  }

  lemma SameWork(epoch: real, x: real, y: real)
    requires epoch > 0.0
    ensures x * epoch - y * epoch == 0.0 <==> x == y
  {
    assert x * epoch - y * epoch == (x - y) * epoch;
  }

  /** Two equal workloads whose second one is accounted at `scale`. */
  function Biased(scale: real): Setup {
    var w := Workload(0.7, 0.2, 0.75, 0.25);
    Setup(FgeProgress, 1.0, w, w, 1.0, scale)
  }

  /** A run that equalises scaled progress and lets true progress drift apart. */
  lemma BiasLetsProgressDrift()
    ensures FirstStep(Biased(1.3)) >= 0.0 && SecondStep(Biased(1.3)) >= 0.0
    ensures (exists d :: BoundedGap(Biased(1.3), d)) && !exists d :: BoundedLead(Biased(1.3), d)
  {
    BiasedSteps(1.3);
    hide FirstStep, SecondStep, BoundedGap, BoundedLead;
    FairExactly(Biased(1.3));
    ProgressFairExactly(Biased(1.3));
  }

  /** A run in which even the virtual times drift apart: the second tenant is charged so much that the
      first is boosted for ever. */
  lemma BiasBoostsOneForEver()
    ensures FirstStep(Biased(4.0)) < 0.0 && !exists d :: BoundedGap(Biased(4.0), d)
    ensures !exists d :: BoundedLead(Biased(4.0), d)
  {
    BiasedSteps(4.0);
    hide FirstStep, SecondStep, BoundedGap, BoundedLead;
    FairExactly(Biased(4.0));
    ProgressFairExactly(Biased(4.0));
  }

  lemma BiasedSteps(scale: real)
    ensures FirstStep(Biased(scale)) == 0.7 - 0.2 * scale && SecondStep(Biased(scale)) == 0.7 * scale - 0.2
  {
  }
}

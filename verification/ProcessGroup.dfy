/** Tasks, thread groups and process groups, the steps other programs and the kernel can take between
    any two reads, and what those steps cannot do to a group that has been sent SIGKILL. */
module ProcessGroup {

  type Pid = nat

  /** A task (thread): its thread group, whether it is still running, and whether SIGKILL is pending. */
  datatype Task = Task(tgid: Pid, live: bool, doomed: bool)

  /** `groups` gives the process group of every thread group. */
  datatype World = World(tasks: map<Pid, Task>, groups: map<Pid, Pid>)

  datatype Event =
    | Exit(task: Pid)
    | Reap(task: Pid)
    | Clone(parent: Pid, child: Pid)        // a new thread of the parent's thread group
    | Fork(parent: Pid, child: Pid)         // a new process of the parent's process group
    | SetGroup(tgid: Pid, to: Pid)
    | Kill(target: Pid)                     // SIGKILL to a whole process group

  ghost predicate InGroup(w: World, tgid: Pid, g: Pid) { tgid in w.groups && w.groups[tgid] == g }

  ghost predicate LiveMember(w: World, t: Pid, g: Pid) {
    t in w.tasks && w.tasks[t].live && InGroup(w, w.tasks[t].tgid, g)
  }

  ghost predicate NoLiveMember(w: World, g: Pid) { forall t :: !LiveMember(w, t, g) }

  /** Whether the kernel can take the step.  A task with SIGKILL pending completes no fork or clone, a
      new task takes an unused number, and nobody joins `g` from outside. */
  ghost predicate Enabled(w: World, e: Event, g: Pid) {
    match e
    case Exit(t) => t in w.tasks && w.tasks[t].live
    case Reap(t) => t in w.tasks && !w.tasks[t].live
    case Clone(parent, child) =>
      parent in w.tasks && w.tasks[parent].live && !w.tasks[parent].doomed && child !in w.tasks
    case Fork(parent, child) =>
      && parent in w.tasks && w.tasks[parent].live && !w.tasks[parent].doomed && child !in w.tasks
      && w.tasks[parent].tgid in w.groups
      && forall t :: t in w.tasks ==> w.tasks[t].tgid != child
    case SetGroup(tgid, to) => tgid in w.groups && to != g
    case Kill(target) => true
  }

  ghost function Effect(w: World, e: Event, g: Pid): World
    requires Enabled(w, e, g)
  {
    match e
    case Exit(t) => w.(tasks := w.tasks[t := w.tasks[t].(live := false)])
    case Reap(t) => w.(tasks := w.tasks - {t})
    case Clone(parent, child) => w.(tasks := w.tasks[child := Task(w.tasks[parent].tgid, true, false)])
    case Fork(parent, child) =>
      World(w.tasks[child := Task(child, true, false)], w.groups[child := w.groups[w.tasks[parent].tgid]])
    case SetGroup(tgid, to) => w.(groups := w.groups[tgid := to])
    case Kill(target) =>
      w.(tasks := map t | t in w.tasks ::
           if InGroup(w, w.tasks[t].tgid, target) then w.tasks[t].(doomed := true) else w.tasks[t])
  }

  ghost predicate Step(a: World, b: World, g: Pid) {
    exists e :: Enabled(a, e, g) && b == Effect(a, e, g)
  }

  /** A run: worlds that follow one another by steps. */
  ghost predicate Run(run: seq<World>, g: Pid) {
    run != [] && forall i :: 0 < i < |run| ==> Step(run[i-1], run[i], g)
  }

  ghost predicate RunBetween(run: seq<World>, a: World, b: World, g: Pid) {
    Run(run, g) && run[0] == a && run[|run|-1] == b
  }

  ghost predicate Reaches(a: World, b: World, g: Pid) { exists run :: RunBetween(run, a, b, g) }

  /** Every running member of the group has SIGKILL pending. */
  ghost predicate Sealed(w: World, g: Pid) {
    forall t :: LiveMember(w, t, g) ==> w.tasks[t].doomed
  }

  /** The running members of `b` were all running members of `a`, in the same thread groups. */
  ghost predicate Shrinks(a: World, b: World, g: Pid) {
    forall t :: LiveMember(b, t, g) ==> LiveMember(a, t, g) && a.tasks[t].tgid == b.tasks[t].tgid
  }

  /** One step never adds a running member to a sealed group, and leaves it sealed. */
  lemma SealedStep(a: World, b: World, g: Pid)
    requires Sealed(a, g) && Step(a, b, g)
    ensures Sealed(b, g) && Shrinks(a, b, g)
  {
    var e :| Enabled(a, e, g) && b == Effect(a, e, g);
    forall t | LiveMember(b, t, g)
      ensures LiveMember(a, t, g) && a.tasks[t].tgid == b.tasks[t].tgid && b.tasks[t].doomed
    {
      assert t in b.tasks;
    }
  }

  /** So over any run a sealed group only loses running members, and each one still running at the end
      was running in it all along. */
  lemma {:induction false} SealedRun(run: seq<World>, g: Pid, i: nat)
    requires Run(run, g) && Sealed(run[0], g) && i < |run|
    ensures Sealed(run[i], g) && Shrinks(run[0], run[i], g)
    ensures Shrinks(run[i], run[|run|-1], g)
    decreases |run|
  {
    if |run| > 1 {
      SealedStep(run[0], run[1], g);
      var rest := run[1..];
      assert forall k :: 0 < k < |rest| ==> rest[k-1] == run[k] && rest[k] == run[k+1];
      SealedRun(rest, g, if i == 0 then 0 else i - 1);
      assert i > 0 ==> rest[i-1] == run[i];
    }
  }

  lemma SealedReaches(a: World, b: World, g: Pid)
    requires Sealed(a, g) && Reaches(a, b, g)
    ensures Sealed(b, g) && Shrinks(a, b, g)
  {
    var run :| RunBetween(run, a, b, g);
    SealedRun(run, g, |run| - 1);
  }

  /** Sending SIGKILL to the group seals it. */
  lemma KillSeals(w: World, g: Pid)
    ensures Sealed(Effect(w, Kill(g), g), g)
  {
    var after := Effect(w, Kill(g), g);
    forall t | LiveMember(after, t, g) ensures after.tasks[t].doomed {
      assert t in w.tasks;
    }
  }
}

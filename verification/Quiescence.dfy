/** Killing a build subprocess group and proving it empty from `/proc` reads that are not atomic.  Call
    number n of the protocol happens while the world moves from world(n) to world(n + 1), by any steps
    at all; the answers are arbitrary but truthful. */
module Quiescence {
  import opened Wrappers
  import opened ProcessGroup
  import opened KernelAnswers

  ghost predicate GroupGone(w: World, g: Pid) {
    forall t :: t in w.tasks ==> !InGroup(w, w.tasks[t].tgid, g)
  }

  /** Something holds at an instant of the call. */
  ghost predicate Sometime(a: World, b: World, g: Pid, fact: World -> bool) {
    exists w :: Reaches(a, w, g) && Reaches(w, b, g) && fact(w)
  }

  ghost predicate LiveIn(w: World, t: Pid, tgid: Pid) {
    t in w.tasks && w.tasks[t].live && w.tasks[t].tgid == tgid
  }

  ghost predicate NoThread(w: World, tgid: Pid) { forall t :: !LiveIn(w, t, tgid) }

  ghost predicate LiveThroughout(run: seq<World>, t: Pid, tgid: Pid) {
    forall i :: 0 <= i < |run| ==> LiveIn(run[i], t, tgid)
  }

  /** What a stat of a process says at one instant: absent only if no thread runs; otherwise its true
      group, and zombie only if the leader does not run. */
  ghost predicate ProcessRecordTrue(r: Record, pid: Pid, w: World) {
    && (r.Absent? ==> NoThread(w, pid))
    && (r.Record? ==> forall t :: LiveIn(w, t, pid) ==> InGroup(w, pid, r.group))
    && (r.Record? && r.zombie ==> !LiveIn(w, pid, pid))
  }

  ghost predicate ThreadRecordTrue(r: Record, tid: Pid, w: World) {
    r.Absent? || (r.Record? && r.zombie) ==> tid !in w.tasks || !w.tasks[tid].live
  }

  /** A listing names every thread group (of `/proc`) or thread (of a task directory) that ran
      throughout it. */
  ghost predicate ProcListingTrue(l: Listing, a: World, b: World, g: Pid) {
    l.Entries? ==> exists run ::
      RunBetween(run, a, b, g) && forall t, tgid :: LiveThroughout(run, t, tgid) ==> Number(tgid) in l.names
  }

  ghost predicate TaskListingTrue(l: Listing, tgid: Pid, a: World, b: World, g: Pid) {
    && (l.Missing? ==> Sometime(a, b, g, w => NoThread(w, tgid)))
    && (l.Entries? ==> exists run ::
          RunBetween(run, a, b, g) && forall t :: LiveThroughout(run, t, tgid) ==> Number(t) in l.names)
  }

  ghost predicate TruthfulAt(k: Kernel, n: nat, a: World, b: World, g: Pid) {
    && Reaches(a, b, g)
    && (k.kill(n) == NoSuchGroup ==> Sometime(a, b, g, w => GroupGone(w, g)))
    && (k.kill(n) == Sent ==> exists w :: Reaches(a, w, g) && Reaches(Effect(w, Kill(g), g), b, g))
    && (k.probe(n) == NoSuchGroup ==> Sometime(a, b, g, w => GroupGone(w, g)))
    && ProcListingTrue(k.listProc(n), a, b, g)
    && (forall pid :: Sometime(a, b, g, w => ProcessRecordTrue(k.statProcess(n, pid), pid, w)))
    && (forall pid :: TaskListingTrue(k.listTasks(n, pid), pid, a, b, g))
    && (forall tid :: Sometime(a, b, g, w => ThreadRecordTrue(k.statThread(n, tid), tid, w)))
  }

  ghost predicate Truthful(k: Kernel, world: nat -> World, g: Pid) {
    forall n: nat :: TruthfulAt(k, n, world(n), world(n + 1), g)
  }

  // ----- What one truthful answer proves of a sealed group

  ghost predicate NoMemberIn(w: World, tgid: Pid, g: Pid) {
    forall t :: LiveMember(w, t, g) ==> w.tasks[t].tgid != tgid
  }

  ghost predicate GroupsListed(w: World, names: seq<Name>, g: Pid) {
    forall t :: LiveMember(w, t, g) ==> Number(w.tasks[t].tgid) in names
  }

  ghost predicate ThreadsListed(w: World, tgid: Pid, names: seq<Name>, g: Pid) {
    forall t :: LiveMember(w, t, g) && w.tasks[t].tgid == tgid ==> Number(t) in names
  }

  lemma Instant(a: World, b: World, g: Pid, fact: World -> bool) returns (w: World)
    requires Sometime(a, b, g, fact) && Sealed(a, g)
    ensures fact(w) && Sealed(w, g) && Shrinks(a, w, g) && Sealed(b, g) && Shrinks(w, b, g)
  {
    w :| Reaches(a, w, g) && Reaches(w, b, g) && fact(w);
    SealedReaches(a, w, g);
    SealedReaches(w, b, g);
  }

  lemma MembersThroughout(run: seq<World>, a: World, b: World, g: Pid, t: Pid)
    requires RunBetween(run, a, b, g) && Sealed(a, g) && LiveMember(b, t, g)
    ensures LiveThroughout(run, t, b.tasks[t].tgid)
  {
    forall i | 0 <= i < |run| ensures LiveIn(run[i], t, b.tasks[t].tgid) {
      SealedRun(run, g, i);
    }
  }

  lemma ListedMember(l: Listing, a: World, b: World, g: Pid, t: Pid)
    requires Sealed(a, g) && LiveMember(b, t, g) && l.Entries?
    ensures ProcListingTrue(l, a, b, g) ==> Number(b.tasks[t].tgid) in l.names
    ensures TaskListingTrue(l, b.tasks[t].tgid, a, b, g) ==> Number(t) in l.names
  {
    var tgid := b.tasks[t].tgid;
    if ProcListingTrue(l, a, b, g) {
      var run :| RunBetween(run, a, b, g) && forall u, v :: LiveThroughout(run, u, v) ==> Number(v) in l.names;
      MembersThroughout(run, a, b, g, t);
    }
    if TaskListingTrue(l, tgid, a, b, g) {
      var run :| RunBetween(run, a, b, g) && forall u :: LiveThroughout(run, u, tgid) ==> Number(u) in l.names;
      MembersThroughout(run, a, b, g, t);
    }
  }

  lemma WorldMoves(k: Kernel, world: nat -> World, g: Pid, n: nat)
    requires Truthful(k, world, g)
    ensures Reaches(world(n), world(n + 1), g)
  {
    assert TruthfulAt(k, n, world(n), world(n + 1), g);
  }

  lemma KillProves(k: Kernel, world: nat -> World, g: Pid, n: nat)
    requires Truthful(k, world, g)
    ensures !k.kill(n).Refused? ==> Sealed(world(n + 1), g)
    ensures k.kill(n) == NoSuchGroup ==> NoLiveMember(world(n + 1), g)
  {
    assert TruthfulAt(k, n, world(n), world(n + 1), g);
    if k.kill(n) == NoSuchGroup {
      GoneIsEmpty(world(n), world(n + 1), g);
    } else if k.kill(n) == Sent {
      var w :| Reaches(world(n), w, g) && Reaches(Effect(w, Kill(g), g), world(n + 1), g);
      KillSeals(w, g);
      SealedReaches(Effect(w, Kill(g), g), world(n + 1), g);
    }
  }

  lemma ProbeProves(k: Kernel, world: nat -> World, g: Pid, n: nat)
    requires Truthful(k, world, g)
    ensures k.probe(n) == NoSuchGroup ==> NoLiveMember(world(n + 1), g)
  {
    assert TruthfulAt(k, n, world(n), world(n + 1), g);
    if k.probe(n) == NoSuchGroup {
      GoneIsEmpty(world(n), world(n + 1), g);
    }
  }

  lemma GoneIsEmpty(a: World, b: World, g: Pid)
    requires Sometime(a, b, g, w => GroupGone(w, g))
    ensures NoLiveMember(b, g) && Sealed(b, g)
  {
    var w :| Reaches(a, w, g) && Reaches(w, b, g) && GroupGone(w, g);
    assert Sealed(w, g);
    SealedReaches(w, b, g);
  }

  lemma ThreadProves(k: Kernel, world: nat -> World, g: Pid, n: nat, tid: Pid)
    requires Truthful(k, world, g) && Sealed(world(n), g)
    ensures var r := k.statThread(n, tid);
            r.Absent? || (r.Record? && r.zombie) ==> !LiveMember(world(n + 1), tid, g)
  {
    assert TruthfulAt(k, n, world(n), world(n + 1), g);
    var w := Instant(world(n), world(n + 1), g, w => ThreadRecordTrue(k.statThread(n, tid), tid, w));
  }

  lemma ProcessProves(k: Kernel, world: nat -> World, g: Pid, n: nat, pid: Pid)
    requires Truthful(k, world, g) && Sealed(world(n), g)
    ensures var r := k.statProcess(n, pid);
            r.Absent? || (r.Record? && r.group != g) ==> NoMemberIn(world(n + 1), pid, g)
  {
    assert TruthfulAt(k, n, world(n), world(n + 1), g);
    var w := Instant(world(n), world(n + 1), g, w => ProcessRecordTrue(k.statProcess(n, pid), pid, w));
    var r := k.statProcess(n, pid);
    if r.Absent? || (r.Record? && r.group != g) {
      NotOurs(r, pid, w, world(n + 1), g);
    }
  }

  lemma NotOurs(r: Record, pid: Pid, w: World, b: World, g: Pid)
    requires ProcessRecordTrue(r, pid, w) && Shrinks(w, b, g)
    requires r.Absent? || (r.Record? && r.group != g)
    ensures NoMemberIn(b, pid, g)
  {
    forall t | LiveMember(b, t, g) ensures b.tasks[t].tgid != pid {
      if b.tasks[t].tgid == pid {
        assert LiveIn(w, t, pid) && InGroup(w, pid, g);
      }
    }
  }

  lemma ProcListingProves(k: Kernel, world: nat -> World, g: Pid, n: nat)
    requires Truthful(k, world, g) && Sealed(world(n), g)
    ensures k.listProc(n).Entries? ==> GroupsListed(world(n + 1), k.listProc(n).names, g)
  {
    assert TruthfulAt(k, n, world(n), world(n + 1), g);
    var l, b := k.listProc(n), world(n + 1);
    if l.Entries? {
      forall t | LiveMember(b, t, g) ensures Number(b.tasks[t].tgid) in l.names {
        ListedMember(l, world(n), b, g, t);
      }
    }
  }

  lemma HonestTasks(k: Kernel, world: nat -> World, g: Pid, n: nat, tgid: Pid)
    requires Truthful(k, world, g)
    ensures TaskListingTrue(k.listTasks(n, tgid), tgid, world(n), world(n + 1), g)
  {
    assert TruthfulAt(k, n, world(n), world(n + 1), g);
  }

  lemma TaskListingProves(l: Listing, tgid: Pid, a: World, b: World, g: Pid)
    requires Sealed(a, g) && TaskListingTrue(l, tgid, a, b, g)
    ensures l.Missing? ==> NoMemberIn(b, tgid, g)
    ensures l.Entries? ==> ThreadsListed(b, tgid, l.names, g)
  {
    if l.Missing? {
      var w := Instant(a, b, g, w => NoThread(w, tgid));
      assert forall t :: LiveMember(b, t, g) && b.tasks[t].tgid == tgid ==> LiveIn(w, t, tgid);
    } else if l.Entries? {
      forall t | LiveMember(b, t, g) && b.tasks[t].tgid == tgid ensures Number(t) in l.names {
        ListedMember(l, a, b, g, t);
      }
    }
  }

  /** The prover: the answers it gets, the world it cannot see, and how many calls it has made. */
  class Prober {
    const kernel: Kernel
    const group: Pid
    ghost const world: nat -> World
    var calls: nat
    var now: int

    ghost predicate Honest()
    {
      Truthful(kernel, world, group)
    }

    /** No running member of the group is in this thread group. */
    ghost predicate Dead(tgid: Pid)
      reads this
    {
      NoMemberIn(world(calls), tgid, group)
    }

    ghost predicate SealedNow()
      reads this
    {
      Sealed(world(calls), group)
    }

    ghost predicate Empty()
      reads this
    {
      NoLiveMember(world(calls), group)
    }

    /** The time without what the calls took. */
    ghost function Base(): int
      reads this
    {
      now - Spent(kernel, calls)
    }

    constructor (kernel: Kernel, group: Pid, ghost world: nat -> World)
      ensures this.kernel == kernel && this.group == group && this.world == world && calls == 0
    {
      this.kernel, this.group, this.world := kernel, group, world;
      calls, now := 0, 0;
    }

    /** Making a call: the world moves on, a sealed group stays sealed and only shrinks. */
    method Call()
      requires Honest()
      modifies this
      ensures calls == old(calls) + 1 && Base() == old(Base())
      ensures old(SealedNow()) ==> SealedNow() && Shrinks(world(old(calls)), world(calls), group)
    {
      hide Truthful, Sealed, Shrinks, Reaches;
      WorldMoves(kernel, world, group, calls);
      assert Spent(kernel, calls + 1) == Spent(kernel, calls) + kernel.elapsed(calls);
      if SealedNow() {
        SealedReaches(world(calls), world(calls + 1), group);
      }
      now := now + kernel.elapsed(calls);
      calls := calls + 1;
    }

    /** killpg(group, SIGKILL): once sent, or once there is no such group, the group is sealed. */
    method SendKill() returns (r: Signal)
      requires Honest()
      modifies this
      ensures r == kernel.kill(old(calls))
      ensures calls == old(calls) + 1 && Base() == old(Base())
      ensures old(SealedNow()) || !r.Refused? ==> SealedNow()
      ensures r == NoSuchGroup ==> Empty()
    {
      hide Truthful, Sealed, Shrinks, LiveMember, NoMemberIn, Spent;
      r := kernel.kill(calls);
      KillProves(kernel, world, group, calls);
      Call();
    }

    /** One `stat` of a thread: absent or zombie is proof that it does not run in the group. */
    method StatThread(tid: Pid) returns (r: Record)
      requires Honest() && SealedNow()
      modifies this
      ensures r == kernel.statThread(old(calls), tid)
      ensures calls == old(calls) + 1 && Base() == old(Base())
      ensures SealedNow() && Shrinks(world(old(calls)), world(calls), group)
      ensures r.Absent? || (r.Record? && r.zombie) ==> !LiveMember(world(calls), tid, group)
    {
      hide Truthful, Sealed, Shrinks, LiveMember, NoMemberIn, Spent;
      r := kernel.statThread(calls, tid);
      ThreadProves(kernel, world, group, calls, tid);
      Call();
    }

    /** One `stat` of a process: absent or in another group is proof that it has no running member. */
    method StatProcess(pid: Pid) returns (r: Record)
      requires Honest() && SealedNow()
      modifies this
      ensures r == kernel.statProcess(old(calls), pid)
      ensures calls == old(calls) + 1 && Base() == old(Base())
      ensures SealedNow() && Shrinks(world(old(calls)), world(calls), group)
      ensures r.Absent? || (r.Record? && r.group != group) ==> Dead(pid)
    {
      hide Truthful, Sealed, Shrinks, LiveMember, NoMemberIn, Spent;
      r := kernel.statProcess(calls, pid);
      ProcessProves(kernel, world, group, calls, pid);
      Call();
    }

    /** `listdir` of a task directory: every running member of the thread group is in it. */
    method ListTasks(tgid: Pid) returns (r: Listing)
      requires Honest() && SealedNow()
      modifies this
      ensures r == kernel.listTasks(old(calls), tgid)
      ensures calls == old(calls) + 1 && Base() == old(Base())
      ensures SealedNow() && Shrinks(world(old(calls)), world(calls), group)
      ensures r.Missing? ==> Dead(tgid)
      ensures r.Entries? ==> ThreadsListed(world(calls), tgid, r.names, group)
    {
      hide Truthful, Sealed, Shrinks, LiveMember, NoMemberIn, ThreadsListed, TaskListingTrue, Spent;
      r := kernel.listTasks(calls, tgid);
      HonestTasks(kernel, world, group, calls, tgid);
      TaskListingProves(r, tgid, world(calls), world(calls + 1), group);
      Call();
    }

    /** `listdir("/proc")`: the thread group of every running member is in it. */
    method ListProc() returns (r: Listing)
      requires Honest() && SealedNow()
      modifies this
      ensures r == kernel.listProc(old(calls))
      ensures calls == old(calls) + 1 && Base() == old(Base())
      ensures SealedNow()
      ensures r.Entries? ==> GroupsListed(world(calls), r.names, group)
    {
      hide Truthful, Sealed, Shrinks, LiveMember, NoMemberIn, Spent;
      r := kernel.listProc(calls);
      ProcListingProves(kernel, world, group, calls);
      Call();
    }

    /** killpg(group, 0). */
    method Probe() returns (r: Signal)
      requires Honest() && SealedNow()
      modifies this
      ensures r == kernel.probe(old(calls))
      ensures calls == old(calls) + 1 && Base() == old(Base())
      ensures SealedNow()
      ensures r == NoSuchGroup ==> Empty()
    {
      hide Truthful, Sealed, Shrinks, LiveMember, NoMemberIn, Spent;
      r := kernel.probe(calls);
      ProbeProves(kernel, world, group, calls);
      Call();
    }

    /** At some call the thread's stat was absent or zombie. */
    ghost predicate SeenDead(tid: Pid) {
      exists n :: DeadThread(kernel.statThread(n, tid))
    }

    /** `_thread_group_snapshot_has_live_thread`; None is a raise.  A directory that is there gives False
        only if it could be listed in full and every thread in it was read as absent or zombie. */
    method SnapshotHasLiveThread(tgid: Pid) returns (r: Option<bool>)
      requires Honest() && SealedNow()
      modifies this
      ensures (r, calls) == Snapshot(kernel, old(calls), tgid)
      ensures Base() == old(Base())
      ensures SealedNow() && Shrinks(world(old(calls)), world(calls), group)
      ensures r == Some(false) ==> Dead(tgid)
      ensures var l := kernel.listTasks(old(calls), tgid);
              && (l.Missing? ==> r == Some(false))
              && (l.Unlistable? ==> r == Some(true))
              && (l.Entries? && |l.names| > MAX_PROC_RECORDS ==> r == None)
              && (l.Entries? && r == Some(false) ==> forall tid :: Number(tid) in l.names ==> SeenDead(tid))
    {
      hide Truthful, Sealed;
      var listing := ListTasks(tgid);
      if listing.Missing? {
        return Some(false);
      }
      if listing.Unlistable? {
        return Some(true);
      }
      var threads := listing.names;
      if |threads| > MAX_PROC_RECORDS {
        return None;
      }
      var live := ReadThreads(tgid, threads);
      if !live {
        forall tid | Number(tid) in threads ensures SeenDead(tid) {
          ThreadsWereDead(kernel, old(calls) + 1, threads, tid);
        }
      }
      return Some(live);
    }

    /** The loop over the listed threads. */
    method ReadThreads(tgid: Pid, threads: seq<Name>) returns (live: bool)
      requires Honest() && SealedNow() && ThreadsListed(world(calls), tgid, threads, group)
      modifies this
      ensures (live, calls) == ThreadsFrom(kernel, old(calls), threads) && Base() == old(Base())
      ensures SealedNow() && Shrinks(world(old(calls)), world(calls), group)
      ensures !live ==> Dead(tgid)
    {
      hide Truthful, Sealed, Spent;
      assert threads[0..] == threads;
      for i := 0 to |threads|
        invariant Base() == old(Base())
        invariant ThreadsFrom(kernel, old(calls), threads) == ThreadsFrom(kernel, calls, threads[i..])
        invariant SealedNow() && Shrinks(world(old(calls)), world(calls), group)
        invariant ThreadsListed(world(calls), tgid, threads[i..], group)
      {
        assert threads[i..] == [threads[i]] + threads[i+1..];
        if threads[i].Other? {
          continue;
        }
        var record := StatThread(threads[i].pid);
        if record.Absent? {
          continue;
        }
        if record.Unreadable? || !record.zombie {
          return true;
        }
      }
      return false;
    }

    /** `_thread_group_has_live_thread`: two consecutive all-dead snapshots. */
    method HasLiveThread(tgid: Pid) returns (r: Option<bool>)
      requires Honest() && SealedNow()
      modifies this
      ensures (r, calls) == TwoSnapshots(kernel, old(calls), tgid)
      ensures Base() == old(Base())
      ensures SealedNow() && Shrinks(world(old(calls)), world(calls), group)
      ensures r == Some(false) ==> Dead(tgid)
    {
      hide Sealed, Truthful, Snapshot, Spent;
      r := SnapshotHasLiveThread(tgid);
      if r == Some(false) {
        r := SnapshotHasLiveThread(tgid);
      }
    }

    /** `_live_process_group_members`; None is a raise. */
    method LiveMembers() returns (r: Option<seq<Pid>>)
      requires Honest() && SealedNow()
      modifies this
      ensures (r, calls) == Scan(kernel, group, old(calls))
      ensures Base() == old(Base())
      ensures SealedNow()
      ensures r == Some([]) ==> Empty()
    {
      hide Truthful, Sealed, Spent, MembersFrom;
      var alive := Probe();
      if alive == NoSuchGroup {
        return Some([]);
      }
      if alive == Refused {
        return None;
      }
      var listing := ListProc();
      if !listing.Entries? || |listing.names| > MAX_PROC_RECORDS {
        return None;
      }
      r := ReadEntries(listing.names);
    }

    /** The loop over the entries of `/proc`. */
    method ReadEntries(entries: seq<Name>) returns (r: Option<seq<Pid>>)
      requires Honest() && SealedNow() && GroupsListed(world(calls), entries, group)
      modifies this
      ensures (r, calls) == MembersFrom(kernel, group, old(calls), entries) && Base() == old(Base())
      ensures SealedNow()
      ensures r == Some([]) ==> Empty()
    {
      hide Truthful, Sealed, Spent, IsMember;
      var members: seq<Pid> := [];
      assert entries[0..] == entries;
      PrefixedTwice([], [], MembersFrom(kernel, group, calls, entries));
      for i := 0 to |entries|
        invariant Base() == old(Base())
        invariant MembersFrom(kernel, group, old(calls), entries)
               == Prefixed(members, MembersFrom(kernel, group, calls, entries[i..]))
        invariant SealedNow()
        invariant members == [] ==> GroupsListed(world(calls), entries[i..], group)
      {
        assert entries[i..] == [entries[i]] + entries[i+1..];
        if entries[i].Other? {
          continue;
        }
        var pid := entries[i].pid;
        ghost var done := members;
        var member := ReadEntry(pid);
        if member.None? {
          return None;
        }
        ghost var one := if member.value then [pid] else [];
        PrefixedTwice(done, one, MembersFrom(kernel, group, calls, entries[i+1..]));
        assert done + [] == done;
        if member.value {
          members := members + [pid];
        }
      }
      assert members + [] == members && entries[|entries|..] == [];
      return Some(members);
    }

    /** The body of that loop: whether a process counts as a member; None is a raise. */
    method ReadEntry(pid: Pid) returns (r: Option<bool>)
      requires Honest() && SealedNow()
      modifies this
      ensures (r, calls) == IsMember(kernel, group, old(calls), pid) && Base() == old(Base())
      ensures SealedNow() && Shrinks(world(old(calls)), world(calls), group)
      ensures r == Some(false) ==> Dead(pid)
    {
      hide Truthful, Sealed, Spent, TwoSnapshots;
      var record := StatProcess(pid);
      if record.Absent? {
        return Some(false);
      }
      if record.Unreadable? {
        return Some(true);
      }
      if record.group != group {
        return Some(false);
      }
      if !record.zombie {
        return Some(true);
      }
      r := HasLiveThread(pid);
    }

    /** `_quiesce_process_group`.  If it returns without raising, no task of the group is running, over
        every interleaving of the reads with exits, reaps, forks and group changes.  And it does return
        without raising exactly when the answers let it: in particular when the group is gone at the
        first look, or when some scan before the deadline is told that everything in it is dead. */
    method Quiesce() returns (raised: bool)
      requires Honest()
      modifies this
      ensures !raised ==> Empty()
      ensures !raised ==> kernel.kill(old(calls)) != Refused && kernel.reaped(old(calls) + 1)
      ensures !raised <==> Settles(kernel, group, old(calls), old(now))
      ensures kernel.kill(old(calls)) != Refused && kernel.reaped(old(calls) + 1) ==>
                && (kernel.probe(old(calls) + 2) == NoSuchGroup ==> !raised)
                && ((exists m :: m in ScansOf(kernel, group, old(calls), old(now)) && QuietScan(kernel, group, m))
                    ==> !raised)
    {
      hide Truthful, Sealed, LiveMember, NoLiveMember, Spent, Scan, QuietScan, ScansOf, Rounds;
      ghost var first, start := calls, now;
      WhenQuiet(kernel, group, first, start);
      var killed := SendKill();
      var reaped := kernel.reaped(calls);
      Call();
      if !reaped {
        return true;
      }
      if killed == Refused {
        return true;
      }
      raised := AwaitQuiet(now + QUIESCE_MS);
    }

    /** The loop up to the deadline. */
    method AwaitQuiet(deadline: int) returns (raised: bool)
      requires Honest() && SealedNow()
      modifies this
      ensures !raised ==> Empty()
      ensures raised <==> !Rounds(kernel, group, old(calls), old(now), deadline)
    {
      hide Truthful, Sealed, LiveMember, NoLiveMember, Spent, Scan, Rounds;
      while true
        invariant SealedNow()
        invariant Rounds(kernel, group, old(calls), old(now), deadline) == Rounds(kernel, group, calls, now, deadline)
        decreases deadline - now
      {
        OneRound(kernel, group, calls, now, deadline);
        TimePasses(kernel, group, calls, now);
        var members := LiveMembers();
        if members.None? {
          return true;
        }
        if members.value == [] {
          return false;
        }
        Call();
        if now >= deadline {
          return true;
        }
        var again := SendKill();
        if again == NoSuchGroup {
          return false;
        }
        if again == Refused {
          return true;
        }
        now := now + POLL_MS;
        Call();
      }
    }
  }

  // ----- Why the kill must come first

  ghost predicate AllDead(names: seq<Name>, w: World) {
    forall n :: n in names && n.Number? ==> n.pid !in w.tasks || !w.tasks[n.pid].live
  }

  /** Truthful listings of the thread group `tgid` at `a` and `b`, every listed thread dead by `b` and by
      `c`, and a thread of the thread group still running in `g` at `c`. */
  ghost predicate Misled(a: World, b: World, c: World, tgid: Pid, first: seq<Name>, second: seq<Name>, g: Pid) {
    && Reaches(a, b, g) && TaskListingTrue(Entries(first), tgid, a, a, g) && AllDead(first, b)
    && Reaches(b, c, g) && TaskListingTrue(Entries(second), tgid, b, b, g) && AllDead(second, c)
    && !NoMemberIn(c, tgid, g)
  }

  /** Two all-dead snapshots can mislead about a group exactly when it is not sealed: when some running
      thread of it has no SIGKILL pending. */
  lemma SnapshotsMisleadExactly(a: World, g: Pid)
    ensures (exists b, c, tgid, first, second :: Misled(a, b, c, tgid, first, second, g)) <==> !Sealed(a, g)
  {
    hide Sealed, Misled;
    if Sealed(a, g) {
      forall b, c, tgid, first, second ensures !Misled(a, b, c, tgid, first, second, g) {
        SealedNotMisled(a, b, c, tgid, first, second, g);
      }
    } else {
      var t := Unmarked(a, g);
      SnapshotsMiss(a, t, g);
    }
  }

  lemma Unmarked(w: World, g: Pid) returns (t: Pid)
    requires !Sealed(w, g)
    ensures LiveMember(w, t, g) && !w.tasks[t].doomed
  {
    t :| LiveMember(w, t, g) && !w.tasks[t].doomed;
  }

  lemma SealedNotMisled(a: World, b: World, c: World, tgid: Pid, first: seq<Name>, second: seq<Name>, g: Pid)
    requires Sealed(a, g)
    ensures !Misled(a, b, c, tgid, first, second, g)
  {
    hide Sealed, Reaches, TaskListingTrue, AllDead, NoMemberIn;
    if Reaches(a, b, g) {
      SealedReaches(a, b, g);
      if Reaches(b, c, g) && TaskListingTrue(Entries(second), tgid, b, b, g) && AllDead(second, c) {
        SnapshotProves(b, c, tgid, second, g);
      }
    }
  }

  /** After the kill one all-dead snapshot is proof. */
  lemma SnapshotProves(a: World, b: World, tgid: Pid, names: seq<Name>, g: Pid)
    requires Sealed(a, g) && Reaches(a, b, g)
    requires TaskListingTrue(Entries(names), tgid, a, a, g) && AllDead(names, b)
    ensures NoMemberIn(b, tgid, g)
  {
    TaskListingProves(Entries(names), tgid, a, a, g);
    SealedReaches(a, b, g);
    hide TaskListingTrue, Reaches, Sealed;
    forall t | LiveMember(b, t, g) ensures b.tasks[t].tgid != tgid {
      assert Number(t) !in names;
    }
  }

  /** A running thread with no SIGKILL pending gets its thread group past two snapshots: after each
      listing it clones a successor, and all the listed threads exit. */
  lemma SnapshotsMiss(a: World, t: Pid, g: Pid)
    requires LiveMember(a, t, g) && !a.tasks[t].doomed
    ensures exists b, c, first, second :: Misled(a, b, c, a.tasks[t].tgid, first, second, g)
  {
    var tgid := a.tasks[t].tgid;
    hide Reaches, TaskListingTrue, AllDead;
    var first, b, u := SnapshotMisses(a, t, g);
    var second, c, v := SnapshotMisses(b, u, g);
    assert Misled(a, b, c, tgid, first, second, g);
  }

  lemma SnapshotMisses(a: World, t: Pid, g: Pid) returns (names: seq<Name>, b: World, successor: Pid)
    requires LiveMember(a, t, g) && !a.tasks[t].doomed
    ensures var tgid := a.tasks[t].tgid;
            && Reaches(a, b, g) && TaskListingTrue(Entries(names), tgid, a, a, g) && AllDead(names, b)
            && LiveMember(b, successor, g) && b.tasks[successor].tgid == tgid && !b.tasks[successor].doomed
  {
    var tgid := a.tasks[t].tgid;
    successor := UnusedPid(a.tasks.Keys);
    var cloned := Effect(a, Clone(t, successor), g);
    assert Step(a, cloned, g);
    var threads := set u | u in a.tasks && a.tasks[u].live && a.tasks[u].tgid == tgid;
    names, b := ExitAll(cloned, threads, g);
    StepThenReaches(a, cloned, b, g);
    hide Reaches, Step;
    forall u | LiveIn(a, u, tgid) ensures Number(u) in names {
      assert u in threads;
    }
    ListsAll(names, a, tgid, g);
    assert b.tasks[successor] == Task(tgid, true, false);
  }

  lemma {:induction false} UnusedPid(used: set<Pid>) returns (pid: Pid)
    ensures forall u :: u in used ==> u < pid
    decreases |used|
  {
    if used == {} {
      pid := 0;
    } else {
      var u :| u in used;
      var above := UnusedPid(used - {u});
      pid := if above <= u then u + 1 else above;
      assert forall v :: v in used ==> v == u || v in used - {u};
    }
  }

  /** A listing of some running tasks, and the world once they have all exited. */
  lemma {:induction false} ExitAll(a: World, threads: set<Pid>, g: Pid) returns (names: seq<Name>, b: World)
    requires forall t :: t in threads ==> t in a.tasks && a.tasks[t].live
    ensures Reaches(a, b, g) && b.groups == a.groups
    ensures forall n :: n in names <==> n.Number? && n.pid in threads
    ensures forall t :: t in threads ==> t in b.tasks && !b.tasks[t].live
    ensures forall t :: t in a.tasks && t !in threads ==> t in b.tasks && b.tasks[t] == a.tasks[t]
    decreases |threads|
  {
    if threads == {} {
      names, b := [], a;
      assert RunBetween([a], a, a, g);
    } else {
      var t :| t in threads;
      var next := Effect(a, Exit(t), g);
      assert Step(a, next, g);
      var rest;
      rest, b := ExitAll(next, threads - {t}, g);
      names := [Number(t)] + rest;
      StepThenReaches(a, next, b, g);
    }
  }

  lemma StepThenReaches(a: World, b: World, c: World, g: Pid)
    requires Step(a, b, g) && Reaches(b, c, g)
    ensures Reaches(a, c, g)
  {
    var run :| RunBetween(run, b, c, g);
    hide Step;
    var whole := [a] + run;
    assert forall i :: 0 < i < |whole| ==> whole[i] == run[i-1];
    assert RunBetween(whole, a, c, g);
  }

  lemma ListsAll(names: seq<Name>, w: World, tgid: Pid, g: Pid)
    requires forall t :: LiveIn(w, t, tgid) ==> Number(t) in names
    ensures TaskListingTrue(Entries(names), tgid, w, w, g)
  {
    assert RunBetween([w], w, w, g);
    forall t | LiveThroughout([w], t, tgid) ensures Number(t) in names {
      assert LiveIn([w][0], t, tgid);
    }
  }
}

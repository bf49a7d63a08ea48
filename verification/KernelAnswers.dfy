/** The answers the operating system gives to the calls of the quiescence protocol, and what the protocol
    makes of them, call by call.  Nothing here depends on whether the answers are true. */
module KernelAnswers {
  import opened Wrappers
  import opened ProcessGroup

  const MAX_PROC_RECORDS := 65_536
  const QUIESCE_MS := 5000
  const POLL_MS := 10

  /** Outcome of `os.killpg`: ESRCH, success (every running member was signalled), or any other error. */
  datatype Signal = NoSuchGroup | Sent | Refused

  /** `_proc_stat_record`: gone (ENOENT or ESRCH only), unreadable, or a state and process group. */
  datatype Record = Absent | Unreadable | Record(zombie: bool, group: Pid)

  /** A directory listing; entries that are not numbers are Other. */
  datatype Listing = Missing | Unlistable | Entries(names: seq<Name>)

  datatype Name = Other | Number(pid: Pid)

  /** The answer each call would get if it were call number n. */
  datatype Kernel = Kernel(
    kill: nat -> Signal,                 // killpg(group, SIGKILL)
    probe: nat -> Signal,                // killpg(group, 0)
    listProc: nat -> Listing,            // listdir("/proc")
    statProcess: (nat, Pid) -> Record,   // /proc/<pid>/stat
    listTasks: (nat, Pid) -> Listing,    // listdir("/proc/<pid>/task")
    statThread: (nat, Pid) -> Record,    // /proc/<pid>/task/<tid>/stat
    reaped: nat -> bool,                 // Popen.wait succeeds
    elapsed: nat -> nat)                 // milliseconds the call takes

  // ----- One scan

  /** A thread that is gone or a zombie. */
  predicate DeadThread(r: Record) { r.Absent? || (r.Record? && r.zombie) }

  /** Reading the listed threads from call `n` on: whether one seems to run, and the next call. */
  function ThreadsFrom(k: Kernel, n: nat, names: seq<Name>): (bool, nat)
    decreases |names|
  {
    if names == [] then (false, n)
    else if names[0].Other? then ThreadsFrom(k, n, names[1..])
    else if DeadThread(k.statThread(n, names[0].pid)) then ThreadsFrom(k, n + 1, names[1..])
    else (true, n + 1)
  }

  /** `_thread_group_snapshot_has_live_thread`, its first call being number `n`; None is a raise. */
  function Snapshot(k: Kernel, n: nat, tgid: Pid): (Option<bool>, nat) {
    match k.listTasks(n, tgid)
    case Missing => (Some(false), n + 1)
    case Unlistable => (Some(true), n + 1)
    case Entries(names) =>
      if |names| > MAX_PROC_RECORDS then (None, n + 1)
      else
        var (live, next) := ThreadsFrom(k, n + 1, names);
        (Some(live), next)
  }

  /** `_thread_group_has_live_thread`. */
  function TwoSnapshots(k: Kernel, n: nat, tgid: Pid): (Option<bool>, nat) {
    var (live, next) := Snapshot(k, n, tgid);
    if live == Some(false) then Snapshot(k, next, tgid) else (live, next)
  }

  /** Whether an entry of `/proc` counts as a member, and the next call; None is a raise. */
  function IsMember(k: Kernel, g: Pid, n: nat, pid: Pid): (Option<bool>, nat) {
    match k.statProcess(n, pid)
    case Absent => (Some(false), n + 1)
    case Unreadable => (Some(true), n + 1)
    case Record(zombie, group) =>
      if group != g then (Some(false), n + 1)
      else if !zombie then (Some(true), n + 1)
      else TwoSnapshots(k, n + 1, pid)
  }

  function MembersFrom(k: Kernel, g: Pid, n: nat, names: seq<Name>): (Option<seq<Pid>>, nat)
    decreases |names|
  {
    if names == [] then (Some([]), n)
    else if names[0].Other? then MembersFrom(k, g, n, names[1..])
    else
      var (member, next) := IsMember(k, g, n, names[0].pid);
      if member.None? then (None, next)
      else Prefixed(if member.value then [names[0].pid] else [], MembersFrom(k, g, next, names[1..]))
  }

  function Prefixed(members: seq<Pid>, rest: (Option<seq<Pid>>, nat)): (Option<seq<Pid>>, nat) {
    if rest.0.None? then rest else (Some(members + rest.0.value), rest.1)
  }

  lemma PrefixedTwice(a: seq<Pid>, b: seq<Pid>, rest: (Option<seq<Pid>>, nat))
    ensures Prefixed(a, Prefixed(b, rest)) == Prefixed(a + b, rest)
    ensures Prefixed([], rest) == rest
  {
    if rest.0.Some? {
      assert a + (b + rest.0.value) == (a + b) + rest.0.value && [] + rest.0.value == rest.0.value;
    }
  }

  /** `_live_process_group_members`; None is a raise. */
  function Scan(k: Kernel, g: Pid, n: nat): (Option<seq<Pid>>, nat) {
    match k.probe(n)
    case NoSuchGroup => (Some([]), n + 1)
    case Refused => (None, n + 1)
    case Sent =>
      match k.listProc(n + 1)
      case Entries(names) =>
        if |names| > MAX_PROC_RECORDS then (None, n + 2) else MembersFrom(k, g, n + 2, names)
      case _ => (None, n + 2)
  }

  // ----- The whole protocol

  /** Milliseconds that the first `n` calls take. */
  function Spent(k: Kernel, n: nat): nat {
    if n == 0 then 0 else Spent(k, n - 1) + k.elapsed(n - 1)
  }

  /** The time when the deadline is looked at, after a scan from call `n` that found members. */
  function Checked(k: Kernel, g: Pid, n: nat, now: int): int {
    var next := Scan(k, g, n).1;
    now + Spent(k, next + 1) - Spent(k, n)
  }

  /** The time when the next scan starts, after the kill and the sleep. */
  function Resumed(k: Kernel, g: Pid, n: nat, now: int): int {
    var next := Scan(k, g, n).1;
    now + Spent(k, next + 3) - Spent(k, n) + POLL_MS
  }

  /** A scan finds members, in time, and the group is signalled again. */
  predicate GoesOn(k: Kernel, g: Pid, n: nat, now: int, deadline: int) {
    var (members, next) := Scan(k, g, n);
    && members.Some? && members.value != []
    && Checked(k, g, n, now) < deadline && k.kill(next + 1) == Sent
  }

  /** Whether the loop of `_quiesce_process_group` returns normally. */
  function Rounds(k: Kernel, g: Pid, n: nat, now: int, deadline: int): bool
    decreases deadline - now
  {
    TimePasses(k, g, n, now);
    var (members, next) := Scan(k, g, n);
    if members.None? then false
    else if members.value == [] then true
    else if Checked(k, g, n, now) >= deadline then false
    else
      match k.kill(next + 1)
      case NoSuchGroup => true
      case Refused => false
      case Sent => Rounds(k, g, next + 3, Resumed(k, g, n, now), deadline)
  }

  /** `_quiesce_process_group` from call `n` at time `now`: it returns normally. */
  function Settles(k: Kernel, g: Pid, n: nat, now: int): bool {
    var started := now + Spent(k, n + 2) - Spent(k, n);
    k.kill(n) != Refused && k.reaped(n + 1) && Rounds(k, g, n + 2, started, started + QUIESCE_MS)
  }

  /** The first calls of the scans it makes. */
  function Starts(k: Kernel, g: Pid, n: nat, now: int, deadline: int): seq<nat>
    decreases deadline - now
  {
    TimePasses(k, g, n, now);
    [n] + if GoesOn(k, g, n, now, deadline)
          then Starts(k, g, Scan(k, g, n).1 + 3, Resumed(k, g, n, now), deadline) else []
  }

  function ScansOf(k: Kernel, g: Pid, n: nat, now: int): seq<nat> {
    var started := now + Spent(k, n + 2) - Spent(k, n);
    Starts(k, g, n + 2, started, started + QUIESCE_MS)
  }

  lemma {:induction false} SpentGrows(k: Kernel, n: nat, m: nat)
    requires n <= m
    ensures Spent(k, n) <= Spent(k, m)
  {
    if n < m {
      SpentGrows(k, n, m - 1);
    }
  }

  lemma TimePasses(k: Kernel, g: Pid, n: nat, now: int)
    ensures Checked(k, g, n, now) >= now && Resumed(k, g, n, now) > now
  {
    ScanCalls(k, g, n);
    SpentGrows(k, n, Scan(k, g, n).1 + 1);
    SpentGrows(k, n, Scan(k, g, n).1 + 3);
  }

  lemma ScanCalls(k: Kernel, g: Pid, n: nat)
    ensures Scan(k, g, n).1 > n
  {
    var l := k.listProc(n + 1);
    if k.probe(n) == Sent && l.Entries? {
      MemberCalls(k, g, n + 2, l.names);
    }
  }

  lemma {:induction false} MemberCalls(k: Kernel, g: Pid, n: nat, names: seq<Name>)
    ensures MembersFrom(k, g, n, names).1 >= n
    decreases |names|
  {
    hide TwoSnapshots;
    if names != [] {
      if names[0].Other? {
        MemberCalls(k, g, n, names[1..]);
      } else {
        TwoSnapshotsCalls(k, n + 1, names[0].pid);
        MemberCalls(k, g, IsMember(k, g, n, names[0].pid).1, names[1..]);
      }
    }
  }

  lemma TwoSnapshotsCalls(k: Kernel, n: nat, tgid: Pid)
    ensures TwoSnapshots(k, n, tgid).1 > n
  {
    hide Snapshot;
    SnapshotCalls(k, n, tgid);
    SnapshotCalls(k, Snapshot(k, n, tgid).1, tgid);
  }

  /** What a pass over the threads says was said of each. */
  lemma {:induction false} ThreadsWereDead(k: Kernel, n: nat, names: seq<Name>, tid: Pid)
    requires !ThreadsFrom(k, n, names).0 && Number(tid) in names
    ensures exists m :: DeadThread(k.statThread(m, tid))
    decreases |names|
  {
    assert names == [names[0]] + names[1..];
    if names[0] == Number(tid) {
      assert DeadThread(k.statThread(n, tid));
    } else {
      ThreadsWereDead(k, if names[0].Other? then n else n + 1, names[1..], tid);
    }
  }

  lemma {:induction false} ThreadCalls(k: Kernel, n: nat, names: seq<Name>)
    ensures ThreadsFrom(k, n, names).1 >= n
    decreases |names|
  {
    if names != [] {
      if names[0].Other? {
        ThreadCalls(k, n, names[1..]);
      } else {
        ThreadCalls(k, n + 1, names[1..]);
      }
    }
  }

  lemma SnapshotCalls(k: Kernel, n: nat, tgid: Pid)
    ensures Snapshot(k, n, tgid).1 > n
  {
    var l := k.listTasks(n, tgid);
    if l.Entries? {
      ThreadCalls(k, n + 1, l.names);
    }
  }

  // ----- When the group is seen to be dead

  /** From call `n` on the kernel says that no thread of `tgid` runs. */
  ghost predicate NoThreadSeen(k: Kernel, n: nat, tgid: Pid) {
    forall m :: m >= n ==> TasksLookDead(k, n, k.listTasks(m, tgid))
  }

  ghost predicate TasksLookDead(k: Kernel, n: nat, l: Listing) {
    || l.Missing?
    || (l.Entries? && |l.names| <= MAX_PROC_RECORDS
        && forall tid, m :: Number(tid) in l.names && m >= n ==> DeadThread(k.statThread(m, tid)))
  }

  /** From call `n` on the kernel says that the process is gone, in another group, or a zombie with no
      thread that runs. */
  ghost predicate LooksDead(k: Kernel, g: Pid, n: nat, pid: Pid) {
    forall m :: m >= n ==>
      var r := k.statProcess(m, pid);
      r.Absent? || (r.Record? && (r.group != g || (r.zombie && NoThreadSeen(k, n, pid))))
  }

  /** What the kernel answers to a scan from call `n` on says that the group is dead. */
  ghost predicate QuietScan(k: Kernel, g: Pid, n: nat) {
    || k.probe(n) == NoSuchGroup
    || (k.probe(n) == Sent && k.listProc(n + 1).Entries? && |k.listProc(n + 1).names| <= MAX_PROC_RECORDS
        && forall pid :: Number(pid) in k.listProc(n + 1).names ==> LooksDead(k, g, n + 2, pid))
  }

  lemma {:induction false} ThreadsSeenDead(k: Kernel, n: nat, m: nat, names: seq<Name>)
    requires m >= n && forall tid, q :: Number(tid) in names && q >= n ==> DeadThread(k.statThread(q, tid))
    ensures !ThreadsFrom(k, m, names).0 && ThreadsFrom(k, m, names).1 >= m
    decreases |names|
  {
    if names != [] {
      assert forall tid :: Number(tid) in names[1..] ==> Number(tid) in names;
      if names[0].Other? {
        ThreadsSeenDead(k, n, m, names[1..]);
      } else {
        assert names[0] == Number(names[0].pid) && names[0] in names;
        ThreadsSeenDead(k, n, m + 1, names[1..]);
      }
    }
  }

  lemma SnapshotSeesDead(k: Kernel, n: nat, m: nat, tgid: Pid)
    requires m >= n && NoThreadSeen(k, n, tgid)
    ensures Snapshot(k, m, tgid).0 == Some(false) && Snapshot(k, m, tgid).1 > m
  {
    var l := k.listTasks(m, tgid);
    assert TasksLookDead(k, n, l);
    if l.Entries? {
      ThreadsSeenDead(k, n, m + 1, l.names);
    }
  }

  lemma {:induction false} EntriesSeenDead(k: Kernel, g: Pid, n: nat, m: nat, names: seq<Name>)
    requires m >= n && forall pid :: Number(pid) in names ==> LooksDead(k, g, n, pid)
    ensures MembersFrom(k, g, m, names).0 == Some([])
    decreases |names|
  {
    if names != [] {
      assert forall pid :: Number(pid) in names[1..] ==> Number(pid) in names;
      if names[0].Other? {
        EntriesSeenDead(k, g, n, m, names[1..]);
      } else {
        var pid := names[0].pid;
        assert names[0] == Number(pid) && names[0] in names;
        EntrySeenDead(k, g, n, m, pid);
        EntriesSeenDead(k, g, n, IsMember(k, g, m, pid).1, names[1..]);
        PrefixedTwice([], [], MembersFrom(k, g, IsMember(k, g, m, pid).1, names[1..]));
      }
    }
  }

  lemma EntrySeenDead(k: Kernel, g: Pid, n: nat, m: nat, pid: Pid)
    requires m >= n && LooksDead(k, g, n, pid)
    ensures IsMember(k, g, m, pid).0 == Some(false) && IsMember(k, g, m, pid).1 > m
  {
    var r := k.statProcess(m, pid);
    if r.Record? && r.group == g {
      hide Snapshot;
      SnapshotSeesDead(k, n, m + 1, pid);
      SnapshotSeesDead(k, n, Snapshot(k, m + 1, pid).1, pid);
    }
  }

  /** A scan whose answers say dead finds no member. */
  lemma QuietScanIsEmpty(k: Kernel, g: Pid, n: nat)
    requires QuietScan(k, g, n)
    ensures Scan(k, g, n).0 == Some([])
  {
    if k.probe(n) != NoSuchGroup {
      EntriesSeenDead(k, g, n + 2, n + 2, k.listProc(n + 1).names);
    }
  }

  /** One turn of the loop. */
  lemma OneRound(k: Kernel, g: Pid, n: nat, now: int, deadline: int)
    ensures var (members, next) := Scan(k, g, n);
            Rounds(k, g, n, now, deadline)
            == (members.Some?
                && (members.value == []
                    || (now + Spent(k, next + 1) - Spent(k, n) < deadline
                        && (k.kill(next + 1) == NoSuchGroup
                            || (k.kill(next + 1) == Sent
                                && Rounds(k, g, next + 3, now + Spent(k, next + 3) - Spent(k, n) + POLL_MS,
                                          deadline))))))
  {
    hide Scan, Spent;
    assert Resumed(k, g, n, now) == now + Spent(k, Scan(k, g, n).1 + 3) - Spent(k, n) + POLL_MS;
    assert Checked(k, g, n, now) == now + Spent(k, Scan(k, g, n).1 + 1) - Spent(k, n);
    hide Checked, Resumed;
  }

  /** A thread group is taken for dead only after two snapshots in a row that say so. */
  lemma DeadTwice(k: Kernel, n: nat, tgid: Pid)
    ensures TwoSnapshots(k, n, tgid).0 == Some(false)
       <==> Snapshot(k, n, tgid).0 == Some(false) && Snapshot(k, Snapshot(k, n, tgid).1, tgid).0 == Some(false)
  {
  }

  /** Some listing of a task directory is too long. */
  ghost predicate Oversized(k: Kernel) {
    exists n, tgid :: k.listTasks(n, tgid).Entries? && |k.listTasks(n, tgid).names| > MAX_PROC_RECORDS
  }

  /** A scan raises if the group cannot be looked at or `/proc` not listed in full, and otherwise only for a
      task directory that is too long. */
  lemma ScanRaises(k: Kernel, g: Pid, n: nat)
    ensures var l := k.listProc(n + 1);
            var blind := k.probe(n) == Refused
                         || (k.probe(n) == Sent && (!l.Entries? || |l.names| > MAX_PROC_RECORDS));
            (blind ==> Scan(k, g, n).0 == None) && (Scan(k, g, n).0 == None && !blind ==> Oversized(k))
  {
    var l := k.listProc(n + 1);
    if k.probe(n) == Sent && l.Entries? && MembersFrom(k, g, n + 2, l.names).0 == None {
      MembersRaise(k, g, n + 2, l.names);
    }
  }

  lemma {:induction false} MembersRaise(k: Kernel, g: Pid, n: nat, names: seq<Name>)
    requires MembersFrom(k, g, n, names).0 == None
    ensures Oversized(k)
    decreases |names|
  {
    if names[0].Other? {
      MembersRaise(k, g, n, names[1..]);
    } else {
      var (member, next) := IsMember(k, g, n, names[0].pid);
      if member.Some? {
        MembersRaise(k, g, next, names[1..]);
      }
    }
  }

  /** From call `n` on the kernel says that the process cannot be read, or is in the group and no zombie. */
  ghost predicate LooksLive(k: Kernel, g: Pid, n: nat, pid: Pid) {
    forall m :: m >= n ==>
      var r := k.statProcess(m, pid); r.Unreadable? || (r.Record? && r.group == g && !r.zombie)
  }

  /** The members are among the entries listed, and every entry that looks live is a member. */
  lemma {:induction false} MembersAre(k: Kernel, g: Pid, n: nat, m: nat, names: seq<Name>, pid: Pid)
    requires m >= n && MembersFrom(k, g, m, names).0.Some?
    ensures var members := MembersFrom(k, g, m, names).0.value;
            && (pid in members ==> Number(pid) in names)
            && (Number(pid) in names && LooksLive(k, g, n, pid) ==> pid in members)
    decreases |names|
  {
    if names != [] {
      assert names == [names[0]] + names[1..];
      if names[0].Other? {
        MembersAre(k, g, n, m, names[1..], pid);
      } else {
        hide TwoSnapshots;
        TwoSnapshotsCalls(k, m + 1, names[0].pid);
        MembersAre(k, g, n, IsMember(k, g, m, names[0].pid).1, names[1..], pid);
      }
    }
  }

  /** If any of the scans finds no member, the loop returns normally. */
  lemma {:induction false} EmptyScanEnds(k: Kernel, g: Pid, n: nat, now: int, deadline: int, m: nat)
    requires m in Starts(k, g, n, now, deadline) && Scan(k, g, m).0 == Some([])
    ensures Rounds(k, g, n, now, deadline)
    decreases deadline - now
  {
    TimePasses(k, g, n, now);
    if m != n {
      EmptyScanEnds(k, g, Scan(k, g, n).1 + 3, Resumed(k, g, n, now), deadline, m);
    }
  }

  /** A scan finds no member, or the group is gone when it is signalled again. */
  predicate Ends(k: Kernel, g: Pid, n: nat) {
    var (members, next) := Scan(k, g, n);
    members == Some([]) || k.kill(next + 1) == NoSuchGroup
  }

  /** It returns normally only after such a scan. */
  lemma {:induction false} OnlyThenEnds(k: Kernel, g: Pid, n: nat, now: int, deadline: int) returns (m: nat)
    requires Rounds(k, g, n, now, deadline)
    ensures m in Starts(k, g, n, now, deadline) && Ends(k, g, m)
    decreases deadline - now
  {
    hide Scan, Checked;
    TimePasses(k, g, n, now);
    if GoesOn(k, g, n, now, deadline) {
      m := OnlyThenEnds(k, g, Scan(k, g, n).1 + 3, Resumed(k, g, n, now), deadline);
    } else {
      m := n;
    }
  }

  /** The ordinary end: signalled, reaped, and no such group any more. */
  lemma GroupGoneSettles(k: Kernel, g: Pid, n: nat, now: int)
    requires k.kill(n) != Refused && k.reaped(n + 1) && k.probe(n + 2) == NoSuchGroup
    ensures Settles(k, g, n, now)
  {
  }

  /** Signalled, reaped, and some scan before the deadline gets answers that say dead. */
  lemma QuietSettles(k: Kernel, g: Pid, n: nat, now: int, m: nat)
    requires k.kill(n) != Refused && k.reaped(n + 1) && m in ScansOf(k, g, n, now) && QuietScan(k, g, m)
    ensures Settles(k, g, n, now)
  {
    QuietScanIsEmpty(k, g, m);
    var started := now + Spent(k, n + 2) - Spent(k, n);
    EmptyScanEnds(k, g, n + 2, started, started + QUIESCE_MS, m);
  }

  lemma WhenQuiet(k: Kernel, g: Pid, n: nat, now: int)
    ensures k.kill(n) != Refused && k.reaped(n + 1) ==>
              && (k.probe(n + 2) == NoSuchGroup ==> Settles(k, g, n, now))
              && ((exists m :: m in ScansOf(k, g, n, now) && QuietScan(k, g, m)) ==> Settles(k, g, n, now))
  {
    if k.kill(n) != Refused && k.reaped(n + 1) {
      if k.probe(n + 2) == NoSuchGroup {
        GroupGoneSettles(k, g, n, now);
      }
      if m :| m in ScansOf(k, g, n, now) && QuietScan(k, g, m) {
        QuietSettles(k, g, n, now, m);
      }
    }
  }
}

/**
  The tty activity source: which processes count as a user's work, and for how long.
  A scan sees a frozen process table.
 */
module TtySource {
  import opened Wrappers
  import opened Durations
  import opened Text
  import opened WatcherConfig

  /** What /proc says during a scan: parents of the readable processes, and which processes have a terminal. */
  datatype Table = Table(parents: map<string, string>, ttys: set<string>) {
    // getParentPID
    function Parent(p: string): string {
      if p in parents then parents[p] else ""
    }

    // processHasTTY
    predicate HasTty(p: string) {
      p in ttys
    }
  }

  predicate IsTop(p: string) {
    p == "" || p == "0" || p == "1"
  }

  const MAX_DEPTH := 64

  // ----- the main user process

  /** The plain walk: up to `n` steps upwards to the first process without a terminal, giving up at the top. */
  function Walk(t: Table, p: string, n: nat): Option<string>
    decreases n
  {
    if n == 0 then None
    else
      var parent := t.Parent(p);
      if IsTop(parent) then None
      else if !t.HasTty(parent) then Some(parent)
      else Walk(t, parent, n - 1)
  }

  function Ancestor(t: Table, p: string, k: nat): string {
    if k == 0 then p else t.Parent(Ancestor(t, p, k - 1))
  }

  /** The k-th ancestor is the nearest without a terminal, and no ancestor up to it is a top process. */
  predicate NearestAt(t: Table, p: string, k: nat) {
    && k > 0 && !t.HasTty(Ancestor(t, p, k))
    && (forall j :: 0 < j <= k ==> Ancestor(t, p, j) != "" && Ancestor(t, p, j) != "0" && Ancestor(t, p, j) != "1")
    && (forall j :: 0 < j < k ==> t.HasTty(Ancestor(t, p, j)))
  }

  lemma {:induction false} AncestorOfParent(t: Table, p: string, k: nat)
    ensures Ancestor(t, p, k + 1) == Ancestor(t, t.Parent(p), k)
  {
    if k > 0 {
      AncestorOfParent(t, p, k - 1);
    }
  }

  lemma NearestOfParent(t: Table, p: string, k: nat)
    requires k > 0 && !IsTop(t.Parent(p)) && t.HasTty(t.Parent(p))
    ensures NearestAt(t, p, k + 1) <==> NearestAt(t, t.Parent(p), k)
  {
    var q := t.Parent(p);
    forall j: nat ensures Ancestor(t, p, j + 1) == Ancestor(t, q, j) {
      AncestorOfParent(t, p, j);
    }
    if NearestAt(t, p, k + 1) {
      assert forall j :: 0 < j <= k ==> Ancestor(t, q, j) == Ancestor(t, p, j + 1);
    }
    if NearestAt(t, q, k) {
      assert Ancestor(t, p, 1) == q;
      assert forall j :: 1 < j <= k + 1 ==> Ancestor(t, p, j) == Ancestor(t, q, j - 1);
    }
  }

  /** The walk finds exactly the nearest ancestor without a terminal within its steps. */
  lemma {:induction false} WalkIsNearest(t: Table, p: string, n: nat, a: string)
    ensures Walk(t, p, n) == Some(a) <==> exists k :: 0 < k <= n && NearestAt(t, p, k) && Ancestor(t, p, k) == a
    decreases n
  {
    if n > 0 {
      var q := t.Parent(p);
      AncestorOfParent(t, p, 0);
      if !IsTop(q) && !t.HasTty(q) {
        assert NearestAt(t, p, 1);
        assert !t.HasTty(Ancestor(t, p, 1));
      } else if !IsTop(q) {
        WalkIsNearest(t, q, n - 1, a);
        if Walk(t, p, n) == Some(a) {
          var k :| 0 < k <= n - 1 && NearestAt(t, q, k) && Ancestor(t, q, k) == a;
          NearestOfParent(t, p, k);
          AncestorOfParent(t, p, k);
        }
        forall k | 0 < k <= n && NearestAt(t, p, k) && Ancestor(t, p, k) == a ensures Walk(t, p, n) == Some(a) {
          assert k != 1;
          NearestOfParent(t, p, k - 1);
          AncestorOfParent(t, p, k - 1);
        }
      } else {
        assert IsTop(Ancestor(t, p, 1));
      }
    }
  }

  // Processes with a terminal whose parents are such processes too: the walk never leaves them.
  predicate Trap(t: Table, ps: set<string>) {
    forall p :: p in ps ==> t.HasTty(p) && !IsTop(p) && t.Parent(p) in ps
  }

  lemma {:induction false} WalkInTrap(t: Table, ps: set<string>, p: string, n: nat)
    requires Trap(t, ps) && p in ps
    ensures Walk(t, p, n) == None
    decreases n
  {
    if n > 0 {
      WalkInTrap(t, ps, t.Parent(p), n - 1);
    }
  }

  // A process that is its own parent ends the search at once.
  function MainUserProcess(t: Table, pid: string): Option<string> {
    if t.Parent(pid) == pid then None else Walk(t, pid, MAX_DEPTH)
  }

  /**
    The checks for cycles and for self-parents do not change the answer of the
    plain walk, except for a process without a terminal that is its own parent.
   */
  lemma ChecksChangeNothingIff(t: Table, pid: string)
    ensures MainUserProcess(t, pid) == Walk(t, pid, MAX_DEPTH) <==>
            !(t.Parent(pid) == pid && !t.HasTty(pid) && !IsTop(pid))
  {
    if t.Parent(pid) == pid && t.HasTty(pid) && !IsTop(pid) {
      WalkInTrap(t, {pid}, pid, MAX_DEPTH);
    }
  }

  // A way upwards: each process is followed by its parent, and all but the first have a terminal.
  predicate Trail(t: Table, trail: seq<string>) {
    && trail != []
    && (forall j :: 0 <= j < |trail| - 1 ==> t.Parent(trail[j]) == trail[j + 1])
    && (forall j :: 0 < j < |trail| ==> t.HasTty(trail[j]) && !IsTop(trail[j]))
  }

  // A way that comes back to where it has been goes round for ever.
  lemma ClosedTrail(t: Table, trail: seq<string>, i: nat, n: nat)
    requires Trail(t, trail) && i < |trail| - 1 && trail[i] == trail[|trail| - 1]
    ensures Walk(t, trail[i], n) == None
  {
    var ps := set j | i < j < |trail| :: trail[j];
    forall p | p in ps ensures t.HasTty(p) && !IsTop(p) && t.Parent(p) in ps {
      var j :| i < j < |trail| && trail[j] == p;
      var next := if j == |trail| - 1 then i + 1 else j + 1;
      assert t.Parent(p) == trail[next];
    }
    WalkInTrap(t, ps, trail[i], n);
  }

  /** The loop with its visited set, which terminates on cyclic parent maps too. */
  method GetMainUserProcess(t: Table, pid: string) returns (r: Option<string>)
    ensures r == MainUserProcess(t, pid)
  {
    var current := pid;
    var visited: set<string> := {};
    ghost var trail := [pid];
    var depth := 0;
    while depth < MAX_DEPTH
      invariant 0 <= depth <= MAX_DEPTH && |trail| == depth + 1
      invariant Trail(t, trail) && trail[0] == pid && trail[depth] == current
      invariant visited == set p | p in trail[..depth]
      invariant Walk(t, pid, MAX_DEPTH) == Walk(t, current, MAX_DEPTH - depth)
      invariant depth > 0 ==> t.Parent(pid) != pid
    {
      if current in visited {
        ghost var i :| 0 <= i < depth && trail[i] == current;
        ClosedTrail(t, trail, i, MAX_DEPTH - depth);
        return None;
      }
      visited := visited + {current};
      var parent := t.Parent(current);
      if parent == current {
        if depth > 0 {
          WalkInTrap(t, {current}, current, MAX_DEPTH - depth);
        }
        return None;
      }
      if IsTop(parent) {
        return None;
      }
      if !t.HasTty(parent) {
        return Some(parent);
      }
      current := parent;
      trail := trail + [parent];
      depth := depth + 1;
    }
    return None;
  }

  // ----- user-initiated processes

  /** Its terminal, its parent's terminal and a main user process further up make a process user-initiated. */
  method IsUserInitiatedProcess(t: Table, pid: string) returns (r: bool)
    ensures r == UserInitiated(t, pid)
  {
    if !t.HasTty(pid) {
      return false;
    }
    var parent := t.Parent(pid);
    if IsTop(parent) {
      return false;
    }
    if !t.HasTty(parent) {
      return false;
    }
    var main := GetMainUserProcess(t, pid);
    return main.Some?;
  }

  predicate UserInitiated(t: Table, pid: string) {
    && t.HasTty(pid) && !IsTop(t.Parent(pid)) && t.HasTty(t.Parent(pid))
    && MainUserProcess(t, pid).Some?
  }

  /** That is: a chain of at least two processes with terminals leads up to one without, at most 64 steps away. */
  lemma UserInitiatedIff(t: Table, pid: string)
    ensures UserInitiated(t, pid) <==> t.HasTty(pid) && exists k :: 2 <= k <= 64 && NearestAt(t, pid, k)
  {
    AncestorOfParent(t, pid, 0);
    if t.HasTty(pid) {
      ChecksChangeNothingIff(t, pid);
    }
    if UserInitiated(t, pid) {
      var a := MainUserProcess(t, pid).value;
      WalkIsNearest(t, pid, MAX_DEPTH, a);
      var k :| 0 < k <= MAX_DEPTH && NearestAt(t, pid, k) && Ancestor(t, pid, k) == a;
      assert k != 1;
    }
    if t.HasTty(pid) && exists k :: 2 <= k <= MAX_DEPTH && NearestAt(t, pid, k) {
      var k :| 2 <= k <= MAX_DEPTH && NearestAt(t, pid, k);
      assert Ancestor(t, pid, 1) == t.Parent(pid);
      WalkIsNearest(t, pid, MAX_DEPTH, Ancestor(t, pid, k));
    }
  }

  // ----- the scan

  /**
    An entry of /proc and what a scan would observe of it. `start` is absent if
    it cannot be determined, `ttyAtime` if the terminal's access time cannot;
    `cpuRecent` is the answer of the CPU cache.
   */
  datatype Entry = Entry(
    name: string,
    isDir: bool,
    comm: Option<string>,
    start: Option<int>,
    groups: Option<Groups>,
    wchan: string,
    ttyAtime: Option<int>,
    cpuRecent: bool)

  // The process group, and the one in the foreground of the terminal.
  datatype Groups = Groups(pgrp: int, tpgid: int)

  datatype Context = Context(
    myPID: string,
    activityWindow: int,
    gracePeriod: int,
    maxProcessAge: int,
    watchedCommands: seq<WatchedCommand>,
    ignoredCommands: seq<string>)

  predicate IsNumeric(s: string) {
    s != [] && forall c :: c in s ==> IsDigit(c)
  }

  // getProcessAge: 0 if the start is unknown or lies in the future.
  function Age(e: Entry, now: int): int {
    if e.start.None? || now < e.start.value then 0 else now - e.start.value
  }

  function EffectiveMaxAge(ctx: Context): (a: int)
    ensures a > 0
  {
    if ctx.maxProcessAge <= 0 then DEFAULT_MAX_PROCESS_AGE else ctx.maxProcessAge
  }

  function EffectiveGrace(ctx: Context): (g: int)
    ensures g > 0
  {
    if ctx.gracePeriod <= 0 then DEFAULT_GRACE_PERIOD else ctx.gracePeriod
  }

  // The first command configured under a name.
  function Configured(cmds: seq<WatchedCommand>, name: string): Option<WatchedCommand> {
    if cmds == [] then None
    else if cmds[0].name == name then Some(cmds[0])
    else Configured(cmds[1..], name)
  }

  // ----- interactive processes, and their activity

  predicate IsInForegroundProcessGroup(e: Entry) {
    e.groups.Some? && e.groups.value.tpgid > 0 && e.groups.value.pgrp == e.groups.value.tpgid
  }

  // Where the kernel has a process wait for its terminal.
  const TERMINAL_WAITS := ["read", "wait_woken", "n_tty_read", "tty_read", "tty_write"]

  // Where it may wait for input of any kind.
  const INPUT_WAITS := ["poll_schedule_timeout", "pipe_wait", "unix_stream_read_generic", "select", "ep_poll"]

  predicate ReadSinceStart(e: Entry) {
    e.start.Some? && e.ttyAtime.Some? && e.ttyAtime.value > e.start.value
  }

  predicate HasEverReadFromTTY(e: Entry) {
    if e.start.None? || e.ttyAtime.None? then false
    else ReadSinceStart(e) || e.wchan in INPUT_WAITS
  }

  predicate IsInteractiveProcess(e: Entry) {
    IsInForegroundProcessGroup(e) && (e.wchan in TERMINAL_WAITS || HasEverReadFromTTY(e))
  }

  function EffectiveWindow(ctx: Context): (w: int)
    ensures w > 0
  {
    if ctx.activityWindow <= 0 then DEFAULT_ACTIVITY_WINDOW else ctx.activityWindow
  }

  // A terminal read since the process started tells when; otherwise its CPU use decides.
  predicate HasRecentActivity(ctx: Context, now: int, e: Entry) {
    if ReadSinceStart(e) then e.ttyAtime.value > now - EffectiveWindow(ctx) else e.cpuRecent
  }

  /** applyPolicy: interactive processes count only with recent activity, others always. */
  predicate PolicyHolds(mode: string, ctx: Context, now: int, e: Entry) {
    var checkActivity := if mode == "auto" then IsInteractiveProcess(e) else mode == "true" || mode == "yes";
    checkActivity ==> HasRecentActivity(ctx, now, e)
  }

  /**
    A process that nobody configured: if its terminal was read since it started,
    it counts exactly while it is in the background or that was within the
    window; if not, it does not count exactly if it is in the foreground, waits
    for its terminal or (with a terminal and a start that are known) for input,
    and has used no CPU within the window.
   */
  lemma AutoPolicyIff(ctx: Context, now: int, e: Entry)
    ensures ReadSinceStart(e) ==>
              (PolicyHolds("auto", ctx, now, e) <==>
               !IsInForegroundProcessGroup(e) || now - e.ttyAtime.value < EffectiveWindow(ctx))
    ensures !ReadSinceStart(e) ==>
              (!PolicyHolds("auto", ctx, now, e) <==>
               && IsInForegroundProcessGroup(e) && !e.cpuRecent
               && (e.wchan in TERMINAL_WAITS || (e.start.Some? && e.ttyAtime.Some? && e.wchan in INPUT_WAITS)))
  {
    hide IsInForegroundProcessGroup;
  }

  function ModeFor(ctx: Context, name: string): string {
    match Configured(ctx.watchedCommands, name)
    case None => "auto"
    case Some(cmd) => if cmd.interactive == "" then DEFAULT_INTERACTIVE_MODE else cmd.interactive
  }

  // A user's process with a name that is not excluded.
  predicate Watched(t: Table, ctx: Context, e: Entry) {
    && e.isDir && IsNumeric(e.name) && e.name != "1" && e.name != ctx.myPID
    && UserInitiated(t, e.name)
    && e.comm.Some? && TrimSpace(e.comm.value) != ""
    && TrimSpace(e.comm.value) !in ALWAYS_IGNORED && TrimSpace(e.comm.value) !in ctx.ignoredCommands
  }

  /** The process keeps the workspace from idling. */
  predicate Holds(t: Table, ctx: Context, now: int, e: Entry) {
    && Watched(t, ctx, e)
    && Age(e, now) <= EffectiveMaxAge(ctx)
    && (Age(e, now) < EffectiveGrace(ctx) || PolicyHolds(ModeFor(ctx, TrimSpace(e.comm.value)), ctx, now, e))
  }

  /** A scan reports the first process that holds, by its command name. */
  method Scan(t: Table, ctx: Context, now: int, procEntries: seq<Entry>) returns (active: bool, found: string)
    ensures active <==> exists e :: e in procEntries && Holds(t, ctx, now, e)
    ensures active ==> exists i :: 0 <= i < |procEntries| && Holds(t, ctx, now, procEntries[i]) &&
                                   (forall j :: 0 <= j < i ==> !Holds(t, ctx, now, procEntries[j])) &&
                                   found == TrimSpace(procEntries[i].comm.value)
  {
    hide UserInitiated, TrimSpace;
    var i := 0;
    while i < |procEntries|
      invariant 0 <= i <= |procEntries|
      invariant forall j :: 0 <= j < i ==> !Holds(t, ctx, now, procEntries[j])
    {
      var e := procEntries[i];
      var holds := Check(t, ctx, now, e);
      if holds {
        return true, TrimSpace(e.comm.value);
      }
      i := i + 1;
    }
    return false, "";
  }

  // One turn of the scan's loop.
  method Check(t: Table, ctx: Context, now: int, e: Entry) returns (holds: bool)
    ensures holds == Holds(t, ctx, now, e)
  {
    if !e.isDir || !IsNumeric(e.name) {
      return false;
    }
    if e.name == "1" || e.name == ctx.myPID {
      return false;
    }
    var userInitiated := IsUserInitiatedProcess(t, e.name);
    if !userInitiated || e.comm.None? {
      return false;
    }
    var cmdName := TrimSpace(e.comm.value);
    if cmdName == "" || cmdName in ALWAYS_IGNORED || cmdName in ctx.ignoredCommands {
      return false;
    }
    var configuredCmd := FindConfigured(ctx.watchedCommands, cmdName);
    var processAge := Age(e, now);
    var maxAge := if ctx.maxProcessAge <= 0 then DEFAULT_MAX_PROCESS_AGE else ctx.maxProcessAge;
    if processAge > 0 && processAge > maxAge {
      return false;
    }
    var gracePeriod := if ctx.gracePeriod <= 0 then DEFAULT_GRACE_PERIOD else ctx.gracePeriod;
    if processAge == 0 {
      return true;
    }
    if processAge < gracePeriod {
      return true;
    }
    var mode := "auto";
    if configuredCmd.Some? {
      mode := configuredCmd.value.interactive;
      if mode == "" {
        mode := DEFAULT_INTERACTIVE_MODE;
      }
    }
    return PolicyHolds(mode, ctx, now, e);
  }

  method FindConfigured(cmds: seq<WatchedCommand>, name: string) returns (r: Option<WatchedCommand>)
    ensures r == Configured(cmds, name)
  {
    var i := 0;
    while i < |cmds|
      invariant 0 <= i <= |cmds|
      invariant Configured(cmds, name) == Configured(cmds[i..], name)
    {
      if cmds[i].name == name {
        return Some(cmds[i]);
      }
      i := i + 1;
    }
    return None;
  }

  // ----- which processes count

  /** A user's process that a scan looks at more closely, in terms of what it observes. */
  ghost predicate Candidate(t: Table, ctx: Context, e: Entry, name: string) {
    && e.isDir && e.name != "" && (forall c :: c in e.name ==> '0' <= c <= '9') && e.name != "1" && e.name != ctx.myPID
    && t.HasTty(e.name) && (exists k :: 2 <= k <= 64 && NearestAt(t, e.name, k))
    && e.comm.Some? && name == TrimSpace(e.comm.value) && name != ""
    && name != "tail" && name != "watch" && name != "top" && name != "htop" && name !in ctx.ignoredCommands
  }

  lemma WatchedIff(t: Table, ctx: Context, e: Entry, name: string)
    requires e.comm.Some? ==> name == TrimSpace(e.comm.value)
    ensures Candidate(t, ctx, e, name) <==> Watched(t, ctx, e)
  {
    hide TrimSpace, UserInitiated, NearestAt;
    UserInitiatedIff(t, e.name);
  }

  // A value of the configuration, or its default if it is not positive.
  function Effective(value: int, default: int): int {
    if value > 0 then value else default
  }

  /** Old enough to be judged by its activity, and not too old to count. */
  predicate InItsPrime(ctx: Context, now: int, e: Entry) {
    && e.start.Some?
    && now - e.start.value >= Effective(ctx.gracePeriod, 5 * MINUTE)
    && now - e.start.value <= Effective(ctx.maxProcessAge, 6 * HOUR)
  }

  /** No process that is not a candidate counts, and none above the maximum age. */
  lemma NeverCounts(t: Table, ctx: Context, now: int, e: Entry, name: string)
    requires e.comm.Some? ==> name == TrimSpace(e.comm.value)
    requires !Candidate(t, ctx, e, name) ||
             (e.start.Some? && now - e.start.value > Effective(ctx.maxProcessAge, 6 * HOUR))
    ensures !Holds(t, ctx, now, e)
  {
    hide TrimSpace, UserInitiated, Candidate;
    WatchedIff(t, ctx, e, name);
  }

  /** A candidate of unknown age, or younger than the grace period, counts whatever it does. */
  lemma YoungCounts(t: Table, ctx: Context, now: int, e: Entry, name: string)
    requires Candidate(t, ctx, e, name)
    requires e.start.None? || now <= e.start.value ||
             (now - e.start.value < Effective(ctx.gracePeriod, 5 * MINUTE) &&
              now - e.start.value <= Effective(ctx.maxProcessAge, 6 * HOUR))
    ensures Holds(t, ctx, now, e)
  {
    hide TrimSpace, UserInitiated, NearestAt;
    WatchedIff(t, ctx, e, name);
  }

  /** The terminal was read since the process started. */
  predicate TerminalRead(e: Entry) {
    e.start.Some? && e.ttyAtime.Some? && e.ttyAtime.value > e.start.value
  }

  /** Recent activity: of a terminal that was read, within the window; otherwise what the CPU cache says. */
  predicate RecentlyActive(ctx: Context, now: int, e: Entry) {
    if TerminalRead(e) then now - e.ttyAtime.value < Effective(ctx.activityWindow, 25 * MINUTE) else e.cpuRecent
  }

  /** In the foreground, and waiting for its terminal, or having read it, or (if both times are known) waiting for input. */
  predicate UsesTerminal(e: Entry) {
    && e.groups.Some? && e.groups.value.tpgid > 0 && e.groups.value.pgrp == e.groups.value.tpgid
    && (|| e.wchan == "read" || e.wchan == "wait_woken" || e.wchan == "n_tty_read" || e.wchan == "tty_read"
        || e.wchan == "tty_write"
        || TerminalRead(e)
        || (e.start.Some? && e.ttyAtime.Some? &&
            (e.wchan == "poll_schedule_timeout" || e.wchan == "pipe_wait" || e.wchan == "unix_stream_read_generic" ||
             e.wchan == "select" || e.wchan == "ep_poll")))
  }

  // The first command configured under this name.
  predicate FirstNamed(cmds: seq<WatchedCommand>, i: nat, name: string) {
    i < |cmds| && cmds[i].name == name && forall j :: 0 <= j < i ==> cmds[j].name != name
  }

  lemma {:induction false} NoneConfigured(cmds: seq<WatchedCommand>, name: string)
    requires forall cmd :: cmd in cmds ==> cmd.name != name
    ensures Configured(cmds, name) == None
  {
    if cmds != [] {
      assert cmds[0] in cmds && forall cmd :: cmd in cmds[1..] ==> cmd in cmds;
      NoneConfigured(cmds[1..], name);
    }
  }

  lemma {:induction false} FirstConfigured(cmds: seq<WatchedCommand>, i: nat, name: string)
    requires FirstNamed(cmds, i, name)
    ensures Configured(cmds, name) == Some(cmds[i])
  {
    if i > 0 {
      assert cmds[0].name != name;
      FirstConfigured(cmds[1..], i - 1, name);
    }
  }

  lemma InteractiveIff(e: Entry)
    ensures IsInteractiveProcess(e) <==> UsesTerminal(e)
  {
  }

  lemma RecentIff(ctx: Context, now: int, e: Entry)
    ensures HasRecentActivity(ctx, now, e) <==> RecentlyActive(ctx, now, e)
  {
  }

  /**
    A candidate in its prime that nobody configured counts unless it uses its
    terminal and is not recently active.
   */
  lemma UnconfiguredCounts(t: Table, ctx: Context, now: int, e: Entry, name: string)
    requires Candidate(t, ctx, e, name) && InItsPrime(ctx, now, e)
    requires forall cmd :: cmd in ctx.watchedCommands ==> cmd.name != name
    ensures Holds(t, ctx, now, e) <==> !UsesTerminal(e) || RecentlyActive(ctx, now, e)
  {
    hide TrimSpace, UserInitiated, NearestAt, IsInteractiveProcess, HasRecentActivity, Configured;
    WatchedIff(t, ctx, e, name);
    NoneConfigured(ctx.watchedCommands, name);
    InteractiveIff(e);
    RecentIff(ctx, now, e);
  }

  /**
    The first entry of its name decides about a configured one: with "yes" or
    "true" it counts exactly if it is recently active, with "auto" as if it were
    not configured, and with "no", "false", nothing, or anything else always.
   */
  lemma ConfiguredCounts(t: Table, ctx: Context, now: int, e: Entry, name: string, i: nat)
    requires Candidate(t, ctx, e, name) && InItsPrime(ctx, now, e) && FirstNamed(ctx.watchedCommands, i, name)
    ensures var mode := ctx.watchedCommands[i].interactive;
            && (mode == "yes" || mode == "true" ==> (Holds(t, ctx, now, e) <==> RecentlyActive(ctx, now, e)))
            && (mode == "auto" ==> (Holds(t, ctx, now, e) <==> !UsesTerminal(e) || RecentlyActive(ctx, now, e)))
            && (mode != "yes" && mode != "true" && mode != "auto" ==> Holds(t, ctx, now, e))
  {
    hide TrimSpace, UserInitiated, NearestAt, IsInteractiveProcess, HasRecentActivity, Configured;
    WatchedIff(t, ctx, e, name);
    FirstConfigured(ctx.watchedCommands, i, name);
    InteractiveIff(e);
    RecentIff(ctx, now, e);
  }
}

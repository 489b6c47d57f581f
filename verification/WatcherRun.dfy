/**
  The watcher and the idle manager together, over whole runs. Scans happen
  exactly when the ticker is due and take no time of their own.
 */
module WatcherRun {
  import opened Wrappers
  import opened Durations
  import opened WatcherConfig
  import opened IdleManager
  import T = TtySource

  // ----- active work is never stopped

  /**
    `nextScan` is when the ticker is due, with its `period` in seconds. There is
    no configuration until a look at the file leads to one: `failed` is how many
    looks have not. `dropped` is how many ticks in a row the manager did not take.
   */
  datatype Watched = Watched(
    manager: State,
    nextScan: int,
    period: int,
    config: Option<WatcherConfig.Config>,
    dropped: nat,
    failed: nat)

  /**
    A delivery of the ticker looks at the file, and scans if there is a
    configuration, finding activity; the others are the manager's own events.
   */
  datatype Step = Delivery(file: File, taken: bool) | ManagerEvent(event: Event)

  // Ticks come from deliveries only, time does not pass one that is due, and the watcher stays enabled.
  predicate StepEnabled(u: Setup, w: Watched, step: Step) {
    match step
    case Delivery(file, taken) =>
      var config := Loaded(u, w.config, file).0;
      && w.manager.now == w.nextScan
      && (config.Some? ==> config.value.enabled && Enabled(w.manager, if taken then Tick else TickDropped))
    case ManagerEvent(e) =>
      && e != Tick && e != TickDropped
      && Enabled(w.manager, e)
      && (e.Advance? ==> e.to <= w.nextScan)
  }

  function StepApply(u: Setup, c: IdleManager.Config, w: Watched, step: Step): Watched {
    match step
    case Delivery(file, taken) =>
      var config := Loaded(u, w.config, file).0;
      var p := NextPeriod(config, w.period);
      var next := w.(nextScan := w.manager.now + p * SECOND, period := p, config := config);
      if config.None? then next.(failed := w.failed + 1)
      else next.(manager := Apply(c, w.manager, if taken then Tick else TickDropped),
                 dropped := if taken then 0 else w.dropped + 1)
    case ManagerEvent(e) => w.(manager := Apply(c, w.manager, e))
  }

  /** The watcher starts with what the `first` look leads to, or with no configuration. */
  function Started(u: Setup, c: IdleManager.Config, start: int, first: File): Watched {
    var config := Loaded(u, None, first).0;
    var p := InitialPeriod(config);
    Watched(Initial(c, start), start + p * SECOND, p, config, 0, if config.None? then 1 else 0)
  }

  /** The state after a run, if every step is enabled where it is taken. */
  function WatchedRun(u: Setup, c: IdleManager.Config, start: int, first: File, steps: seq<Step>): Option<Watched> {
    if steps == [] then Some(Started(u, c, start, first))
    else
      var before, step := WatchedRun(u, c, start, first, steps[..|steps| - 1]), steps[|steps| - 1];
      if before.Some? && StepEnabled(u, before.value, step) then Some(StepApply(u, c, before.value, step)) else None
  }

  /** All along the run at most `d` ticks in a row are dropped, and at most `n` looks fail before there is a configuration. */
  predicate AtMost(u: Setup, c: IdleManager.Config, start: int, first: File, steps: seq<Step>, d: nat, n: nat) {
    forall k :: 0 <= k <= |steps| && WatchedRun(u, c, start, first, steps[..k]).Some? ==>
      Within(WatchedRun(u, c, start, first, steps[..k]).value, d, n)
  }

  predicate Within(w: Watched, d: nat, n: nat) {
    w.dropped <= d && w.failed <= n
  }

  predicate NoAttempt(log: seq<Entry>) {
    forall i :: 0 <= i < |log| ==> !log[i].Attempt?
  }

  // The first ticker can be started, whatever the file says.
  predicate TickerRuns(u: Setup) {
    u.idleTimeout >= 4 * SECOND && (u.env.checkPeriod.Some? ==> u.env.checkPeriod.value >= SECOND)
  }

  function PeriodLimit(u: Setup): int {
    if u.env.checkPeriod.Some? then u.env.checkPeriod.value else MaxCheckPeriod(u.idleTimeout)
  }

  /** The longest period that any file can bring about, in whole seconds. */
  function LongestPeriod(u: Setup): int {
    PeriodLimit(u) / SECOND * SECOND
  }

  // A configuration that can be in force.
  predicate Possible(u: Setup, config: Option<WatcherConfig.Config>) {
    config.Some? ==>
      && SECOND <= config.value.checkPeriodParsed <= PeriodLimit(u)
      && (config.value.enabled <==> u.env.enabled == Some(true))
  }

  lemma LoadedPossible(u: Setup, current: Option<WatcherConfig.Config>, file: File)
    requires TickerRuns(u) && Possible(u, current)
    ensures Possible(u, Loaded(u, current, file).0)
    ensures current.Some? ==> Loaded(u, current, file).0.Some?
  {
    var modTime, read := if Parses(file) then file.modTime else 0, if Parses(file) then file.content.config else ZERO;
    PeriodParsed(u, modTime, read);
    DefaultedRounds(ZERO, u.idleTimeout);
    DefaultedRounds(read, u.idleTimeout);
  }

  // The periods that such a configuration leads to, or none.
  lemma PossiblePeriods(u: Setup, config: Option<WatcherConfig.Config>, period: int)
    requires TickerRuns(u) && Possible(u, config) && (config.Some? ==> config.value.enabled)
    ensures config.Some? ==> 0 < NextPeriod(config, period) * SECOND <= LongestPeriod(u)
    ensures config.None? ==> NextPeriod(config, period) * SECOND == DEFAULT_CHECK_PERIOD
    ensures LongestPeriod(u) >= SECOND
  {
  }

  lemma FirstPeriods(u: Setup, first: File)
    requires TickerRuns(u)
    ensures var config := Loaded(u, None, first).0;
            && Possible(u, config)
            && (config.Some? ==> 0 < InitialPeriod(config) * SECOND <= LongestPeriod(u))
            && (config.None? ==> InitialPeriod(config) * SECOND == DEFAULT_CHECK_PERIOD)
            && LongestPeriod(u) >= SECOND
  {
    LoadedPossible(u, None, first);
  }

  /** What failed looks and dropped ticks can take up before a tick is taken. */
  function LongestGap(longest: int, d: nat, n: nat): int {
    Max(n * DEFAULT_CHECK_PERIOD, longest) + d * longest
  }

  // The next tick is taken before the timer can expire, whatever may still fail or be dropped until then.
  ghost predicate Alive(u: Setup, w: Watched, d: nat, n: nat) {
    && Possible(u, w.config)
    && (w.manager.phase == Selecting || w.manager.phase == Finished)
    && NoAttempt(w.manager.log)
    && w.manager.now <= w.nextScan
    && (w.config.None? ==> w.dropped == 0)
    && (w.manager.phase == Selecting ==>
          && w.manager.timer.deadline.Some? && !w.manager.timer.fired
          && w.nextScan + StillToCome(LongestPeriod(u), w, d, n) < w.manager.timer.deadline.value)
  }

  function StillToCome(longest: int, w: Watched, d: nat, n: nat): int {
    (if w.config.None? then (n - w.failed) * DEFAULT_CHECK_PERIOD else 0) + (d - w.dropped) * longest
  }

  lemma OneLess(n: int, x: int)
    ensures n * x == (n - 1) * x + x && (n + 1) * x == n * x + x
    ensures n >= 0 && x >= 0 ==> n * x >= 0
  {
  }

  lemma AliveStep(u: Setup, c: IdleManager.Config, w: Watched, step: Step, d: nat, n: nat)
    requires TickerRuns(u) && LongestGap(LongestPeriod(u), d, n) < c.idleTimeout
    requires Alive(u, w, d, n) && Within(w, d, n) && StepEnabled(u, w, step)
    requires Within(StepApply(u, c, w, step), d, n)
    ensures Alive(u, StepApply(u, c, w, step), d, n)
  {
    hide Loaded, NextPeriod, InitialPeriod, LongestPeriod, Possible;
    var longest := LongestPeriod(u);
    OneLess(d - w.dropped, longest);
    OneLess(d, longest);
    FirstPeriods(u, Absent);
    if step.Delivery? {
      LoadedPossible(u, w.config, step.file);
      PossiblePeriods(u, Loaded(u, w.config, step.file).0, w.period);
    }
  }

  lemma AliveStarted(u: Setup, c: IdleManager.Config, start: int, first: File, d: nat, n: nat)
    requires TickerRuns(u) && LongestGap(LongestPeriod(u), d, n) < c.idleTimeout
    requires Within(Started(u, c, start, first), d, n)
    ensures Alive(u, Started(u, c, start, first), d, n)
  {
    hide Loaded, InitialPeriod, LongestPeriod, Possible;
    FirstPeriods(u, first);
    OneLess(d, LongestPeriod(u));
  }

  lemma {:induction false} AliveRun(u: Setup, c: IdleManager.Config, start: int, first: File, steps: seq<Step>, d: nat, n: nat)
    requires TickerRuns(u) && LongestGap(LongestPeriod(u), d, n) < c.idleTimeout
    requires WatchedRun(u, c, start, first, steps).Some? && AtMost(u, c, start, first, steps, d, n)
    ensures Alive(u, WatchedRun(u, c, start, first, steps).value, d, n)
  {
    hide Alive, StepEnabled, StepApply, Started, LongestPeriod, LongestGap, Within, TickerRuns;
    assert steps[..|steps|] == steps;
    assert Within(WatchedRun(u, c, start, first, steps[..|steps|]).value, d, n);
    if steps == [] {
      AliveStarted(u, c, start, first, d, n);
    } else {
      var init, step := steps[..|steps| - 1], steps[|steps| - 1];
      assert forall k :: 0 <= k <= |init| ==> init[..k] == steps[..k];
      AliveRun(u, c, start, first, init, d, n);
      assert Within(WatchedRun(u, c, start, first, steps[..|init|]).value, d, n);
      AliveStep(u, c, WatchedRun(u, c, start, first, init).value, step, d, n);
    }
  }

  /**
    While every scan finds activity: no run with at most `d` drops in a row, in
    which at most `n` looks at the file fail before there is a configuration,
    contains an attempt to stop the workspace.
   */
  ghost predicate Harmless(u: Setup, c: IdleManager.Config, d: nat, n: nat) {
    forall start, first, steps ::
      WatchedRun(u, c, start, first, steps).Some? && AtMost(u, c, start, first, steps, d, n) ==>
      NoAttempt(WatchedRun(u, c, start, first, steps).value.manager.log)
  }

  lemma ShortGapHarmless(u: Setup, c: IdleManager.Config, d: nat, n: nat)
    requires TickerRuns(u) && LongestGap(LongestPeriod(u), d, n) < c.idleTimeout
    ensures Harmless(u, c, d, n)
  {
    hide LongestPeriod, LongestGap, WatchedRun, AtMost, TickerRuns;
    forall start, first, steps |
      WatchedRun(u, c, start, first, steps).Some? && AtMost(u, c, start, first, steps, d, n)
      ensures NoAttempt(WatchedRun(u, c, start, first, steps).value.manager.log)
    {
      AliveRun(u, c, start, first, steps, d, n);
    }
  }

  // ----- runs that stop active work

  lemma WatchedStep(u: Setup, c: IdleManager.Config, first: File, before: seq<Step>, step: Step, d: nat, n: nat)
    returns (steps: seq<Step>)
    requires WatchedRun(u, c, 0, first, before).Some? && AtMost(u, c, 0, first, before, d, n)
    requires var w := WatchedRun(u, c, 0, first, before).value;
             StepEnabled(u, w, step) && Within(StepApply(u, c, w, step), d, n)
    ensures steps == before + [step] && AtMost(u, c, 0, first, steps, d, n)
    ensures WatchedRun(u, c, 0, first, steps) == Some(StepApply(u, c, WatchedRun(u, c, 0, first, before).value, step))
  {
    hide StepEnabled, StepApply, Within, Started;
    steps := before + [step];
    assert steps[..|before|] == before && steps[..|steps|] == steps;
    assert forall k :: 0 <= k <= |before| ==> steps[..k] == before[..k];
  }

  const BROKEN_FILE := Present(1, Malformed)

  // A file that leads to the longest period: it asks for it, or there is none and the admin sets it.
  function SlowFile(u: Setup): File {
    if u.env.checkPeriod.Some? then Absent else Present(1, Parsed(ZERO.(checkPeriod := Text(Some(HOUR), None))))
  }

  function SlowConfig(u: Setup): WatcherConfig.Config {
    if u.env.checkPeriod.Some? then DefaultConfig(u)
    else FileConfig(u, 1, ZERO.(checkPeriod := Text(Some(HOUR), None)))
  }

  lemma SlowPeriod(u: Setup)
    requires TickerRuns(u) && u.env.enabled == Some(true)
    ensures Loaded(u, None, SlowFile(u)).0 == Loaded(u, Some(SlowConfig(u)), SlowFile(u)).0 == Some(SlowConfig(u))
    ensures SlowConfig(u).enabled
    ensures InitialPeriod(Some(SlowConfig(u))) * SECOND == LongestPeriod(u) >= SECOND
    ensures forall period :: NextPeriod(Some(SlowConfig(u)), period) * SECOND == LongestPeriod(u)
  {
    var read := ZERO.(checkPeriod := Text(Some(HOUR), None));
    PeriodParsed(u, 1, read);
    ConfigMarks(u, 1, read);
    assert WrittenCheckPeriod(read) == HOUR;
    assert SlowConfig(u).checkPeriodParsed == PeriodLimit(u);
  }

  // The timer runs as it was set at the start, and nothing has been reported.
  predicate Unreported(c: IdleManager.Config, w: Watched) {
    && w.manager == State(w.manager.now, Armed(c.idleTimeout), Selecting, [])
    && w.manager.now < c.idleTimeout && w.manager.now <= w.nextScan
  }

  // The next delivery comes too late.
  lemma StopsBefore(u: Setup, c: IdleManager.Config, first: File, before: seq<Step>, d: nat, n: nat)
    returns (steps: seq<Step>)
    requires WatchedRun(u, c, 0, first, before).Some? && AtMost(u, c, 0, first, before, d, n)
    requires var w := WatchedRun(u, c, 0, first, before).value;
             Unreported(c, w) && Within(w, d, n) && c.idleTimeout <= w.nextScan
    ensures WatchedRun(u, c, 0, first, steps).Some? && AtMost(u, c, 0, first, steps, d, n)
    ensures WatchedRun(u, c, 0, first, steps).value.manager.log == [Attempt(c.idleTimeout)]
  {
    hide WatchedRun, AtMost, Loaded;
    steps := WatchedStep(u, c, first, before, ManagerEvent(Advance(c.idleTimeout)), d, n);
    steps := WatchedStep(u, c, first, steps, ManagerEvent(Expire), d, n);
    steps := WatchedStep(u, c, first, steps, ManagerEvent(Fire), d, n);
  }

  // Ticks are dropped, up to `more` of them, until the next delivery comes too late.
  lemma {:induction false} StopsAfterDrops(u: Setup, c: IdleManager.Config, first: File, before: seq<Step>, more: nat, d: nat, n: nat)
    returns (steps: seq<Step>)
    requires TickerRuns(u) && u.env.enabled == Some(true)
    requires WatchedRun(u, c, 0, first, before).Some? && AtMost(u, c, 0, first, before, d, n)
    requires var w := WatchedRun(u, c, 0, first, before).value;
             && Unreported(c, w) && w.dropped + more <= d && w.failed <= n
             && (w.config == None || w.config == Some(SlowConfig(u)))
             && c.idleTimeout <= w.nextScan + more * LongestPeriod(u)
    ensures WatchedRun(u, c, 0, first, steps).Some? && AtMost(u, c, 0, first, steps, d, n)
    ensures WatchedRun(u, c, 0, first, steps).value.manager.log == [Attempt(c.idleTimeout)]
    decreases more
  {
    hide WatchedRun, AtMost, Loaded, NextPeriod, InitialPeriod, LongestPeriod, SlowConfig, SlowFile;
    var w := WatchedRun(u, c, 0, first, before).value;
    if more == 0 || c.idleTimeout <= w.nextScan {
      steps := StopsBefore(u, c, first, before, d, n);
    } else {
      SlowPeriod(u);
      OneLess(more, LongestPeriod(u));
      steps := WatchedStep(u, c, first, before, ManagerEvent(Advance(w.nextScan)), d, n);
      steps := WatchedStep(u, c, first, steps, Delivery(SlowFile(u), false), d, n);
      steps := StopsAfterDrops(u, c, first, steps, more - 1, d, n);
    }
  }

  // Looks fail, up to `more` of them, then ticks are dropped, until the next delivery comes too late.
  lemma {:induction false} StopsAfterFailures(u: Setup, c: IdleManager.Config, before: seq<Step>, more: nat, d: nat, n: nat)
    returns (steps: seq<Step>)
    requires TickerRuns(u) && u.env.enabled == Some(true)
    requires WatchedRun(u, c, 0, BROKEN_FILE, before).Some? && AtMost(u, c, 0, BROKEN_FILE, before, d, n)
    requires var w := WatchedRun(u, c, 0, BROKEN_FILE, before).value;
             && Unreported(c, w) && w.dropped == 0 && w.failed + more <= n && w.config == None
             && c.idleTimeout <= w.nextScan + more * DEFAULT_CHECK_PERIOD + d * LongestPeriod(u)
    ensures WatchedRun(u, c, 0, BROKEN_FILE, steps).Some? && AtMost(u, c, 0, BROKEN_FILE, steps, d, n)
    ensures WatchedRun(u, c, 0, BROKEN_FILE, steps).value.manager.log == [Attempt(c.idleTimeout)]
    decreases more
  {
    hide WatchedRun, AtMost, LongestPeriod;
    var w := WatchedRun(u, c, 0, BROKEN_FILE, before).value;
    if c.idleTimeout <= w.nextScan {
      steps := StopsBefore(u, c, BROKEN_FILE, before, d, n);
    } else if more == 0 {
      steps := StopsAfterDrops(u, c, BROKEN_FILE, before, d, d, n);
    } else {
      steps := WatchedStep(u, c, BROKEN_FILE, before, ManagerEvent(Advance(w.nextScan)), d, n);
      steps := WatchedStep(u, c, BROKEN_FILE, steps, Delivery(BROKEN_FILE, false), d, n);
      steps := StopsAfterFailures(u, c, steps, more - 1, d, n);
    }
  }

  lemma AtMostStarted(u: Setup, c: IdleManager.Config, first: File, d: nat, n: nat)
    requires Within(Started(u, c, 0, first), d, n)
    ensures WatchedRun(u, c, 0, first, []) == Some(Started(u, c, 0, first)) && AtMost(u, c, 0, first, [], d, n)
  {
  }

  /** A gap as long as the idle timeout comes about: with a slow file from the start, or with a broken one that is repaired. */
  lemma LongGapStops(u: Setup, c: IdleManager.Config, d: nat, n: nat) returns (first: File, steps: seq<Step>)
    requires TickerRuns(u) && u.env.enabled == Some(true) && c.idleTimeout > 0
    requires LongestGap(LongestPeriod(u), d, n) >= c.idleTimeout
    ensures WatchedRun(u, c, 0, first, steps).Some? && AtMost(u, c, 0, first, steps, d, n)
    ensures WatchedRun(u, c, 0, first, steps).value.manager.log == [Attempt(c.idleTimeout)]
  {
    hide WatchedRun, AtMost, LongestPeriod, NextPeriod, SlowConfig, SlowFile;
    if n * DEFAULT_CHECK_PERIOD >= LongestPeriod(u) && n > 0 {
      first := BROKEN_FILE;
      AtMostStarted(u, c, first, d, n);
      steps := StopsAfterFailures(u, c, [], n - 1, d, n);
    } else {
      first := SlowFile(u);
      SlowPeriod(u);
      AtMostStarted(u, c, first, d, n);
      steps := StopsAfterDrops(u, c, first, [], d, d, n);
    }
  }

  /**
    For every number of drops in a row and of looks that fail at first: they are
    harmless exactly if the longest gap they can lead to stays below the idle timeout.
   */
  lemma HarmlessDropsIff(u: Setup, c: IdleManager.Config, d: nat, n: nat)
    requires TickerRuns(u) && u.env.enabled == Some(true) && c.idleTimeout == u.idleTimeout
    ensures Harmless(u, c, d, n) <==> LongestGap(LongestPeriod(u), d, n) < c.idleTimeout
  {
    hide LongestPeriod, LongestGap, WatchedRun, AtMost;
    if LongestGap(LongestPeriod(u), d, n) < c.idleTimeout {
      ShortGapHarmless(u, c, d, n);
    } else {
      var first, steps := LongGapStops(u, c, d, n);
      assert [Attempt(c.idleTimeout)][0].Attempt?;
      assert !NoAttempt(WatchedRun(u, c, 0, first, steps).value.manager.log);
    }
  }

  /**
    Without an admin period. If the first look finds a configuration, two drops
    in a row never harm, and three do exactly if the idle timeout is a multiple
    of four seconds, up to forty minutes.
   */
  lemma ActiveWorkIsNeverStopped(u: Setup, c: IdleManager.Config)
    requires u.env.checkPeriod.None? && c.idleTimeout == u.idleTimeout >= 4 * SECOND
    ensures Harmless(u, c, 2, 0)
    ensures u.env.enabled == Some(true) ==>
              (Harmless(u, c, 3, 0) <==> c.idleTimeout % (4 * SECOND) != 0 || c.idleTimeout > 40 * MINUTE)
  {
    hide Harmless;
    ShortGapHarmless(u, c, 2, 0);
    if u.env.enabled == Some(true) {
      HarmlessDropsIff(u, c, 3, 0);
    }
  }

  /**
    If the first look can fail, and only that one, the idle timeout must be
    longer: more than a minute without any drop, about two minutes for two
    drops, and for three about four, apart from the multiples of four seconds.
   */
  lemma FirstLookFails(u: Setup, c: IdleManager.Config)
    requires u.env.checkPeriod.None? && u.env.enabled == Some(true) && c.idleTimeout == u.idleTimeout >= 4 * SECOND
    ensures Harmless(u, c, 0, 1) <==> c.idleTimeout > 60 * SECOND
    ensures Harmless(u, c, 2, 1) <==> c.idleTimeout > 118 * SECOND && c.idleTimeout != 120 * SECOND
    ensures var q, r := c.idleTimeout / (4 * SECOND), c.idleTimeout % (4 * SECOND);
            Harmless(u, c, 3, 1) <==> c.idleTimeout > 40 * MINUTE || (r != 0 && q * SECOND + r > 60 * SECOND)
  {
    hide *;
    GapWithoutDrops(u);
    HarmlessDropsIff(u, c, 0, 1);
    HarmlessDropsIff(u, c, 2, 1);
    HarmlessDropsIff(u, c, 3, 1);
    GapWithTwoDrops(u);
    GapWithThreeDrops(u);
  }

  lemma GapWithoutDrops(u: Setup)
    requires u.env.checkPeriod.None? && u.idleTimeout >= 4 * SECOND
    ensures TickerRuns(u)
    ensures LongestGap(LongestPeriod(u), 0, 1) < u.idleTimeout <==> u.idleTimeout > 60 * SECOND
  {
  }

  lemma GapWithTwoDrops(u: Setup)
    requires u.env.checkPeriod.None? && u.idleTimeout >= 4 * SECOND
    ensures LongestGap(LongestPeriod(u), 2, 1) < u.idleTimeout <==>
            u.idleTimeout > 118 * SECOND && u.idleTimeout != 120 * SECOND
  {
  }

  lemma GapWithThreeDrops(u: Setup)
    requires u.env.checkPeriod.None? && u.idleTimeout >= 4 * SECOND
    ensures var q, r := u.idleTimeout / (4 * SECOND), u.idleTimeout % (4 * SECOND);
            LongestGap(LongestPeriod(u), 3, 1) < u.idleTimeout <==>
            u.idleTimeout > 40 * MINUTE || (r != 0 && q * SECOND + r > 60 * SECOND)
  {
  }

  /** A malformed file at the start stops active work at every idle timeout up to a minute, without any drop. */
  lemma MalformedFileStops(u: Setup, c: IdleManager.Config) returns (steps: seq<Step>)
    requires 0 < c.idleTimeout <= 60 * SECOND
    ensures WatchedRun(u, c, 0, BROKEN_FILE, steps).Some? && AtMost(u, c, 0, BROKEN_FILE, steps, 0, 1)
    ensures WatchedRun(u, c, 0, BROKEN_FILE, steps).value.manager.log == [Attempt(c.idleTimeout)]
  {
    hide WatchedRun, AtMost;
    AtMostStarted(u, c, BROKEN_FILE, 0, 1);
    steps := StopsBefore(u, c, BROKEN_FILE, [], 0, 1);
  }

  // ----- old work does not hold the workspace for ever

  /** What a scan of the tty source sees. */
  datatype Look = Look(table: T.Table, ctx: T.Context, entries: seq<T.Entry>)

  predicate Finds(l: Look, now: int) {
    exists e :: e in l.entries && T.Holds(l.table, l.ctx, now, e)
  }

  /** The watched processes are of known age and have started by `s`, and none may become older than `maxAge`. */
  predicate StartedBy(l: Look, s: int, maxAge: int) {
    && (forall e :: e in l.entries && T.Watched(l.table, l.ctx, e) ==> e.start.Some? && e.start.value <= s)
    && T.EffectiveMaxAge(l.ctx) <= maxAge
  }

  datatype TtyStep = TtyScan(look: Look, taken: bool) | Other(event: Event)

  predicate TtyEnabled(m: State, step: TtyStep, s: int, maxAge: int) {
    match step
    case TtyScan(look, taken) =>
      StartedBy(look, s, maxAge) && Enabled(m, if taken then Tick else TickDropped) && (taken ==> Finds(look, m.now))
    case Other(e) => e != Tick && e != Sigterm && Enabled(m, e) && Timely(m, e)
  }

  function TtyApply(c: IdleManager.Config, m: State, step: TtyStep): State {
    match step
    case TtyScan(_, taken) => Apply(c, m, if taken then Tick else TickDropped)
    case Other(e) => Apply(c, m, e)
  }

  /** Runs in which only the tty source reports activity and nobody sends SIGTERM. */
  function TtyRun(c: IdleManager.Config, start: int, steps: seq<TtyStep>, s: int, maxAge: int): Option<State> {
    if steps == [] then Some(Initial(c, start))
    else
      var before, step := TtyRun(c, start, steps[..|steps| - 1], s, maxAge), steps[|steps| - 1];
      if before.Some? && TtyEnabled(before.value, step, s, maxAge) then Some(TtyApply(c, before.value, step)) else None
  }

  function Bound(c: IdleManager.Config, start: int, s: int, maxAge: int): int {
    Max(start, s + maxAge) + c.idleTimeout
  }

  predicate Attempted(m: State, until: int) {
    exists i :: 0 <= i < |m.log| && m.log[i].Attempt? && m.log[i].at <= until
  }

  // Until the first attempt the timer runs out no later than the bound.
  ghost predicate Bounded(c: IdleManager.Config, m: State, bound: int) {
    || Attempted(m, bound)
    || (&& m.phase == Selecting && Ready(m.timer)
        && (if m.timer.fired then m.now else m.timer.deadline.value) <= bound && m.now <= bound)
  }

  lemma ScanFindsNothingLate(l: Look, now: int, s: int, maxAge: int)
    requires StartedBy(l, s, maxAge) && Finds(l, now)
    ensures now <= s + maxAge
  {
    var e :| e in l.entries && T.Holds(l.table, l.ctx, now, e);
    assert T.Watched(l.table, l.ctx, e);
  }

  lemma AttemptedStays(m: State, m': State, until: int)
    requires Attempted(m, until) && m.log <= m'.log
    ensures Attempted(m', until)
  {
    var i :| 0 <= i < |m.log| && m.log[i].Attempt? && m.log[i].at <= until;
    assert m'.log[i] == m.log[i];
  }

  lemma BoundedStep(c: IdleManager.Config, start: int, m: State, step: TtyStep, s: int, maxAge: int)
    requires c.idleTimeout > 0 && Bounded(c, m, Bound(c, start, s, maxAge)) && TtyEnabled(m, step, s, maxAge)
    ensures Bounded(c, TtyApply(c, m, step), Bound(c, start, s, maxAge))
  {
    var bound, m' := Bound(c, start, s, maxAge), TtyApply(c, m, step);
    if Attempted(m, bound) {
      AttemptedStays(m, m', bound);
    } else if step.TtyScan? {
      if step.taken {
        ScanFindsNothingLate(step.look, m.now, s, maxAge);
        DrainIff(m.timer, m.now + c.idleTimeout);
      }
    } else if step.event.Fire? {
      assert m'.log[|m.log|] == Attempt(m.now);
    }
  }

  lemma {:induction false} BoundedRun(c: IdleManager.Config, start: int, steps: seq<TtyStep>, s: int, maxAge: int)
    requires c.idleTimeout > 0 && TtyRun(c, start, steps, s, maxAge).Some?
    ensures Bounded(c, TtyRun(c, start, steps, s, maxAge).value, Bound(c, start, s, maxAge))
  {
    if steps != [] {
      hide Bounded, TtyEnabled, TtyApply;
      BoundedRun(c, start, steps[..|steps| - 1], s, maxAge);
      BoundedStep(c, start, TtyRun(c, start, steps[..|steps| - 1], s, maxAge).value, steps[|steps| - 1], s, maxAge);
    }
  }

  /**
    With only the tty source reporting, and all watched processes of known
    age and started by `s`: once time has passed the later of the manager's
    start and `s` plus the maximum age, by an idle timeout, an attempt to stop
    the workspace has been made, and no later than that.
   */
  lemma OldWorkIsStopped(c: IdleManager.Config, start: int, steps: seq<TtyStep>, s: int, maxAge: int)
    requires c.idleTimeout > 0 && TtyRun(c, start, steps, s, maxAge).Some?
    requires TtyRun(c, start, steps, s, maxAge).value.now > Max(start, s + maxAge) + c.idleTimeout
    ensures var log := TtyRun(c, start, steps, s, maxAge).value.log;
            exists i :: 0 <= i < |log| && log[i].Attempt? && log[i].at <= Max(start, s + maxAge) + c.idleTimeout
  {
    BoundedRun(c, start, steps, s, maxAge);
  }
}

/**
  The CLI watcher's configuration: defaults that follow from the idle timeout,
  admin ceilings, and a file that is reloaded while the watcher runs.
  Durations are nanoseconds.
 */
module WatcherConfig {
  import opened Wrappers
  import opened Durations
  import opened Text

  const DEFAULT_CHECK_PERIOD := 60 * SECOND
  const DEFAULT_ACTIVITY_WINDOW := 25 * MINUTE
  const DEFAULT_GRACE_PERIOD := 5 * MINUTE
  const DEFAULT_MAX_PROCESS_AGE := 6 * HOUR
  const MIN_ACTIVITY_WINDOW := 2 * MINUTE
  const MIN_GRACE_PERIOD := MINUTE
  const MIN_CHECK_PERIOD := 10 * SECOND
  const SAFETY_BUFFER := 5 * MINUTE
  const MAX_CHECK_PERIOD := 10 * MINUTE

  function Min(a: int, b: int): int {
    if a < b then a else b
  }

  function Max(a: int, b: int): int {
    if a < b then b else a
  }

  // ----- durations

  /** A duration as written: absent, or a text with what the duration parser and the integer parser say of it. */
  datatype Written = Unset | Text(asDuration: Option<int>, asInteger: Option<int>)

  datatype Field = CheckPeriod | ActivityWindow | GracePeriod | MaxProcessAge | OtherField

  function MaxAllowed(f: Field): int {
    match f
    case CheckPeriod => HOUR
    case ActivityWindow => 24 * HOUR
    case GracePeriod => HOUR
    case MaxProcessAge => 7 * 24 * HOUR
    case OtherField => 24 * HOUR
  }

  // What the two parsers make of a text; an integer counts seconds, up to about 292 years.
  function Meant(w: Written): Option<int> {
    match w
    case Unset => None
    case Text(Some(d), _) => Some(d)
    case Text(None, Some(n)) => if 0 < n <= 9223372036 then Some(n * SECOND) else None
    case Text(None, None) => None
  }

  /** parseDuration: the default replaces what is absent, unreadable, not positive or above the field's maximum. */
  function ParseDuration(w: Written, f: Field, default: int): (d: int)
    ensures Meant(w).Some? && 0 < Meant(w).value <= MaxAllowed(f) ==> d == Meant(w).value
    ensures Meant(w).None? || Meant(w).value <= 0 || Meant(w).value > MaxAllowed(f) ==> d == default
  {
    match Meant(w)
    case None => default
    case Some(d) => if d <= 0 || d > MaxAllowed(f) then default else d
  }

  // A product of durations wraps around in 64 bits.
  function Wrap64(n: int): (r: int)
    ensures -0x8000_0000_0000_0000 <= r < 0x8000_0000_0000_0000
    ensures -0x8000_0000_0000_0000 <= n < 0x8000_0000_0000_0000 ==> r == n
  {
    (n + 0x8000_0000_0000_0000) % 0x1_0000_0000_0000_0000 - 0x8000_0000_0000_0000
  }

  // ----- the configuration

  datatype WatchedCommand = WatchedCommand(name: string, interactive: string, forceWatch: string)

  const DEFAULT_INTERACTIVE_MODE := "no"

  predicate ForceWatchEnabled(mode: string) {
    mode == "true" || mode == "yes"
  }

  datatype Config = Config(
    watchedCommands: seq<WatchedCommand>,
    ignoredCommands: seq<string>,
    checkPeriodSeconds: int,
    checkPeriod: Written,
    activityWindow: Written,
    gracePeriod: Written,
    maxProcessAge: Written,
    enabled: bool,
    lastModTime: int,
    checkPeriodParsed: int,
    activityWindowParsed: int,
    gracePeriodParsed: int,
    maxProcessAgeParsed: int,
    fromFile: bool,
    verbose: bool)

  // The zero value; no modification time is as early as this one's.
  const ZERO := Config([], [], 0, Unset, Unset, Unset, Unset, false, 0, 0, 0, 0, 0, false, false)

  /** What the administrator sets in the environment. */
  datatype EnvConfig = EnvConfig(
    enabled: Option<bool>,
    checkPeriod: Option<int>,
    activityWindow: Option<int>,
    gracePeriod: Option<int>,
    maxProcessAge: Option<int>,
    verbose: Option<bool>)

  /** An admin duration from its environment variable: only what is readable, positive and at most a day counts. */
  function AdminDuration(w: Written): (r: Option<int>)
    ensures r.Some? ==> 0 < r.value <= 24 * HOUR && Meant(w) == r
    ensures r.None? ==> Meant(w).None? || Meant(w).value <= 0 || Meant(w).value > 24 * HOUR
  {
    var d := ParseDuration(w, OtherField, 0);
    if d > 0 then Some(d) else None
  }

  // ----- defaults

  function MaxCheckPeriod(idle: int): int {
    if idle > 0 then Min(idle / 4, MAX_CHECK_PERIOD) else MAX_CHECK_PERIOD
  }

  function WrittenCheckPeriod(c: Config): int {
    if c.checkPeriod != Unset then ParseDuration(c.checkPeriod, CheckPeriod, DEFAULT_CHECK_PERIOD)
    else if c.checkPeriodSeconds > 0 then Wrap64(c.checkPeriodSeconds * SECOND)
    else DEFAULT_CHECK_PERIOD
  }

  /** The check period is at most a quarter of the idle timeout and ten minutes, and not below ten seconds if that allows. */
  function DefaultedCheckPeriod(c: Config, idle: int): (p: int)
    ensures idle > 0 ==> Min(idle / 4, MIN_CHECK_PERIOD) <= p <= idle / 4
    ensures p <= MAX_CHECK_PERIOD
    ensures idle >= 40 * SECOND ==> p >= MIN_CHECK_PERIOD
    ensures MIN_CHECK_PERIOD <= WrittenCheckPeriod(c) <= MaxCheckPeriod(idle) ==> p == WrittenCheckPeriod(c)
    ensures p != WrittenCheckPeriod(c) ==> p == MaxCheckPeriod(idle) || (p == MIN_CHECK_PERIOD > WrittenCheckPeriod(c))
  {
    Min(Max(WrittenCheckPeriod(c), MIN_CHECK_PERIOD), MaxCheckPeriod(idle))
  }

  function DefaultedGracePeriod(c: Config, idle: int): (g: int)
    ensures g > 0
  {
    ParseDuration(c.gracePeriod, GracePeriod,
                  if c.gracePeriod == Unset && idle > 0 then
                    Max(Min(idle * 15 / 100, DEFAULT_GRACE_PERIOD), MIN_GRACE_PERIOD)
                  else DEFAULT_GRACE_PERIOD)
  }

  function SafetyBuffer(idle: int): int {
    Min(idle / 5, SAFETY_BUFFER)
  }

  function DefaultedActivityWindow(c: Config, idle: int): (w: int)
    ensures w > 0
  {
    ParseDuration(c.activityWindow, ActivityWindow,
                  if c.activityWindow == Unset && idle > 0 then
                    Max(idle - DefaultedGracePeriod(c, idle) - SafetyBuffer(idle), MIN_ACTIVITY_WINDOW)
                  else if c.activityWindow == Unset then
                    Max(DefaultedGracePeriod(c, idle) + 2 * MINUTE, DEFAULT_ACTIVITY_WINDOW)
                  else DEFAULT_ACTIVITY_WINDOW)
  }

  function WithMode(cmd: WatchedCommand): WatchedCommand {
    if cmd.interactive == "" then cmd.(interactive := DEFAULT_INTERACTIVE_MODE) else cmd
  }

  function WithModes(cmds: seq<WatchedCommand>): (r: seq<WatchedCommand>)
    ensures |r| == |cmds| && forall i :: 0 <= i < |cmds| ==> r[i] == WithMode(cmds[i])
  {
    seq(|cmds|, i requires 0 <= i < |cmds| => WithMode(cmds[i]))
  }

  function Defaulted(c: Config, idle: int): Config {
    c.(checkPeriodParsed := DefaultedCheckPeriod(c, idle),
       gracePeriodParsed := DefaultedGracePeriod(c, idle),
       activityWindowParsed := DefaultedActivityWindow(c, idle),
       maxProcessAgeParsed := ParseDuration(c.maxProcessAge, MaxProcessAge, DEFAULT_MAX_PROCESS_AGE),
       watchedCommands := WithModes(c.watchedCommands))
  }

  /**
    With nothing configured: grace period, activity window and safety buffer
    together are exactly the idle timeout, unless the window is at its floor.
    That is decided by the idle timeout alone, at 225 seconds.
   */
  lemma DefaultsFillIdleTimeout(c: Config, idle: int)
    requires idle > 0 && c.gracePeriod == Unset && c.activityWindow == Unset
    ensures var d := Defaulted(c, idle);
            && (d.gracePeriodParsed + d.activityWindowParsed + SafetyBuffer(idle) == idle ||
                d.activityWindowParsed == MIN_ACTIVITY_WINDOW)
            && (d.gracePeriodParsed + d.activityWindowParsed + SafetyBuffer(idle) == idle <==>
                idle >= 225 * SECOND - 1)
  {
    var g := DefaultedGracePeriod(c, idle);
    assert ParseDuration(Unset, GracePeriod, g) == g;
    if idle < 225 * SECOND {
      assert g == MIN_GRACE_PERIOD;
    } else if idle < 400 * SECOND {
      assert g == MIN_GRACE_PERIOD;
    } else if idle < 1500 * SECOND {
      assert g <= idle * 15 / 100 && SafetyBuffer(idle) == idle / 5;
    }
  }

  // ----- admin ceilings

  /** An admin value is a ceiling for what the file sets, and replaces what it does not set. */
  function Ceiling(noidle: bool, raw: Written, env: Option<int>, parsed: int): (r: int)
    ensures env.None? ==> r == parsed
    ensures env.Some? ==> r <= env.value && (r == parsed || r == env.value)
    ensures env.Some? && !(noidle && raw != Unset) ==> r == env.value
    ensures env.Some? && noidle && raw != Unset ==> r == Min(parsed, env.value)
  {
    match env
    case None => parsed
    case Some(e) => if noidle && raw != Unset && parsed <= e then parsed else e
  }

  function WithCeilings(c: Config, noidle: bool, env: EnvConfig): Config {
    c.(enabled := env.enabled == Some(true),
       verbose := env.verbose == Some(true),
       checkPeriodParsed := Ceiling(noidle, c.checkPeriod, env.checkPeriod, c.checkPeriodParsed),
       activityWindowParsed := Ceiling(noidle, c.activityWindow, env.activityWindow, c.activityWindowParsed),
       gracePeriodParsed := Ceiling(noidle, c.gracePeriod, env.gracePeriod, c.gracePeriodParsed),
       maxProcessAgeParsed := Ceiling(noidle, c.maxProcessAge, env.maxProcessAge, c.maxProcessAgeParsed))
  }

  // ----- globally excluded commands

  const ALWAYS_IGNORED := ["tail", "watch", "top", "htop"]

  predicate AlwaysIgnored(cmd: WatchedCommand) {
    Lower(TrimSpace(cmd.name)) in ALWAYS_IGNORED && !ForceWatchEnabled(cmd.forceWatch)
  }

  function NotIgnored(cmds: seq<WatchedCommand>): seq<WatchedCommand> {
    if cmds == [] then []
    else
      var init, last := NotIgnored(cmds[..|cmds| - 1]), cmds[|cmds| - 1];
      if AlwaysIgnored(last) then init else init + [last]
  }

  function IgnoredNames(cmds: seq<WatchedCommand>): seq<string> {
    if cmds == [] then []
    else
      var init, last := IgnoredNames(cmds[..|cmds| - 1]), cmds[|cmds| - 1];
      if AlwaysIgnored(last) then init + [last.name] else init
  }

  function WithoutExclusions(c: Config): Config {
    c.(watchedCommands := NotIgnored(c.watchedCommands),
       ignoredCommands := c.ignoredCommands + IgnoredNames(c.watchedCommands))
  }

  // ----- what a state of the file means, regardless of what came before

  datatype Content = Unreadable | Malformed | Parsed(config: Config)

  /** What one look at the configuration path finds. */
  datatype File = Absent | StatFails | Present(modTime: int, content: Content)

  datatype Setup = Setup(idleTimeout: int, env: EnvConfig)

  function DefaultConfig(u: Setup): Config {
    WithCeilings(Defaulted(ZERO, u.idleTimeout), false, u.env)
  }

  // `read` is what the file says; its internal fields are set here.
  function FileConfig(u: Setup, modTime: int, read: Config): Config {
    WithCeilings(WithoutExclusions(Defaulted(read.(lastModTime := modTime, fromFile := true), u.idleTimeout)), true, u.env)
  }

  /** The check period of every configuration that can be in force, without an admin value for it. */
  lemma CheckPeriodInForce(u: Setup, modTime: int, read: Config)
    requires u.env.checkPeriod.None? && u.idleTimeout > 0
    ensures Min(u.idleTimeout / 4, MIN_CHECK_PERIOD) <= DefaultConfig(u).checkPeriodParsed <= u.idleTimeout / 4
    ensures Min(u.idleTimeout / 4, MIN_CHECK_PERIOD) <= FileConfig(u, modTime, read).checkPeriodParsed <= u.idleTimeout / 4
  {
    hide DefaultedCheckPeriod;
  }

  /**
    With an admin value: the quarter of the idle timeout bounds the period in
    force exactly if the file sets the period, or the admin value keeps to it.
   */
  lemma PeriodWithinQuarterIff(u: Setup, modTime: int, read: Config)
    requires u.idleTimeout > 0
    ensures FileConfig(u, modTime, read).checkPeriodParsed <= u.idleTimeout / 4 <==>
            u.env.checkPeriod.None? || read.checkPeriod != Unset || u.env.checkPeriod.value <= u.idleTimeout / 4
    ensures DefaultConfig(u).checkPeriodParsed <= u.idleTimeout / 4 <==>
            u.env.checkPeriod.None? || u.env.checkPeriod.value <= u.idleTimeout / 4
  {
    hide DefaultedCheckPeriod;
    PeriodParsed(u, modTime, read);
  }

  // The check periods of the two kinds of configuration.
  lemma PeriodParsed(u: Setup, modTime: int, read: Config)
    ensures DefaultConfig(u).checkPeriodParsed ==
            Ceiling(false, Unset, u.env.checkPeriod, DefaultedCheckPeriod(ZERO, u.idleTimeout))
    ensures FileConfig(u, modTime, read).checkPeriodParsed ==
            Ceiling(true, read.checkPeriod, u.env.checkPeriod, DefaultedCheckPeriod(read, u.idleTimeout))
  {
  }

  // ----- incremental reload

  /** One call of loadConfig: the configuration afterwards, and whether it reports an error. */
  function Loaded(u: Setup, current: Option<Config>, file: File): (Option<Config>, bool) {
    match file
    case Absent =>
      if current.Some? && !current.value.fromFile then (current, false) else (Some(DefaultConfig(u)), false)
    case StatFails => (current, true)
    case Present(modTime, content) =>
      if current.Some? && modTime <= current.value.lastModTime then (current, false)
      else
        match content
        case Parsed(read) => (Some(FileConfig(u, modTime, read)), false)
        case _ => (current, true)
  }

  function Reloaded(u: Setup, history: seq<File>): Option<Config> {
    if history == [] then None
    else Loaded(u, Reloaded(u, history[..|history| - 1]), history[|history| - 1]).0
  }

  /** Reading from scratch: the defaults without a file, the file's configuration if it parses, else what was in force. */
  function FromScratch(u: Setup, history: seq<File>): Option<Config> {
    if history == [] then None
    else
      match history[|history| - 1]
      case Absent => Some(DefaultConfig(u))
      case Present(modTime, Parsed(read)) => Some(FileConfig(u, modTime, read))
      case _ => FromScratch(u, history[..|history| - 1])
  }

  predicate Parses(f: File) {
    f.Present? && f.content.Parsed?
  }

  /** Between deletions, a file that parses is either the one seen before or has a later modification time. */
  predicate Orderly(history: seq<File>) {
    && (forall j :: 0 <= j < |history| && Parses(history[j]) ==> history[j].modTime > ZERO.lastModTime)
    && forall i, j :: 0 <= i < j < |history| && Parses(history[i]) && Parses(history[j]) && Absent !in history[i..j] ==>
         history[i].modTime < history[j].modTime || history[i] == history[j]
  }

  // Where the configuration in force comes from.
  lemma {:induction false} Origin(u: Setup, h: seq<File>) returns (i: nat)
    requires FromScratch(u, h).Some?
    ensures FromScratch(u, h) == Some(DefaultConfig(u)) ||
            (i < |h| && Parses(h[i]) && Absent !in h[i..] &&
             FromScratch(u, h) == Some(FileConfig(u, h[i].modTime, h[i].content.config)))
  {
    hide DefaultConfig, FileConfig;
    var init, f := h[..|h| - 1], h[|h| - 1];
    if Parses(f) {
      i := |h| - 1;
    } else if f == Absent {
      i := 0;
    } else {
      i := Origin(u, init);
      if i < |init| {
        assert h[i..] == init[i..] + [f];
      }
    }
  }

  lemma OrderlyPrefix(h: seq<File>)
    requires h != [] && Orderly(h)
    ensures Orderly(h[..|h| - 1])
  {
    var init := h[..|h| - 1];
    forall i, j | 0 <= i < j < |init| && Parses(init[i]) && Parses(init[j]) && Absent !in init[i..j]
      ensures init[i].modTime < init[j].modTime || init[i] == init[j]
    {
      assert init[i..j] == h[i..j];
    }
  }

  lemma OrderlyLast(h: seq<File>, i: nat)
    requires Orderly(h) && i < |h| - 1 && Parses(h[i]) && Absent !in h[..|h| - 1][i..]
    ensures Parses(h[|h| - 1]) ==> h[i].modTime < h[|h| - 1].modTime || h[i] == h[|h| - 1]
  {
    assert h[i..|h| - 1] == h[..|h| - 1][i..];
  }

  lemma OrderlyPositive(h: seq<File>)
    requires Orderly(h) && h != [] && Parses(h[|h| - 1])
    ensures h[|h| - 1].modTime > ZERO.lastModTime
  {
  }

  lemma ConfigMarks(u: Setup, modTime: int, read: Config)
    ensures !DefaultConfig(u).fromFile && DefaultConfig(u).lastModTime == ZERO.lastModTime
    ensures FileConfig(u, modTime, read).fromFile && FileConfig(u, modTime, read).lastModTime == modTime
  {
  }

  // One more look, when the configuration in force is the one read from scratch.
  lemma ReloadStep(u: Setup, h: seq<File>)
    requires Orderly(h) && h != []
    ensures Loaded(u, FromScratch(u, h[..|h| - 1]), h[|h| - 1]).0 == FromScratch(u, h)
  {
    hide DefaultConfig, FileConfig, Orderly;
    var init, f := h[..|h| - 1], h[|h| - 1];
    if FromScratch(u, init).Some? {
      var i := Origin(u, init);
      ConfigMarks(u, 0, ZERO);
      if FromScratch(u, init) != Some(DefaultConfig(u)) {
        ConfigMarks(u, h[i].modTime, h[i].content.config);
        OrderlyLast(h, i);
      }
      if Parses(f) {
        OrderlyPositive(h);
      }
    }
  }

  /**
    Over every history of edits, parse failures, deletions and failed looks
    with orderly modification times, reloading incrementally gives after each
    cycle what reading from scratch gives.
   */
  lemma {:induction false} ReloadIsFromScratch(u: Setup, h: seq<File>)
    requires Orderly(h)
    ensures Reloaded(u, h) == FromScratch(u, h)
  {
    if h != [] {
      hide FromScratch, Loaded, Orderly;
      OrderlyPrefix(h);
      ReloadIsFromScratch(u, h[..|h| - 1]);
      ReloadStep(u, h);
    }
  }

  /** Two files that come to the same: equal durations, and the same commands watched and ignored in the end. */
  predicate SameSettings(a: Config, b: Config) {
    && a.checkPeriod == b.checkPeriod && a.checkPeriodSeconds == b.checkPeriodSeconds
    && a.activityWindow == b.activityWindow && a.gracePeriod == b.gracePeriod && a.maxProcessAge == b.maxProcessAge
    && NotIgnored(WithModes(a.watchedCommands)) == NotIgnored(WithModes(b.watchedCommands))
    && a.ignoredCommands + IgnoredNames(WithModes(a.watchedCommands)) ==
       b.ignoredCommands + IgnoredNames(WithModes(b.watchedCommands))
  }

  /**
    A look at a file that parses puts it in force exactly if its time is later
    than that of the file before it, or the times are equal and the two come to
    the same; in place of the defaults, if its time is later than the zero time.
   */
  lemma StaleIff(u: Setup, m0: int, read0: Config, m1: int, read1: Config)
    ensures Loaded(u, Some(FileConfig(u, m0, read0)), Present(m1, Parsed(read1))).0 == Some(FileConfig(u, m1, read1)) <==>
            m1 > m0 || (m1 == m0 && SameSettings(read0, read1))
    ensures Loaded(u, Some(DefaultConfig(u)), Present(m1, Parsed(read1))).0 == Some(FileConfig(u, m1, read1)) <==>
            m1 > ZERO.lastModTime
  {
    hide DefaultedCheckPeriod, DefaultedGracePeriod, DefaultedActivityWindow, ParseDuration, NotIgnored, IgnoredNames;
    SettingsDecide(u, m0, read0, read1);
    ConfigMarks(u, m0, read0);
    ConfigMarks(u, m1, read1);
  }

  lemma SettingsDecide(u: Setup, modTime: int, a: Config, b: Config)
    ensures FileConfig(u, modTime, a) == FileConfig(u, modTime, b) <==> SameSettings(a, b)
  {
    hide NotIgnored, IgnoredNames, WithModes, ParseDuration;
  }

  // ----- the watcher as the program has it

  class CliWatcher {
    const setup: Setup
    var config: Option<Config>
    var warnedMissingConfig: bool
    // The period of the ticker, in seconds.
    var chkPeriod: int

    constructor (setup: Setup)
      ensures this.setup == setup && config == None && !warnedMissingConfig
    {
      this.setup, config, warnedMissingConfig, chkPeriod := setup, None, false, 0;
    }

    method ApplyDefaults(c: Config, idleTimeout: int) returns (r: Config)
      ensures r == Defaulted(c, idleTimeout)
    {
      hide DefaultedCheckPeriod, DefaultedGracePeriod, DefaultedActivityWindow, ParseDuration, WithMode;
      var checkPeriod := ParseCheckPeriod(c, idleTimeout);
      var gracePeriod := ParseGracePeriod(c, idleTimeout);
      var activityWindow := ParseActivityWindow(c, idleTimeout, gracePeriod);
      var cmds := c.watchedCommands;
      var i := 0;
      while i < |cmds|
        invariant 0 <= i <= |cmds| == |c.watchedCommands|
        invariant forall j :: 0 <= j < |cmds| ==>
                    cmds[j] == if j < i then WithMode(c.watchedCommands[j]) else c.watchedCommands[j]
      {
        cmds := cmds[i := WithMode(cmds[i])];
        i := i + 1;
      }
      r := c.(checkPeriodParsed := checkPeriod, gracePeriodParsed := gracePeriod, activityWindowParsed := activityWindow,
              maxProcessAgeParsed := ParseDuration(c.maxProcessAge, MaxProcessAge, DEFAULT_MAX_PROCESS_AGE),
              watchedCommands := cmds);
      assert cmds == Defaulted(c, idleTimeout).watchedCommands;
    }

    method ParseCheckPeriod(c: Config, idleTimeout: int) returns (parsed: int)
      ensures parsed == DefaultedCheckPeriod(c, idleTimeout)
    {
      if c.checkPeriod != Unset {
        parsed := ParseDuration(c.checkPeriod, CheckPeriod, DEFAULT_CHECK_PERIOD);
      } else if c.checkPeriodSeconds > 0 {
        parsed := Wrap64(c.checkPeriodSeconds * SECOND);
      } else {
        parsed := DEFAULT_CHECK_PERIOD;
      }
      if parsed < MIN_CHECK_PERIOD {
        parsed := MIN_CHECK_PERIOD;
      }
      var maxCheckPeriod := MAX_CHECK_PERIOD;
      if idleTimeout > 0 {
        maxCheckPeriod := idleTimeout / 4;
        if maxCheckPeriod > MAX_CHECK_PERIOD {
          maxCheckPeriod := MAX_CHECK_PERIOD;
        }
      }
      if parsed > maxCheckPeriod {
        parsed := maxCheckPeriod;
      }
    }

    method ParseGracePeriod(c: Config, idleTimeout: int) returns (parsed: int)
      ensures parsed == DefaultedGracePeriod(c, idleTimeout)
    {
      var gracePeriodDefault := DEFAULT_GRACE_PERIOD;
      if c.gracePeriod == Unset && idleTimeout > 0 {
        gracePeriodDefault := idleTimeout * 15 / 100;
        if gracePeriodDefault > DEFAULT_GRACE_PERIOD {
          gracePeriodDefault := DEFAULT_GRACE_PERIOD;
        }
        if gracePeriodDefault < MIN_GRACE_PERIOD {
          gracePeriodDefault := MIN_GRACE_PERIOD;
        }
      }
      parsed := ParseDuration(c.gracePeriod, GracePeriod, gracePeriodDefault);
    }

    method ParseActivityWindow(c: Config, idleTimeout: int, gracePeriod: int) returns (parsed: int)
      requires gracePeriod == DefaultedGracePeriod(c, idleTimeout)
      ensures parsed == DefaultedActivityWindow(c, idleTimeout)
    {
      var activityWindowDefault := DEFAULT_ACTIVITY_WINDOW;
      if c.activityWindow == Unset && idleTimeout > 0 {
        var buffer := idleTimeout / 5;
        if buffer > SAFETY_BUFFER {
          buffer := SAFETY_BUFFER;
        }
        var calculated := idleTimeout - gracePeriod - buffer;
        activityWindowDefault := if calculated < MIN_ACTIVITY_WINDOW then MIN_ACTIVITY_WINDOW else calculated;
      } else if c.activityWindow == Unset && gracePeriod > 0 {
        activityWindowDefault := gracePeriod + 2 * MINUTE;
        if activityWindowDefault < DEFAULT_ACTIVITY_WINDOW {
          activityWindowDefault := DEFAULT_ACTIVITY_WINDOW;
        }
      }
      parsed := ParseDuration(c.activityWindow, ActivityWindow, activityWindowDefault);
    }

    method IgnoreExclusions(c: Config) returns (r: Config)
      ensures r == WithoutExclusions(c)
    {
      var filtered: seq<WatchedCommand>, ignored: seq<string> := [], [];
      var i := 0;
      while i < |c.watchedCommands|
        invariant 0 <= i <= |c.watchedCommands|
        invariant filtered == NotIgnored(c.watchedCommands[..i])
        invariant ignored == IgnoredNames(c.watchedCommands[..i])
      {
        var cmd := c.watchedCommands[i];
        assert c.watchedCommands[..i + 1][..i] == c.watchedCommands[..i];
        if Lower(TrimSpace(cmd.name)) in ALWAYS_IGNORED && !ForceWatchEnabled(cmd.forceWatch) {
          ignored := ignored + [cmd.name];
        } else {
          filtered := filtered + [cmd];
        }
        i := i + 1;
      }
      assert c.watchedCommands[..i] == c.watchedCommands;
      r := c.(watchedCommands := filtered, ignoredCommands := c.ignoredCommands + ignored);
    }

    method ApplyEnvCeilings(c: Config, noidle: bool) returns (r: Config)
      ensures r == WithCeilings(c, noidle, setup.env)
    {
      var env := setup.env;
      r := c.(enabled := env.enabled.Some? && env.enabled.value);
      r := r.(verbose := env.verbose.Some? && env.verbose.value);
      r := r.(checkPeriodParsed := Ceiling(noidle, c.checkPeriod, env.checkPeriod, c.checkPeriodParsed));
      r := r.(activityWindowParsed := Ceiling(noidle, c.activityWindow, env.activityWindow, c.activityWindowParsed));
      r := r.(gracePeriodParsed := Ceiling(noidle, c.gracePeriod, env.gracePeriod, c.gracePeriodParsed));
      r := r.(maxProcessAgeParsed := Ceiling(noidle, c.maxProcessAge, env.maxProcessAge, c.maxProcessAgeParsed));
    }

    /** A missing file is reported once until it appears. */
    method LoadConfig(file: File) returns (failed: bool)
      modifies `config, `warnedMissingConfig
      ensures (config, failed) == Loaded(setup, old(config), file)
      ensures warnedMissingConfig ==
              if file.Present? then false
              else old(warnedMissingConfig) || (file.Absent? && !(old(config).Some? && old(config).value.fromFile))
    {
      if file.Absent? {
        if !(config.Some? && config.value.fromFile) && !warnedMissingConfig {
          warnedMissingConfig := true;
        }
        if config.Some? && !config.value.fromFile {
          return false;
        }
        var defaultCfg := ApplyDefaults(ZERO, setup.idleTimeout);
        defaultCfg := ApplyEnvCeilings(defaultCfg, false);
        config := Some(defaultCfg);
        return false;
      }
      if file.StatFails? {
        return true;
      }
      warnedMissingConfig := false;
      if config.Some? && !(file.modTime > config.value.lastModTime) {
        return false;
      }
      if !file.content.Parsed? {
        return true;
      }
      var newCfg := file.content.config.(lastModTime := file.modTime, fromFile := true);
      newCfg := ApplyDefaults(newCfg, setup.idleTimeout);
      newCfg := IgnoreExclusions(newCfg);
      newCfg := ApplyEnvCeilings(newCfg, true);
      config := Some(newCfg);
      return false;
    }

    /** The first load, which decides the ticker's first period. */
    method FirstPeriod(file: File)
      modifies this
      ensures config == Loaded(setup, old(config), file).0
      ensures chkPeriod == InitialPeriod(config)
    {
      var failed := LoadConfig(file);
      chkPeriod := DEFAULT_CHECK_PERIOD / SECOND;
      if config.Some? && config.value.checkPeriodParsed > 0 {
        chkPeriod := config.value.checkPeriodParsed / SECOND;
      }
    }

    /**
      One delivery of the ticker. `active` is what each source's scan would
      find; `tick` whether an activity is reported, `restart` whether the ticker starts anew.
     */
    method OnTicker(file: File, active: seq<bool>) returns (tick: bool, restart: bool)
      modifies this
      ensures config == Loaded(setup, old(config), file).0
      ensures chkPeriod == NextPeriod(config, old(chkPeriod)) && (restart <==> chkPeriod != old(chkPeriod))
      ensures tick <==> config.Some? && config.value.enabled && true in active
    {
      tick, restart := false, false;
      var failed := LoadConfig(file);
      if config.None? || !config.value.enabled {
        if chkPeriod != DEFAULT_CHECK_PERIOD / SECOND {
          chkPeriod := DEFAULT_CHECK_PERIOD / SECOND;
          restart := true;
        }
        return;
      }
      var newPeriod := Seconds(config.value.checkPeriodParsed);
      if newPeriod > 0 && newPeriod != chkPeriod {
        chkPeriod := newPeriod;
        restart := true;
      }
      var i := 0;
      while i < |active|
        invariant 0 <= i <= |active| && !tick && true !in active[..i]
      {
        if active[i] {
          assert active[i] in active;
          tick := true;
          return;
        }
        i := i + 1;
      }
      assert active[..i] == active;
    }
  }

  // int(d.Seconds()), which truncates towards zero.
  function Seconds(d: int): int {
    if d >= 0 then d / SECOND else -(-d / SECOND)
  }

  /** The first period: the whole seconds of the configured one, or a minute without one. */
  function InitialPeriod(config: Option<Config>): (p: int)
    ensures config.None? || config.value.checkPeriodParsed <= 0 ==> p == 60
    ensures config.Some? && config.value.checkPeriodParsed > 0 ==>
              p * SECOND <= config.value.checkPeriodParsed < (p + 1) * SECOND
  {
    if config.Some? && config.value.checkPeriodParsed > 0 then config.value.checkPeriodParsed / SECOND
    else DEFAULT_CHECK_PERIOD / SECOND
  }

  /** The period after a delivery: a minute while switched off, else the whole seconds of the configured one, if it has any. */
  function NextPeriod(config: Option<Config>, chkPeriod: int): (p: int)
    ensures config.None? || !config.value.enabled ==> p == 60
    ensures config.Some? && config.value.enabled && config.value.checkPeriodParsed >= SECOND ==>
              p * SECOND <= config.value.checkPeriodParsed < (p + 1) * SECOND
    ensures config.Some? && config.value.enabled && config.value.checkPeriodParsed < SECOND ==> p == chkPeriod
  {
    if config.None? || !config.value.enabled then DEFAULT_CHECK_PERIOD / SECOND
    else if Seconds(config.value.checkPeriodParsed) > 0 then Seconds(config.value.checkPeriodParsed)
    else chkPeriod
  }

  // A duration of less than a second, which the ticker's period in seconds rounds down to nothing.
  predicate RoundsToNothing(d: int) {
    0 < d < SECOND
  }

  /**
    time.NewTicker panics on a period that is not positive. That of the first
    ticker is, exactly if one of two durations rounds down to nothing: the
    quarter of the idle timeout, unless an admin value replaces it, or the admin
    value, unless the file sets a period and the quarter is zero already.
   */
  predicate PanicsAtStart(u: Setup, fileSets: bool) {
    var quarter := u.idleTimeout / 4;
    match u.env.checkPeriod
    case None => RoundsToNothing(quarter)
    case Some(admin) =>
      if !fileSets then RoundsToNothing(admin)
      else admin > 0 && (RoundsToNothing(quarter) || (RoundsToNothing(admin) && !(0 < u.idleTimeout < 4)))
  }

  lemma PositivePeriodIff(d: int)
    ensures InitialPeriod(None) > 0
    ensures forall c: Config :: c.checkPeriodParsed == d ==> (InitialPeriod(Some(c)) > 0 <==> !RoundsToNothing(d))
  {
  }

  // The defaulted period rounds down to nothing exactly if the quarter of the idle timeout does.
  lemma DefaultedRounds(c: Config, idle: int)
    ensures RoundsToNothing(DefaultedCheckPeriod(c, idle)) <==> RoundsToNothing(idle / 4)
    ensures DefaultedCheckPeriod(c, idle) <= 0 <==> 0 < idle < 4
    ensures idle <= 0 ==> DefaultedCheckPeriod(c, idle) >= SECOND
  {
  }

  /** Whatever the first look finds, the ticker can be started exactly if that does not hold, or there is no configuration. */
  lemma FirstTickerStartsIff(u: Setup, file: File)
    ensures InitialPeriod(Loaded(u, None, file).0) > 0 <==>
            !((file.Absent? || Parses(file)) &&
              PanicsAtStart(u, Parses(file) && file.content.config.checkPeriod != Unset))
  {
    hide InitialPeriod, DefaultedCheckPeriod;
    var read := if Parses(file) then file.content.config else ZERO;
    var modTime := if Parses(file) then file.modTime else 0;
    PeriodParsed(u, modTime, read);
    DefaultedRounds(ZERO, u.idleTimeout);
    DefaultedRounds(read, u.idleTimeout);
    PositivePeriodIff(DefaultConfig(u).checkPeriodParsed);
    PositivePeriodIff(FileConfig(u, modTime, read).checkPeriodParsed);
  }

  /** Half a second is an admin period that the environment parser accepts and the ticker cannot be started with. */
  lemma HalfSecondPanics(u: Setup)
    requires u.env.checkPeriod == AdminDuration(Text(Some(SECOND / 2), None))
    ensures InitialPeriod(Loaded(u, None, Absent).0) == 0
  {
    hide DefaultedCheckPeriod;
    PeriodParsed(u, 0, ZERO);
  }
}

/** What a configuration in force says, field by field, in terms of the file, the idle timeout and the admin's values. */
module InForce {
  import opened Wrappers
  import opened Durations
  import opened Text
  import opened WatcherConfig

  // ----- the four durations

  function Within(d: int, maximum: int, fallback: int): int {
    if 0 < d <= maximum then d else fallback
  }

  /**
    What the file's text comes to: a duration, or else a number of seconds of up
    to 292 years; the field's fixed default if that is not positive or above `maximum`.
   */
  predicate SetTo(w: Written, maximum: int, fallback: int, value: int) {
    if w.Text? && w.asDuration.Some? then value == Within(w.asDuration.value, maximum, fallback)
    else if w.Text? && w.asInteger.Some? && 0 < w.asInteger.value <= 9223372036 then
      value == Within(w.asInteger.value * 1_000_000_000, maximum, fallback)
    else value == fallback
  }

  /** The admin's value replaces what the file does not set, and caps what it sets. */
  predicate Admitted(admin: Option<int>, written: bool, value: int, result: int) {
    match admin
    case None => result == value
    case Some(a) => if written then result <= a && result <= value && (result == a || result == value) else result == a
  }

  // 15% of the idle timeout, between one minute and five.
  predicate GraceDefault(idle: int, g: int) {
    if idle <= 0 then g == 5 * MINUTE
    else
      var share := idle * 15 / 100;
      MINUTE <= g <= 5 * MINUTE && (g == share || (g == MINUTE > share) || (g == 5 * MINUTE < share))
  }

  // What grace period and a buffer of 20%, up to five minutes, leave of the idle timeout, but two minutes at least.
  predicate WindowDefault(idle: int, grace: int, w: int) {
    if idle <= 0 then w >= 25 * MINUTE && w >= grace + 2 * MINUTE && (w == 25 * MINUTE || w == grace + 2 * MINUTE)
    else
      var buffer := if idle / 5 <= 5 * MINUTE then idle / 5 else 5 * MINUTE;
      w >= 2 * MINUTE && w >= idle - grace - buffer && (w == 2 * MINUTE || w == idle - grace - buffer)
  }

  /** The grace period that file and idle timeout give. */
  predicate GraceFrom(read: Config, idle: int, g: int) {
    if read.gracePeriod == Unset then GraceDefault(idle, g) else SetTo(read.gracePeriod, 60 * MINUTE, 5 * MINUTE, g)
  }

  ghost predicate WindowFrom(read: Config, idle: int, w: int) {
    if read.activityWindow == Unset then exists g :: GraceFrom(read, idle, g) && WindowDefault(idle, g, w)
    else SetTo(read.activityWindow, 24 * HOUR, 25 * MINUTE, w)
  }

  predicate MaxAgeFrom(read: Config, a: int) {
    if read.maxProcessAge == Unset then a == 6 * HOUR else SetTo(read.maxProcessAge, 168 * HOUR, 6 * HOUR, a)
  }

  // What is written of the check period: its text, else the old field in seconds if that is positive, else a minute.
  predicate CheckWritten(read: Config, p: int) {
    if read.checkPeriod != Unset then SetTo(read.checkPeriod, HOUR, MINUTE, p)
    else if read.checkPeriodSeconds > 0 then p == Wrap64(read.checkPeriodSeconds * SECOND)
    else p == MINUTE
  }

  // Raised to ten seconds, then lowered to a quarter of the idle timeout and to ten minutes.
  predicate CheckBounded(idle: int, written: int, p: int) {
    var raised := if written < 10 * SECOND then 10 * SECOND else written;
    && p <= raised && p <= 10 * MINUTE && (idle > 0 ==> p <= idle / 4)
    && (p == raised || p == 10 * MINUTE || (idle > 0 && p == idle / 4))
  }

  ghost predicate CheckFrom(read: Config, idle: int, p: int) {
    exists written :: CheckWritten(read, written) && CheckBounded(idle, written, p)
  }

  lemma GraceIs(read: Config, idle: int)
    ensures GraceFrom(read, idle, DefaultedGracePeriod(read, idle))
  {
  }

  lemma WindowIs(read: Config, idle: int)
    ensures WindowFrom(read, idle, DefaultedActivityWindow(read, idle))
  {
    hide DefaultedGracePeriod, GraceFrom;
    GraceIs(read, idle);
    if read.activityWindow == Unset {
      assert WindowDefault(idle, DefaultedGracePeriod(read, idle), DefaultedActivityWindow(read, idle));
    }
  }

  lemma CheckIs(read: Config, idle: int)
    ensures CheckFrom(read, idle, DefaultedCheckPeriod(read, idle))
  {
    hide Wrap64;
    assert CheckWritten(read, WrittenCheckPeriod(read));
  }

  /** What the file and the idle timeout give is one value for each field. */
  lemma FromUnique(read: Config, idle: int, a: int, b: int)
    ensures GraceFrom(read, idle, a) && GraceFrom(read, idle, b) ==> a == b
    ensures WindowFrom(read, idle, a) && WindowFrom(read, idle, b) ==> a == b
    ensures CheckFrom(read, idle, a) && CheckFrom(read, idle, b) ==> a == b
    ensures MaxAgeFrom(read, a) && MaxAgeFrom(read, b) ==> a == b
  {
    hide Wrap64;
  }

  /**
    Each of the four durations of a file's configuration: the one value that its
    own text or default gives, under its own admin value.
   */
  lemma FileDurations(u: Setup, modTime: int, read: Config)
    ensures var c, idle := FileConfig(u, modTime, read), u.idleTimeout;
            && (exists check :: CheckFrom(read, idle, check) &&
                  Admitted(u.env.checkPeriod, read.checkPeriod != Unset, check, c.checkPeriodParsed))
            && (exists window :: WindowFrom(read, idle, window) &&
                  Admitted(u.env.activityWindow, read.activityWindow != Unset, window, c.activityWindowParsed))
            && (exists grace :: GraceFrom(read, idle, grace) &&
                  Admitted(u.env.gracePeriod, read.gracePeriod != Unset, grace, c.gracePeriodParsed))
            && (exists age :: MaxAgeFrom(read, age) &&
                  Admitted(u.env.maxProcessAge, read.maxProcessAge != Unset, age, c.maxProcessAgeParsed))
  {
    hide CheckFrom, WindowFrom, GraceFrom, MaxAgeFrom, WithModes;
    hide DefaultedCheckPeriod, DefaultedGracePeriod, DefaultedActivityWindow, ParseDuration;
    CheckIs(read, u.idleTimeout);
    WindowIs(read, u.idleTimeout);
    GraceIs(read, u.idleTimeout);
    MaxAgeIs(read);
    DefaultedFields(read, modTime, u.idleTimeout);
  }

  lemma MaxAgeIs(read: Config)
    ensures MaxAgeFrom(read, ParseDuration(read.maxProcessAge, MaxProcessAge, DEFAULT_MAX_PROCESS_AGE))
  {
  }

  // The fields that are set for a file do not matter to its durations.
  lemma DefaultedFields(read: Config, modTime: int, idle: int)
    ensures var r := read.(lastModTime := modTime, fromFile := true);
            && DefaultedCheckPeriod(r, idle) == DefaultedCheckPeriod(read, idle)
            && DefaultedActivityWindow(r, idle) == DefaultedActivityWindow(read, idle)
            && DefaultedGracePeriod(r, idle) == DefaultedGracePeriod(read, idle)
  {
  }

  /** Without a file: the admin's value, or the default that follows from the idle timeout. */
  lemma DefaultDurations(u: Setup)
    ensures var c, env := DefaultConfig(u), u.env;
            && (if env.checkPeriod.Some? then env.checkPeriod == Some(c.checkPeriodParsed)
                else CheckBounded(u.idleTimeout, MINUTE, c.checkPeriodParsed))
            && (if env.gracePeriod.Some? then env.gracePeriod == Some(c.gracePeriodParsed)
                else GraceDefault(u.idleTimeout, c.gracePeriodParsed))
            && (if env.activityWindow.Some? then env.activityWindow == Some(c.activityWindowParsed)
                else exists g :: GraceDefault(u.idleTimeout, g) && WindowDefault(u.idleTimeout, g, c.activityWindowParsed))
            && c.maxProcessAgeParsed == if env.maxProcessAge.Some? then env.maxProcessAge.value else 6 * HOUR
  {
    var idle := u.idleTimeout;
    CheckIs(ZERO, idle);
    WindowIs(ZERO, idle);
    GraceIs(ZERO, idle);
    hide DefaultedCheckPeriod, DefaultedGracePeriod, DefaultedActivityWindow;
    assert exists g :: GraceFrom(ZERO, idle, g) && WindowDefault(idle, g, DefaultedActivityWindow(ZERO, idle));
  }

  // ----- the other fields

  /** The admin switches watcher and verbose logging on; the file cannot. */
  lemma Switches(u: Setup, modTime: int, read: Config)
    ensures forall c | c == DefaultConfig(u) || c == FileConfig(u, modTime, read) ::
              (c.enabled <==> u.env.enabled == Some(true)) && (c.verbose <==> u.env.verbose == Some(true))
  {
  }

  /** A command of the file that is globally excluded, and not forced to be watched. */
  predicate Excluded(cmd: WatchedCommand) {
    var name := Lower(TrimSpace(cmd.name));
    && (name == "tail" || name == "watch" || name == "top" || name == "htop")
    && cmd.forceWatch != "true" && cmd.forceWatch != "yes"
  }

  // An empty mode means "no".
  predicate Moded(cmd: WatchedCommand, m: WatchedCommand) {
    && m.name == cmd.name && m.forceWatch == cmd.forceWatch
    && m.interactive == if cmd.interactive == "" then "no" else cmd.interactive
  }

  /** `at` gives for each element the index it comes from, in order, and no index that is wanted is left out. */
  ghost predicate Selects(at: seq<nat>, n: nat, wanted: int -> bool) {
    && (forall j :: 0 <= j < |at| ==> at[j] < n && wanted(at[j]))
    && (forall i, j :: 0 <= i < j < |at| ==> at[i] < at[j])
    && (forall i: nat :: i < n && wanted(i) ==> i in at)
  }

  ghost predicate Taken(cmds: seq<WatchedCommand>, ms: seq<WatchedCommand>, at: seq<nat>) {
    && |at| == |ms| && (forall j :: 0 <= j < |at| ==> at[j] < |cmds|)
    && (forall j :: 0 <= j < |at| ==> Moded(cmds[at[j]], ms[j]))
  }

  ghost predicate NamesTaken(cmds: seq<WatchedCommand>, names: seq<string>, at: seq<nat>) {
    && |at| == |names| && (forall j :: 0 <= j < |at| ==> at[j] < |cmds|)
    && (forall j :: 0 <= j < |at| ==> names[j] == cmds[at[j]].name)
  }

  lemma ModeKeepsExclusion(cmd: WatchedCommand)
    ensures AlwaysIgnored(WithMode(cmd)) <==> Excluded(cmd)
    ensures Moded(cmd, WithMode(cmd))
  {
    hide Lower, TrimSpace;
  }

  // One more element, at the end.
  lemma SelectsSnoc(at: seq<nat>, n: nat, wanted: int -> bool)
    requires Selects(at, n, wanted)
    ensures Selects(if wanted(n) then at + [n] else at, n + 1, wanted)
  {
    var longer := at + [n];
    assert forall i :: i in at ==> i in longer;
    assert longer[|at|] == n;
  }

  lemma TakenSnoc(all: seq<WatchedCommand>, ms: seq<WatchedCommand>, at: seq<nat>, i: nat, m: WatchedCommand)
    requires Taken(all, ms, at) && i < |all| && Moded(all[i], m)
    ensures Taken(all, ms + [m], at + [i])
  {
  }

  lemma NamesTakenSnoc(all: seq<WatchedCommand>, names: seq<string>, at: seq<nat>, i: nat)
    requires NamesTaken(all, names, at) && i < |all|
    ensures NamesTaken(all, names + [all[i].name], at + [i])
  {
  }

  // The two lists of a longer list of commands.
  lemma ExclusionsSnoc(cmds: seq<WatchedCommand>)
    requires cmds != []
    ensures var init, last := cmds[..|cmds| - 1], cmds[|cmds| - 1];
            && Moded(last, WithMode(last))
            && NotIgnored(WithModes(cmds)) ==
               (if Excluded(last) then NotIgnored(WithModes(init)) else NotIgnored(WithModes(init)) + [WithMode(last)])
            && IgnoredNames(WithModes(cmds)) ==
               if Excluded(last) then IgnoredNames(WithModes(init)) + [last.name] else IgnoredNames(WithModes(init))
  {
    hide AlwaysIgnored, Excluded;
    ModeKeepsExclusion(cmds[|cmds| - 1]);
    assert WithModes(cmds)[..|cmds| - 1] == WithModes(cmds[..|cmds| - 1]);
  }

  lemma {:induction false} WatchedTaken(cmds: seq<WatchedCommand>, all: seq<WatchedCommand>) returns (at: seq<nat>)
    requires cmds <= all
    ensures Taken(all, NotIgnored(WithModes(cmds)), at)
    ensures Selects(at, |cmds|, i => 0 <= i < |all| && !Excluded(all[i]))
  {
    if cmds == [] {
      at := [];
    } else {
      hide *;
      var last := |cmds| - 1;
      at := WatchedTaken(cmds[..last], all);
      ExclusionsSnoc(cmds);
      SelectsSnoc(at, last, i => 0 <= i < |all| && !Excluded(all[i]));
      if !Excluded(all[last]) {
        TakenSnoc(all, NotIgnored(WithModes(cmds[..last])), at, last, WithMode(cmds[last]));
        at := at + [last];
      }
    }
  }

  lemma {:induction false} IgnoredTaken(cmds: seq<WatchedCommand>, all: seq<WatchedCommand>) returns (at: seq<nat>)
    requires cmds <= all
    ensures NamesTaken(all, IgnoredNames(WithModes(cmds)), at)
    ensures Selects(at, |cmds|, i => 0 <= i < |all| && Excluded(all[i]))
  {
    if cmds == [] {
      at := [];
    } else {
      hide *;
      var last := |cmds| - 1;
      at := IgnoredTaken(cmds[..last], all);
      ExclusionsSnoc(cmds);
      SelectsSnoc(at, last, i => 0 <= i < |all| && Excluded(all[i]));
      if Excluded(all[last]) {
        NamesTakenSnoc(all, IgnoredNames(WithModes(cmds[..last])), at, last);
        at := at + [last];
      }
    }
  }

  /**
    The commands of a file: those not excluded are watched, in order and each
    with its mode; the excluded ones' names are ignored, in order behind the
    names that the file ignores itself.
   */
  lemma FileCommands(u: Setup, modTime: int, read: Config) returns (watched: seq<nat>, ignored: seq<nat>)
    ensures var c, cmds := FileConfig(u, modTime, read), read.watchedCommands;
            && Taken(cmds, c.watchedCommands, watched)
            && Selects(watched, |cmds|, i => 0 <= i < |cmds| && !Excluded(cmds[i]))
            && read.ignoredCommands <= c.ignoredCommands
            && NamesTaken(cmds, c.ignoredCommands[|read.ignoredCommands|..], ignored)
            && Selects(ignored, |cmds|, i => 0 <= i < |cmds| && Excluded(cmds[i]))
  {
    hide NotIgnored, IgnoredNames, WithModes, Excluded;
    watched := WatchedTaken(read.watchedCommands, read.watchedCommands);
    ignored := IgnoredTaken(read.watchedCommands, read.watchedCommands);
    var c := FileConfig(u, modTime, read);
    assert c.ignoredCommands[|read.ignoredCommands|..] == IgnoredNames(WithModes(read.watchedCommands));
  }

  // ----- the looks that are errors

  /** A look reports an error exactly if the path cannot be examined, or a newer file cannot be read or parsed. */
  lemma LookFailsIff(u: Setup, current: Option<Config>, file: File)
    ensures Loaded(u, current, file).1 <==>
              || file.StatFails?
              || (file.Present? && !file.content.Parsed? && (current.None? || file.modTime > current.value.lastModTime))
  {
  }
}

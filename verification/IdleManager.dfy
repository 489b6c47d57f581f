/**
  The idle manager: a timer that every reported activity resets and whose fire
  starts an attempt to stop the workspace. Times and durations are nanoseconds.
 */
module IdleManager {
  import opened Wrappers

  // ----- time.Timer

  /**
    How timer channels work. `Synchronous` is Go 1.23 and later: stopping or
    resetting a timer also discards a fire that was not received. `Buffered`
    is the older behaviour, still selectable, where such a fire stays in the channel.
   */
  datatype Channels = Synchronous | Buffered

  /** `deadline`: when an armed timer expires. `fired`: it has, and the fire was not received. */
  datatype Timer = Timer(deadline: Option<int>, fired: bool)

  function Armed(at: int): Timer {
    Timer(Some(at), false)
  }

  function Stop(ch: Channels, t: Timer): (bool, Timer) {
    if ch == Synchronous then (t.deadline.Some? || t.fired, Timer(None, false))
    else (t.deadline.Some?, t.(deadline := None))
  }

  function Reset(ch: Channels, t: Timer, at: int): Timer {
    if ch == Synchronous then Armed(at) else t.(deadline := Some(at))
  }

  /** What an accepted activity does to the timer: stop, drain if it was not running, reset. None if the drain blocks. */
  function ResetForActivity(ch: Channels, t: Timer, at: int): Option<Timer> {
    var (stopped, t1) := Stop(ch, t);
    if stopped then Some(Reset(ch, t1, at))
    else if t1.fired then Some(Reset(ch, t1.(fired := false), at))
    else None
  }

  // The timer runs, or its fire waits to be received, and not both.
  predicate Ready(t: Timer) {
    t.deadline.Some? <==> !t.fired
  }

  /** The drain receives at once and leaves no old fire behind exactly in those states. */
  lemma DrainIff(t: Timer, at: int)
    ensures (forall ch :: ResetForActivity(ch, t, at) == Some(Armed(at))) <==> Ready(t)
  {
    assert ResetForActivity(Buffered, t, at) == Some(Armed(at)) ==> Ready(t);
  }

  // ----- the manager's loop

  datatype Config = Config(idleTimeout: int, stopRetryPeriod: int, channels: Channels)

  // What NewInactivityIdleManager demands before it makes a manager that does anything.
  predicate Accepted(c: Config) {
    c.idleTimeout > 0 && c.stopRetryPeriod > 0
  }

  datatype Phase = Selecting | Stopping | Finished | Blocked

  /** What has happened, as far as it matters to the promises. */
  datatype Entry =
    | Activity(at: int)
    | Attempt(at: int)
    | Failure(at: int)
    | Success(at: int)
    | Terminated(at: int)

  datatype State = State(now: int, timer: Timer, phase: Phase, log: seq<Entry>)

  /**
    The events of a run. A tick is taken only by a manager that waits in its
    select; otherwise, or when it is not there yet, the tick is dropped.
   */
  datatype Event = Advance(to: int) | Expire | Fire | StopFails | StopSucceeds | Tick | TickDropped | Sigterm

  predicate Enabled(s: State, e: Event) {
    match e
    case Advance(to) => to >= s.now
    case Expire => s.timer.deadline.Some? && s.timer.deadline.value <= s.now
    case Fire => s.phase == Selecting && s.timer.fired
    case StopFails => s.phase == Stopping
    case StopSucceeds => s.phase == Stopping
    case Tick => s.phase == Selecting
    case TickDropped => true
    case Sigterm => s.phase == Selecting
  }

  function Initial(c: Config, start: int): State {
    State(start, Armed(start + c.idleTimeout), Selecting, [])
  }

  function Apply(c: Config, s: State, e: Event): State {
    match e
    case Advance(to) => s.(now := to)
    case Expire => s.(timer := Timer(None, true))
    case Fire => s.(timer := s.timer.(fired := false), phase := Stopping, log := s.log + [Attempt(s.now)])
    case StopFails =>
      s.(timer := Reset(c.channels, s.timer, s.now + c.stopRetryPeriod), phase := Selecting,
         log := s.log + [Failure(s.now)])
    case StopSucceeds => s.(phase := Finished, log := s.log + [Success(s.now)])
    case Tick =>
      (match ResetForActivity(c.channels, s.timer, s.now + c.idleTimeout)
       case Some(t) => s.(timer := t, log := s.log + [Activity(s.now)])
       case None => s.(phase := Blocked))
    case TickDropped => s
    case Sigterm => s.(phase := Finished, log := s.log + [Terminated(s.now)])
  }

  /** The state after a run, if every event is enabled where it happens. */
  function Run(c: Config, start: int, es: seq<Event>): Option<State> {
    if es == [] then Some(Initial(c, start))
    else
      var before, e := Run(c, start, es[..|es| - 1]), es[|es| - 1];
      if before.Some? && Enabled(before.value, e) then Some(Apply(c, before.value, e)) else None
  }

  // ----- what is promised of the log

  /** Every attempt comes at least an idle timeout after the start and after every activity before it. */
  predicate IdleBeforeAttempts(c: Config, start: int, log: seq<Entry>) {
    forall j :: 0 <= j < |log| && log[j].Attempt? ==>
      && log[j].at >= start + c.idleTimeout
      && forall i :: 0 <= i < j && log[i].Activity? ==> log[j].at >= log[i].at + c.idleTimeout
  }

  /** Attempts without an activity between them are at least the retry period apart. */
  predicate AttemptsSpaced(c: Config, log: seq<Entry>) {
    forall i, j :: 0 <= i < j < |log| && log[i].Attempt? && log[j].Attempt? &&
                   (forall k :: i < k < j ==> !log[k].Activity?) ==>
      log[j].at >= log[i].at + c.stopRetryPeriod
  }

  /** Nothing follows a success or a SIGTERM. */
  predicate EndIsFinal(log: seq<Entry>) {
    forall i :: 0 <= i < |log| && (log[i].Success? || log[i].Terminated?) ==> i == |log| - 1
  }

  // The earliest time at which the promises allow another attempt.
  predicate MayAttemptAt(c: Config, start: int, log: seq<Entry>, t: int) {
    && t >= start + c.idleTimeout
    && (forall i :: 0 <= i < |log| && log[i].Activity? ==> t >= log[i].at + c.idleTimeout)
    && (forall i :: 0 <= i < |log| && log[i].Attempt? && (forall k :: i < k < |log| ==> !log[k].Activity?) ==>
                      t >= log[i].at + c.stopRetryPeriod)
  }

  // While the manager stops the workspace, its newest attempt lies in the past.
  ghost predicate Inv(c: Config, start: int, s: State) {
    && s.phase != Blocked && s.now >= start
    && (s.phase == Selecting ==> Ready(s.timer))
    && (s.phase == Stopping ==> s.timer == Timer(None, false) && MayAttemptAt(c, start, s.log, s.now + c.stopRetryPeriod))
    && (s.phase != Finished ==> forall i :: 0 <= i < |s.log| ==> !s.log[i].Success? && !s.log[i].Terminated?)
    && (forall i :: 0 <= i < |s.log| ==> s.log[i].at <= s.now)
    && (s.phase == Selecting ==>
          MayAttemptAt(c, start, s.log, if s.timer.fired then s.now else s.timer.deadline.value))
  }

  ghost predicate Promises(c: Config, start: int, log: seq<Entry>) {
    IdleBeforeAttempts(c, start, log) && AttemptsSpaced(c, log) && EndIsFinal(log)
  }

  lemma LaterToo(c: Config, start: int, log: seq<Entry>, t: int, u: int)
    requires MayAttemptAt(c, start, log, t) && t <= u
    ensures MayAttemptAt(c, start, log, u)
  {
  }

  lemma AttemptAllowed(c: Config, start: int, log: seq<Entry>, t: int)
    requires Promises(c, start, log) && MayAttemptAt(c, start, log, t)
    requires forall i :: 0 <= i < |log| ==> !log[i].Success? && !log[i].Terminated?
    ensures Promises(c, start, log + [Attempt(t)])
  {
    var longer := log + [Attempt(t)];
    forall i, j | 0 <= i < j < |longer| && longer[i].Attempt? && longer[j].Attempt? &&
                  (forall k :: i < k < j ==> !longer[k].Activity?)
      ensures longer[j].at >= longer[i].at + c.stopRetryPeriod
    {
      assert forall k :: i < k < |log| && k < j ==> !log[k].Activity? by {
        assert forall k :: i < k < |log| && k < j ==> log[k] == longer[k];
      }
    }
  }

  lemma OtherEntryAllowed(c: Config, start: int, log: seq<Entry>, e: Entry)
    requires Promises(c, start, log) && !e.Attempt?
    requires forall i :: 0 <= i < |log| ==> !log[i].Success? && !log[i].Terminated?
    ensures Promises(c, start, log + [e])
  {
    var longer := log + [e];
    forall i, j | 0 <= i < j < |longer| && longer[i].Attempt? && longer[j].Attempt? &&
                  (forall k :: i < k < j ==> !longer[k].Activity?)
      ensures longer[j].at >= longer[i].at + c.stopRetryPeriod
    {
      assert forall k :: i < k < j ==> log[k] == longer[k];
    }
  }

  lemma MayAttemptAfter(c: Config, start: int, log: seq<Entry>, t: int, e: Entry, u: int)
    requires MayAttemptAt(c, start, log, t) && u >= t
    requires e.Activity? ==> u >= e.at + c.idleTimeout
    requires e.Attempt? ==> u >= e.at + c.stopRetryPeriod
    ensures MayAttemptAt(c, start, log + [e], u)
  {
    var longer := log + [e];
    forall i | 0 <= i < |longer| && longer[i].Attempt? && (forall k :: i < k < |longer| ==> !longer[k].Activity?)
      ensures u >= longer[i].at + c.stopRetryPeriod
    {
      assert forall k :: i < k < |log| ==> log[k] == longer[k];
    }
  }

  lemma ActivityClears(c: Config, start: int, log: seq<Entry>, now: int)
    requires now >= start && forall i :: 0 <= i < |log| ==> log[i].at <= now
    ensures MayAttemptAt(c, start, log + [Activity(now)], now + c.idleTimeout)
  {
    var longer := log + [Activity(now)];
    assert longer[|log|].Activity?;
    forall i | 0 <= i < |longer| && longer[i].Attempt? ensures !(forall k :: i < k < |longer| ==> !longer[k].Activity?) {
      assert i < |log| < |longer|;
    }
  }

  lemma StepKeeps(c: Config, start: int, s: State, e: Event)
    requires Accepted(c) && Inv(c, start, s) && Promises(c, start, s.log) && Enabled(s, e)
    ensures Inv(c, start, Apply(c, s, e)) && Promises(c, start, Apply(c, s, e).log)
  {
    hide MayAttemptAt, Promises;
    var s' := Apply(c, s, e);
    match e {
      case Advance(to) =>
        if s.phase == Selecting && s.timer.fired {
          LaterToo(c, start, s.log, s.now, to);
        }
        if s.phase == Stopping {
          LaterToo(c, start, s.log, s.now + c.stopRetryPeriod, to + c.stopRetryPeriod);
        }
      case Expire =>
        if s.phase == Selecting {
          LaterToo(c, start, s.log, s.timer.deadline.value, s.now);
        }
      case Fire =>
        AttemptAllowed(c, start, s.log, s.now);
        MayAttemptAfter(c, start, s.log, s.now, Attempt(s.now), s.now + c.stopRetryPeriod);
      case StopFails =>
        OtherEntryAllowed(c, start, s.log, Failure(s.now));
        MayAttemptAfter(c, start, s.log, s.now + c.stopRetryPeriod, Failure(s.now), s.now + c.stopRetryPeriod);
      case StopSucceeds =>
        OtherEntryAllowed(c, start, s.log, Success(s.now));
      case Tick =>
        DrainIff(s.timer, s.now + c.idleTimeout);
        OtherEntryAllowed(c, start, s.log, Activity(s.now));
        ActivityClears(c, start, s.log, s.now);
      case TickDropped =>
      case Sigterm =>
        OtherEntryAllowed(c, start, s.log, Terminated(s.now));
    }
  }

  lemma {:induction false} RunInv(c: Config, start: int, es: seq<Event>)
    requires Accepted(c) && Run(c, start, es).Some?
    ensures Inv(c, start, Run(c, start, es).value)
    ensures Promises(c, start, Run(c, start, es).value.log)
  {
    if es != [] {
      hide Inv, Promises, Enabled, Apply;
      RunInv(c, start, es[..|es| - 1]);
      StepKeeps(c, start, Run(c, start, es[..|es| - 1]).value, es[|es| - 1]);
    }
  }

  /**
    In every run, with either kind of timer channel: attempts keep their
    distance from activities and from each other, nothing follows the end, and
    whenever the manager waits, draining the timer would not block.
   */
  lemma RunsKeepPromises(c: Config, start: int, es: seq<Event>)
    requires Accepted(c) && Run(c, start, es).Some?
    ensures var s := Run(c, start, es).value;
            && IdleBeforeAttempts(c, start, s.log)
            && AttemptsSpaced(c, s.log)
            && EndIsFinal(s.log)
            && s.phase != Blocked
            && (s.phase == Selecting ==> Ready(s.timer))
  {
    RunInv(c, start, es);
  }

  // ----- a manager that acts in time

  /** Time does not pass a deadline or an undelivered fire while the manager waits. */
  predicate Timely(s: State, e: Event) {
    e.Advance? && s.phase == Selecting ==>
      !s.timer.fired && (s.timer.deadline.Some? ==> e.to <= s.timer.deadline.value)
  }

  /** Every event of the run comes in time. */
  predicate TimelyRun(c: Config, start: int, es: seq<Event>) {
    es != [] ==>
      var init := es[..|es| - 1];
      TimelyRun(c, start, init) && (Run(c, start, init).Some? ==> Timely(Run(c, start, init).value, es[|es| - 1]))
  }

  /**
    When the next attempt is due, by what has been logged last: an idle timeout
    after the start or an activity, a retry period after a failed attempt.
   */
  function DueAt(c: Config, start: int, log: seq<Entry>): Option<int> {
    if log == [] then Some(start + c.idleTimeout)
    else
      match log[|log| - 1]
      case Activity(at) => Some(at + c.idleTimeout)
      case Failure(at) => Some(at + c.stopRetryPeriod)
      case _ => None
  }

  /** Every attempt comes exactly when it is due. */
  predicate AttemptsWhenDue(c: Config, start: int, log: seq<Entry>) {
    forall j :: 0 <= j < |log| && log[j].Attempt? ==> DueAt(c, start, log[..j]) == Some(log[j].at)
  }

  /** After a failure comes an attempt, unless an activity or SIGTERM comes first. */
  predicate FailuresGoOn(log: seq<Entry>) {
    forall j :: 0 < j < |log| && log[j - 1].Failure? ==> log[j].Attempt? || log[j].Activity? || log[j].Terminated?
  }

  // While it waits the timer is set for the due time; behind a failure it waits.
  ghost predicate OnTime(c: Config, start: int, s: State) {
    && s.phase != Blocked
    && (s.phase == Selecting ==> DueAt(c, start, s.log).Some? && s.now <= DueAt(c, start, s.log).value)
    && (s.phase == Selecting ==> s.timer == Armed(DueAt(c, start, s.log).value) ||
                                 (s.timer == Timer(None, true) && s.now == DueAt(c, start, s.log).value))
    && (s.phase == Stopping ==> s.timer == Timer(None, false) && s.log != [] && s.log[|s.log| - 1].Attempt?)
    && (s.phase == Finished ==> s.log != [] && (s.log[|s.log| - 1].Success? || s.log[|s.log| - 1].Terminated?))
  }

  ghost predicate DuePromises(c: Config, start: int, log: seq<Entry>) {
    AttemptsWhenDue(c, start, log) && FailuresGoOn(log)
  }

  lemma DueEntry(c: Config, start: int, log: seq<Entry>, e: Entry)
    requires DuePromises(c, start, log)
    requires e.Attempt? ==> DueAt(c, start, log) == Some(e.at)
    requires log != [] && log[|log| - 1].Failure? ==> e.Attempt? || e.Activity? || e.Terminated?
    ensures DuePromises(c, start, log + [e])
    ensures DueAt(c, start, log + [e]) ==
            match e case Activity(at) => Some(at + c.idleTimeout) case Failure(at) => Some(at + c.stopRetryPeriod) case _ => None
  {
    var longer := log + [e];
    assert longer[..|log|] == log;
    assert forall j :: 0 <= j < |log| ==> longer[..j] == log[..j] && longer[j] == log[j];
  }

  lemma OnTimeStep(c: Config, start: int, s: State, e: Event)
    requires Accepted(c) && OnTime(c, start, s) && DuePromises(c, start, s.log)
    requires Enabled(s, e) && Timely(s, e)
    ensures OnTime(c, start, Apply(c, s, e)) && DuePromises(c, start, Apply(c, s, e).log)
  {
    hide DuePromises, DueAt;
    match e {
      case Fire => DueEntry(c, start, s.log, Attempt(s.now));
      case StopFails => DueEntry(c, start, s.log, Failure(s.now));
      case StopSucceeds => DueEntry(c, start, s.log, Success(s.now));
      case Tick =>
        DrainIff(s.timer, s.now + c.idleTimeout);
        DueEntry(c, start, s.log, Activity(s.now));
      case Sigterm => DueEntry(c, start, s.log, Terminated(s.now));
      case _ =>
    }
  }

  /**
    A manager that acts in time attempts to stop exactly when that is due, and
    does not wait longer: an idle timeout after the start or an activity, and a
    retry period after a failed attempt.
   */
  lemma {:induction false} AttemptsComeWhenDue(c: Config, start: int, es: seq<Event>)
    requires Accepted(c) && Run(c, start, es).Some? && TimelyRun(c, start, es)
    ensures var s := Run(c, start, es).value;
            && OnTime(c, start, s) && AttemptsWhenDue(c, start, s.log) && FailuresGoOn(s.log)
            && (s.phase == Selecting ==> DueAt(c, start, s.log).Some? && s.now <= DueAt(c, start, s.log).value)
  {
    if es != [] {
      hide Enabled, Apply, Timely, DueAt, AttemptsWhenDue, FailuresGoOn;
      AttemptsComeWhenDue(c, start, es[..|es| - 1]);
      OnTimeStep(c, start, Run(c, start, es[..|es| - 1]).value, es[|es| - 1]);
    }
  }

  /** After a failed attempt, without an activity or SIGTERM since, there has been another one by the retry period. */
  lemma FailureIsRetried(c: Config, start: int, es: seq<Event>, i: nat)
    requires Accepted(c) && Run(c, start, es).Some? && TimelyRun(c, start, es)
    requires var s := Run(c, start, es).value;
             && i < |s.log| && s.log[i].Failure? && s.now > s.log[i].at + c.stopRetryPeriod
             && forall k :: i < k < |s.log| ==> !s.log[k].Activity? && !s.log[k].Terminated?
    ensures var log := Run(c, start, es).value.log;
            i + 1 < |log| && log[i + 1] == Attempt(log[i].at + c.stopRetryPeriod)
  {
    AttemptsComeWhenDue(c, start, es);
    var s := Run(c, start, es).value;
    if i + 1 < |s.log| {
      assert s.log[..i + 1][i] == s.log[i];
    }
  }

  // ----- the loop as the program has it

  class InactivityIdleManager {
    const config: Config
    var timer: Timer
    var phase: Phase
    var now: int
    ghost var log: seq<Entry>

    ghost predicate Is(s: State)
      reads this
    {
      now == s.now && timer == s.timer && phase == s.phase && log == s.log
    }

    constructor (config: Config, start: int)
      requires Accepted(config)
      ensures this.config == config && Is(Initial(config, start))
    {
      this.config, now, phase, log := config, start, Selecting, [];
      timer := Armed(start + config.idleTimeout);
    }

    // case <-m.activityC; false if draining the timer would block for ever
    method OnActivity() returns (ok: bool)
      modifies `timer
      ensures var r := ResetForActivity(config.channels, old(timer), now + config.idleTimeout);
              ok == r.Some? && (ok ==> timer == r.value)
    {
      var (stopped, t) := Stop(config.channels, timer);
      timer := t;
      if !stopped {
        if !timer.fired {
          return false;
        }
        timer := timer.(fired := false);
      }
      timer := Reset(config.channels, timer, now + config.idleTimeout);
      return true;
    }

    /**
      The select loop, driven by the events of a run: it takes every enabled
      event as it comes, never blocks in the drain, and stops at the end.
     */
    method Start(events: seq<Event>, ghost start: int)
      requires Accepted(config) && Is(Initial(config, start))
      requires Run(config, start, events).Some?
      modifies this
      ensures Is(Run(config, start, events).value)
    {
      hide Inv, Promises;
      var i := 0;
      assert events[..0] == [];
      while i < |events|
        invariant 0 <= i <= |events|
        invariant Run(config, start, events[..i]).Some? && Is(Run(config, start, events[..i]).value)
      {
        ghost var s := Run(config, start, events[..i]).value;
        PrefixRuns(config, start, events, i + 1);
        assert events[..i + 1][..i] == events[..i];
        RunsKeepPromises(config, start, events[..i]);
        match events[i] {
          case Advance(to) =>
            now := to;
          case Expire =>
            timer := Timer(None, true);
          case Fire =>
            timer := timer.(fired := false);
            phase := Stopping;
            log := log + [Attempt(now)];
          case StopFails =>
            timer := Reset(config.channels, timer, now + config.stopRetryPeriod);
            phase := Selecting;
            log := log + [Failure(now)];
          case StopSucceeds =>
            phase := Finished;
            log := log + [Success(now)];
          case Tick =>
            DrainIff(timer, now + config.idleTimeout);
            var ok := OnActivity();
            assert ok;
            log := log + [Activity(now)];
          case TickDropped =>
          case Sigterm =>
            phase := Finished;
            log := log + [Terminated(now)];
        }
        i := i + 1;
      }
      assert events[..i] == events;
    }

    lemma {:induction false} PrefixRuns(c: Config, start: int, es: seq<Event>, k: nat)
      requires k <= |es| && Run(c, start, es).Some?
      ensures Run(c, start, es[..k]).Some?
    {
      if k == |es| {
        assert es[..k] == es;
      } else {
        PrefixRuns(c, start, es[..|es| - 1], k);
        assert es[..|es| - 1][..k] == es[..k];
      }
    }
  }
}

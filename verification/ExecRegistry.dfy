/**
  Execs over whole runs: creation gives an exec the next id and enters it, a
  health watcher takes it out when its stream has ended and then tells the
  subscribers. Every lock-protected or channel operation is one step.
 */
module ExecRegistry {
  import opened Wrappers

  const UINT64 := 0x1_0000_0000_0000_0000

  // int(x) of an unsigned 64-bit number.
  function ToInt(x: nat): int
    requires x < UINT64
  {
    if x < UINT64 / 2 then x else x - UINT64
  }

  // atomic.AddUint64(&prevExecID, 1)
  function NextSerial(prev: nat): (x: nat)
    requires prev < UINT64
    ensures x < UINT64
  {
    if prev + 1 < UINT64 then prev + 1 else 0
  }

  // ----- every interleaving of requests, streams and watchers

  // Where an exec's health watcher stands.
  datatype Watcher = Absent | Waiting | Received | Removed | Published

  /** An exec: its number (0 if its creation failed), sends waiting on its channels, its watcher. */
  datatype Exec = Exec(serial: nat, pending: nat, watcher: Watcher)

  datatype State = State(prev: nat, execMap: map<int, nat>, execs: map<nat, Exec>, published: seq<int>)

  const INITIAL := State(0, map[], map[], [])

  // `exec` names an exec object; `prepared` is as in DoCreate.
  datatype Step =
    | Create(exec: nat, prepared: bool)
    | Watch(exec: nat)
    | StreamEnds(exec: nat)
    | Receive(exec: nat)
    | Remove(exec: nat)
    | Publish(exec: nat)

  function Id(s: State, e: nat): int
    requires e in s.execs && s.execs[e].serial < UINT64
  {
    ToInt(s.execs[e].serial)
  }

  predicate Enabled(s: State, step: Step) {
    var e := step.exec;
    match step
    case Create(_, _) => e !in s.execs
    case Watch(_) => e in s.execs && s.execs[e].watcher == Absent
    case StreamEnds(_) => e in s.execs && s.execs[e].serial != 0
    case Receive(_) => e in s.execs && s.execs[e].watcher == Waiting && s.execs[e].pending > 0
    case Remove(_) => e in s.execs && s.execs[e].watcher == Received
    case Publish(_) => e in s.execs && s.execs[e].watcher == Removed
  }

  predicate InRange(s: State) {
    s.prev < UINT64 && forall e :: e in s.execs ==> s.execs[e].serial < UINT64
  }

  function Apply(s: State, step: Step): State
    requires Enabled(s, step) && InRange(s)
  {
    var e := step.exec;
    match step
    case Create(_, prepared) =>
      if prepared then
        var serial := NextSerial(s.prev);
        s.(prev := serial, execMap := s.execMap[ToInt(serial) := e], execs := s.execs[e := Exec(serial, 0, Absent)])
      else s.(execs := s.execs[e := Exec(0, 0, Absent)])
    case Watch(_) => s.(execs := s.execs[e := s.execs[e].(watcher := Waiting)])
    case StreamEnds(_) => s.(execs := s.execs[e := s.execs[e].(pending := s.execs[e].pending + 1)])
    case Receive(_) =>
      s.(execs := s.execs[e := s.execs[e].(watcher := Received, pending := s.execs[e].pending - 1)])
    case Remove(_) =>
      s.(execMap := s.execMap - {Id(s, e)}, execs := s.execs[e := s.execs[e].(watcher := Watcher.Removed)])
    case Publish(_) =>
      s.(published := s.published + [Id(s, e)], execs := s.execs[e := s.execs[e].(watcher := Published)])
  }

  // ----- what every step keeps

  predicate Gone(w: Watcher) {
    w == Watcher.Removed || w == Published
  }

  // Numbers are given out once, in order.
  ghost predicate Numbered(s: State) {
    && s.prev < UINT64
    && (forall e :: e in s.execs ==> s.execs[e].serial <= s.prev)
    && (forall e, f :: e in s.execs && f in s.execs && e != f && s.execs[e].serial == s.execs[f].serial ==>
                         s.execs[e].serial == 0)
  }

  // The map's keys are the ids of its values; it has every created exec that is not removed, and no other.
  ghost predicate Registered(s: State)
    requires Numbered(s)
  {
    && (forall k :: k in s.execMap ==> s.execMap[k] in s.execs && Id(s, s.execMap[k]) == k)
    && (forall e :: e in s.execs && s.execs[e].serial != 0 ==>
                      (Gone(s.execs[e].watcher) <==> Id(s, e) !in s.execMap))
    && (forall e :: e in s.execs && s.execs[e].serial == 0 ==>
                      s.execs[e].pending == 0 && (s.execs[e].watcher == Absent || s.execs[e].watcher == Waiting))
  }

  // One event for every exec whose watcher is done, and no other.
  ghost predicate Announced(s: State)
    requires Numbered(s)
  {
    && (forall i, j :: 0 <= i < j < |s.published| ==> s.published[i] != s.published[j])
    && (forall x :: x in s.published ==> exists e :: e in s.execs && s.execs[e].watcher == Published && Id(s, e) == x)
  }

  ghost predicate Inv(s: State) {
    Numbered(s) && Registered(s) && Announced(s)
  }

  lemma IdsDistinct(s: State, e: nat, f: nat)
    requires Numbered(s) && e in s.execs && f in s.execs && e != f
    requires Id(s, e) == Id(s, f)
    ensures s.execs[e].serial == s.execs[f].serial == 0
  {
  }

  // A watcher or a stream that moves on changes one exec, and neither its number nor the map.
  predicate MovesOn(s: State, s': State, e: nat) {
    && e in s.execs && e in s'.execs && s'.execs == s.execs[e := s'.execs[e]]
    && s'.execs[e].serial == s.execs[e].serial && s'.prev == s.prev
  }

  lemma StepMovesOn(s: State, step: Step)
    requires Enabled(s, step) && !step.Create? && InRange(s)
    ensures MovesOn(s, Apply(s, step), step.exec)
  {
  }

  lemma NumberedKept(s: State, step: Step)
    requires Numbered(s) && Enabled(s, step) && s.prev + 1 < UINT64
    ensures Numbered(Apply(s, step))
    ensures forall e :: e in s.execs ==> e in Apply(s, step).execs && Apply(s, step).execs[e].serial == s.execs[e].serial
  {
    if !step.Create? {
      StepMovesOn(s, step);
      hide Apply;
      assert Numbered(Apply(s, step));
    }
  }

  // The part of Registered that is about one exec.
  ghost predicate Entered(s: State, e: nat)
    requires Numbered(s) && e in s.execs
  {
    if s.execs[e].serial == 0 then
      s.execs[e].pending == 0 && (s.execs[e].watcher == Absent || s.execs[e].watcher == Waiting)
    else
      Gone(s.execs[e].watcher) <==> Id(s, e) !in s.execMap
  }

  lemma RegisteredByParts(s: State)
    requires Numbered(s)
    requires forall k :: k in s.execMap ==> s.execMap[k] in s.execs && Id(s, s.execMap[k]) == k
    requires forall e :: e in s.execs ==> Entered(s, e)
    ensures Registered(s)
  {
  }

  lemma RegisteredEntered(s: State, e: nat)
    requires Numbered(s) && Registered(s) && e in s.execs
    ensures Entered(s, e)
  {
  }

  lemma RegisteredCreate(s: State, step: Step)
    requires Numbered(s) && Registered(s) && Enabled(s, step) && step.Create? && s.prev + 1 < UINT64
    requires Numbered(Apply(s, step))
    ensures Registered(Apply(s, step))
  {
    var s', e := Apply(s, step), step.exec;
    forall f | f in s'.execs ensures Entered(s', f) {
      if f != e {
        RegisteredEntered(s, f);
        if step.prepared && s.execs[f].serial != 0 && Id(s', f) == Id(s', e) {
          IdsDistinct(s', e, f);
        }
      }
    }
    RegisteredByParts(s');
  }

  lemma RegisteredSame(s: State, s': State, e: nat)
    requires Numbered(s) && Registered(s) && Numbered(s') && MovesOn(s, s', e)
    requires s'.execMap == s.execMap && (Gone(s.execs[e].watcher) <==> Gone(s'.execs[e].watcher))
    requires s'.execs[e].serial == 0 ==> s'.execs[e].pending == 0 && s'.execs[e].watcher == Waiting
    ensures Registered(s')
  {
    forall f | f in s'.execs ensures Entered(s', f) {
      RegisteredEntered(s, f);
    }
    RegisteredByParts(s');
  }

  lemma RegisteredRemove(s: State, s': State, e: nat)
    requires Numbered(s) && Registered(s) && Numbered(s') && MovesOn(s, s', e)
    requires s.execs[e].watcher == Received && s'.execs[e].watcher == Watcher.Removed
    requires s'.execMap == s.execMap - {Id(s, e)}
    ensures Registered(s')
  {
    forall f | f in s'.execs ensures Entered(s', f) {
      RegisteredEntered(s, f);
      if f != e && s.execs[f].serial != 0 && Id(s, f) == Id(s, e) {
        IdsDistinct(s, e, f);
      }
    }
    RegisteredByParts(s');
  }

  lemma RegisteredOther(s: State, step: Step)
    requires Numbered(s) && Registered(s) && Enabled(s, step) && !step.Create?
    requires Numbered(Apply(s, step))
    ensures Registered(Apply(s, step))
  {
    StepMovesOn(s, step);
    if step.Remove? {
      RegisteredRemove(s, Apply(s, step), step.exec);
    } else {
      RegisteredSame(s, Apply(s, step), step.exec);
    }
  }

  lemma AnnouncedSame(s: State, s': State)
    requires Numbered(s) && Announced(s) && Numbered(s') && s'.published == s.published
    requires forall e :: e in s.execs ==> e in s'.execs && s'.execs[e].serial == s.execs[e].serial
    requires forall e :: e in s.execs && s.execs[e].watcher == Published ==> s'.execs[e].watcher == Published
    ensures Announced(s')
  {
    forall x | x in s'.published
      ensures exists e :: e in s'.execs && s'.execs[e].watcher == Published && Id(s', e) == x
    {
      var e :| e in s.execs && s.execs[e].watcher == Published && Id(s, e) == x;
      assert e in s'.execs && s'.execs[e].watcher == Published && Id(s', e) == x;
    }
  }

  lemma NotAnnounced(s: State, e: nat)
    requires Numbered(s) && Registered(s) && Announced(s) && e in s.execs && s.execs[e].watcher == Watcher.Removed
    ensures Id(s, e) !in s.published
  {
    if Id(s, e) in s.published {
      var f :| f in s.execs && s.execs[f].watcher == Published && Id(s, f) == Id(s, e);
      IdsDistinct(s, e, f);
    }
  }

  lemma AnnouncedPublish(s: State, s': State, e: nat)
    requires Numbered(s) && Registered(s) && Announced(s) && Numbered(s') && MovesOn(s, s', e)
    requires s.execs[e].watcher == Watcher.Removed && s'.execs[e].watcher == Published
    requires s'.published == s.published + [Id(s, e)]
    ensures Announced(s')
  {
    hide Registered;
    NotAnnounced(s, e);
    forall x | x in s'.published
      ensures exists f :: f in s'.execs && s'.execs[f].watcher == Published && Id(s', f) == x
    {
      var f := e;
      if x in s.published {
        f :| f in s.execs && s.execs[f].watcher == Published && Id(s, f) == x;
      }
      assert s'.execs[f].watcher == Published && Id(s', f) == x;
    }
  }

  lemma AnnouncedKept(s: State, step: Step)
    requires Numbered(s) && Registered(s) && Announced(s) && Enabled(s, step)
    requires Numbered(Apply(s, step))
    ensures Announced(Apply(s, step))
  {
    hide Announced, Registered;
    if step.Publish? {
      AnnouncedPublish(s, Apply(s, step), step.exec);
    } else {
      AnnouncedSame(s, Apply(s, step));
    }
  }

  lemma StepKeeps(s: State, step: Step)
    requires Inv(s) && Enabled(s, step) && s.prev + 1 < UINT64
    ensures Inv(Apply(s, step)) && Apply(s, step).prev <= s.prev + 1
  {
    hide Registered, Announced;
    NumberedKept(s, step);
    AnnouncedKept(s, step);
    if step.Create? {
      RegisteredCreate(s, step);
    } else {
      RegisteredOther(s, step);
    }
  }

  // ----- whole runs

  function Run(steps: seq<Step>): Option<State> {
    if steps == [] then Some(INITIAL)
    else
      var before, step := Run(steps[..|steps| - 1]), steps[|steps| - 1];
      if before.Some? && InRange(before.value) && Enabled(before.value, step)
      then Some(Apply(before.value, step)) else None
  }

  // A run that has not used up the 64-bit counter.
  predicate Short(steps: seq<Step>) {
    |steps| < UINT64
  }

  lemma {:induction false} RunInv(steps: seq<Step>)
    requires Run(steps).Some? && Short(steps)
    ensures Inv(Run(steps).value) && Run(steps).value.prev <= |steps|
  {
    if steps != [] {
      hide Inv, Enabled, Apply;
      RunInv(steps[..|steps| - 1]);
      StepKeeps(Run(steps[..|steps| - 1]).value, steps[|steps| - 1]);
    } else {
      InitialInv();
    }
  }

  lemma InitialInv()
    ensures Inv(INITIAL)
  {
  }

  lemma {:induction false} RunGoesOn(steps: seq<Step>, more: seq<Step>)
    requires Run(steps + more).Some?
    ensures Run(steps).Some?
    ensures Run(steps).value.published <= Run(steps + more).value.published
  {
    if more == [] {
      assert steps + more == steps;
    } else {
      assert (steps + more)[..|steps + more| - 1] == steps + more[..|more| - 1];
      RunGoesOn(steps, more[..|more| - 1]);
    }
  }

  /**
    Every exec's end is published at most once, after its entry is gone from
    the registry, and its id resolves in no later state.
   */
  lemma {:induction false} PublishedOnceAndGone(steps: seq<Step>, more: seq<Step>)
    requires Run(steps + more).Some? && Short(steps + more)
    ensures Run(steps).Some?
    ensures var now, later := Run(steps).value, Run(steps + more).value;
            && (forall i, j :: 0 <= i < j < |later.published| ==> later.published[i] != later.published[j])
            && (forall x :: x in now.published ==> x !in now.execMap && x !in later.execMap)
  {
    RunGoesOn(steps, more);
    RunInv(steps);
    RunInv(steps + more);
    PublishedGone(Run(steps).value);
    PublishedGone(Run(steps + more).value);
  }

  lemma PublishedGone(s: State)
    requires Inv(s)
    ensures forall x :: x in s.published ==> x !in s.execMap
  {
    forall x | x in s.published ensures x !in s.execMap {
      var e :| e in s.execs && s.execs[e].watcher == Published && Id(s, e) == x;
    }
  }

  /** What resolves is the exec that was created under that id: no id is given to two execs. */
  lemma {:induction false} ResolvesToItsExec(steps: seq<Step>, e: nat, f: nat)
    requires Run(steps).Some? && Short(steps)
    requires var s := Run(steps).value; e in s.execs && s.execs[e].serial != 0 && f in s.execs
    ensures Inv(Run(steps).value)
    ensures var s := Run(steps).value;
            && (!Gone(s.execs[e].watcher) ==> Id(s, e) in s.execMap && s.execMap[Id(s, e)] == e)
            && (f != e ==> Id(s, f) != Id(s, e))
  {
    RunInv(steps);
    var s := Run(steps).value;
    if f != e && Id(s, f) == Id(s, e) {
      IdsDistinct(s, e, f);
    }
    if !Gone(s.execs[e].watcher) {
      var other := s.execMap[Id(s, e)];
      if other != e {
        IdsDistinct(s, e, other);
      }
    }
  }
}

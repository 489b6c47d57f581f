/** With one writer, what a client that attaches is sent is one stretch of the output. */
module SingleWriter {
  import opened Wrappers
  import opened Reattach

  // No write is under way.
  predicate Quiet(s: State) {
    forall i :: 0 <= i < |s.writes| ==> s.writes[i].buffered && s.writes[i].sent
  }

  /** Every write of the run began after the one before it was through. */
  predicate OneWriter(steps: seq<Step>) {
    steps != [] ==>
      var init := steps[..|steps| - 1];
      && OneWriter(init)
      && (steps[|steps| - 1].Begin? && Run(PROGRAM, init).Some? ==> Quiet(Run(PROGRAM, init).value))
  }

  // The writes a client was sent, in order.
  function Chunks(ms: seq<Message>): seq<nat> {
    if ms == [] then []
    else
      var init, last := ms[..|ms| - 1], ms[|ms| - 1];
      if last.Chunk? then Chunks(init) + [last.write] else Chunks(init)
  }

  function Interval(lo: nat, hi: nat): seq<nat>
    requires lo <= hi
  {
    seq(hi - lo, k requires 0 <= k < hi - lo => lo + k)
  }

  // The number of writes that are through.
  function Through(s: State): nat {
    if s.writes != [] && !s.writes[|s.writes| - 1].sent then |s.writes| - 1 else |s.writes|
  }

  // Only the last write can be under way, and the buffer has the writes in order.
  ghost predicate InOrder(s: State) {
    && (forall i :: 0 <= i < |s.writes| - 1 ==> s.writes[i].buffered && s.writes[i].sent)
    && (Through(s) == |s.writes| && s.writes != [] ==> s.writes[|s.writes| - 1].buffered)
    && s.buffer == Interval(0, if s.writes != [] && !s.writes[|s.writes| - 1].buffered then |s.writes| - 1
                               else |s.writes|)
  }

  // What a listed client was sent starts at write `a` and has no hole.
  ghost predicate StretchFrom(s: State, c: Client, a: nat) {
    a <= Through(s) && Chunks(c.received) == Interval(a, Through(s)) && (c.read ==> a <= c.snapshot)
  }

  ghost predicate Stretches(s: State) {
    forall c :: c in s.clients && s.clients[c].listed ==> exists a :: StretchFrom(s, s.clients[c], a)
  }

  // A client that is not listed yet has been sent no writes.
  ghost predicate Unsent(s: State) {
    forall c :: c in s.clients && !s.clients[c].registered ==>
                  !s.clients[c].listed && !s.clients[c].read && Chunks(s.clients[c].received) == []
  }

  lemma ChunksSnoc(ms: seq<Message>, m: Message)
    ensures Chunks(ms + [m]) == if m.Chunk? then Chunks(ms) + [m.write] else Chunks(ms)
  {
    assert (ms + [m])[..|ms|] == ms;
  }

  ghost predicate SingleInv(s: State) {
    InOrder(s) && Stretches(s) && Unsent(s)
  }

  lemma InOrderStep(s: State, step: Step)
    requires InOrder(s) && Enabled(PROGRAM, s, step) && (step.Begin? ==> Quiet(s))
    requires step.Begin? || step.Buffer? || step.Send?
    ensures InOrder(Apply(s, step))
    ensures Through(Apply(s, step)) == if step.Send? then step.write + 1 else Through(s)
    ensures step.Send? ==> Through(s) == step.write
  {
  }

  lemma SingleWriterStep(s: State, step: Step)
    requires SingleInv(s) && Enabled(PROGRAM, s, step) && (step.Begin? ==> Quiet(s))
    requires step.Begin? || step.Buffer? || step.Send?
    ensures SingleInv(Apply(s, step))
  {
    hide InOrder, Through, StretchFrom;
    var s' := Apply(s, step);
    InOrderStep(s, step);
    forall c | c in s'.clients && s'.clients[c].listed ensures exists a :: StretchFrom(s', s'.clients[c], a) {
      var a :| StretchFrom(s, s.clients[c], a);
      StretchStep(s, step, c, a);
    }
    assert Unsent(s') by {
      hide Chunks;
    }
  }

  // A listed client's stretch goes on with the write that is sent.
  lemma StretchStep(s: State, step: Step, c: nat, a: nat)
    requires step.Begin? || step.Buffer? || step.Send?
    requires Through(Apply(s, step)) == if step.Send? then step.write + 1 else Through(s)
    requires step.Send? ==> Through(s) == step.write < |s.writes|
    requires c in s.clients && Apply(s, step).clients[c].listed && StretchFrom(s, s.clients[c], a)
    ensures StretchFrom(Apply(s, step), Apply(s, step).clients[c], a)
  {
    hide Through, Interval, Chunks;
    if step.Send? {
      ChunksSnoc(s.clients[c].received, Chunk(step.write));
      IntervalSnoc(a, step.write);
    }
  }

  lemma IntervalSnoc(lo: nat, hi: nat)
    requires lo <= hi
    ensures Interval(lo, hi + 1) == Interval(lo, hi) + [hi]
  {
  }

  lemma SingleClientStep(s: State, step: Step)
    requires SingleInv(s) && Enabled(PROGRAM, s, step)
    requires step.Register? || step.Read? || step.Restore? || step.Remove?
    ensures SingleInv(Apply(s, step))
  {
    var s' := Apply(s, step);
    var was := Lookup(s, step.client);
    if step.Restore? {
      ChunksSnoc(was.received, Restored(was.snapshot));
    }
    forall c | c in s'.clients && s'.clients[c].listed ensures exists a :: StretchFrom(s', s'.clients[c], a) {
      StretchKept(s, step, c);
    }
    assert InOrder(s') && Through(s') == Through(s);
  }

  lemma StretchKept(s: State, step: Step, c: nat)
    requires SingleInv(s) && Enabled(PROGRAM, s, step)
    requires step.Register? || step.Read? || step.Restore? || step.Remove?
    requires c in Apply(s, step).clients && Apply(s, step).clients[c].listed
    ensures exists a :: StretchFrom(Apply(s, step), Apply(s, step).clients[c], a)
  {
    var s' := Apply(s, step);
    if c == step.client && step.Register? {
      assert StretchFrom(s', s'.clients[c], Through(s));
    } else {
      var a :| StretchFrom(s, s.clients[c], a);
      if step.Restore? {
        ChunksSnoc(Lookup(s, step.client).received, Restored(Lookup(s, step.client).snapshot));
      }
      assert StretchFrom(s', s'.clients[c], a);
    }
  }

  lemma {:induction false} ReachableSingleInv(steps: seq<Step>)
    requires OneWriter(steps) && Run(PROGRAM, steps).Some?
    ensures SingleInv(Run(PROGRAM, steps).value)
  {
    if steps != [] {
      hide SingleInv, Enabled, Apply, Quiet;
      ReachableSingleInv(steps[..|steps| - 1]);
      var s, step := Run(PROGRAM, steps[..|steps| - 1]).value, steps[|steps| - 1];
      if step.Begin? || step.Buffer? || step.Send? {
        SingleWriterStep(s, step);
      } else {
        SingleClientStep(s, step);
      }
    }
  }

  /**
    With one writer, what an attached client was sent is an unbroken stretch of
    the output, in order and each write once, up to the newest write that is
    through; it starts within or right behind the content the client was sent.
   */
  lemma {:induction false} OneUnbrokenStretch(steps: seq<Step>, c: nat)
    requires OneWriter(steps) && Run(PROGRAM, steps).Some?
    requires c in Run(PROGRAM, steps).value.clients && Attached(Run(PROGRAM, steps).value.clients[c])
    ensures var s := Run(PROGRAM, steps).value;
            var client := s.clients[c];
            && client.snapshot <= |s.buffer| && s.buffer == Interval(0, |s.buffer|)
            && exists a: nat :: a <= client.snapshot && a <= Through(s) && Chunks(client.received) == Interval(a, Through(s))
  {
    ReachableInv(steps);
    ReachableSingleInv(steps);
    var s := Run(PROGRAM, steps).value;
    var a :| StretchFrom(s, s.clients[c], a);
    assert ClientInv(s, s.clients[c]);
  }
}

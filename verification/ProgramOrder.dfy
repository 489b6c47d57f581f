/**
  The order in which the operations take their steps is the one with which the
  state machines over all interleavings are enabled.
 */
module ProgramOrder {
  import opened Utf8
  import opened Wrappers
  import opened Steps
  import R = Reattach
  import E = ExecRegistry

  /** A step of write `i`, or of client `c`. */
  function AsStep(d: Did, i: nat, failing: set<nat>, c: nat): R.Step {
    match d
    case Buffered(_) => R.Buffer(i)
    case Sent(_) => R.Send(i, failing)
    case Listed => R.Register(c)
    case ContentRead => R.Read(c)
    case _ => R.Restore(c)
  }

  function AsSteps(ds: seq<Did>, i: nat, failing: set<nat>, c: nat): (steps: seq<R.Step>)
    ensures |steps| == |ds| && forall k :: 0 <= k < |ds| ==> steps[k] == AsStep(ds[k], i, failing, c)
  {
    seq(|ds|, k requires 0 <= k < |ds| => AsStep(ds[k], i, failing, c))
  }

  // One more step is possible exactly if it is enabled.
  lemma RunOnIff(steps: seq<R.Step>, step: R.Step)
    requires R.Run(R.PROGRAM, steps).Some?
    ensures R.Run(R.PROGRAM, steps + [step]) ==
            if R.Enabled(R.PROGRAM, R.Run(R.PROGRAM, steps).value, step)
            then Some(R.Apply(R.Run(R.PROGRAM, steps).value, step)) else None
  {
    assert (steps + [step])[..|steps|] == steps;
  }

  /** A write's two steps make up a run of the program behind every run, in the order buffer, broadcast and in no other. */
  lemma WriteFollowsIff(steps: seq<R.Step>, out: Bytes, failing: set<nat>, ds: seq<Did>)
    requires R.Run(R.PROGRAM, steps).Some?
    requires ds == [Buffered(out), Sent(out)] || ds == [Sent(out), Buffered(out)]
    ensures var i := |R.Run(R.PROGRAM, steps).value.writes|;
            var begun := steps + [R.Begin(out)];
            R.Run(R.PROGRAM, begun + AsSteps(ds[..1], i, failing, 0)).Some? <==> ds == [Buffered(out), Sent(out)]
    ensures var i := |R.Run(R.PROGRAM, steps).value.writes|;
            ds == [Buffered(out), Sent(out)] ==>
              R.Run(R.PROGRAM, steps + [R.Begin(out)] + AsSteps(ds, i, failing, 0)).Some?
  {
    hide R.Run;
    var i := |R.Run(R.PROGRAM, steps).value.writes|;
    var begun := steps + [R.Begin(out)];
    RunOnIff(steps, R.Begin(out));
    var first := AsStep(ds[0], i, failing, 0);
    assert AsSteps(ds[..1], i, failing, 0) == [first];
    RunOnIff(begun, first);
    if ds[0].Buffered? {
      RunOnIff(begun + [first], R.Send(i, failing));
      assert begun + AsSteps(ds, i, failing, 0) == (begun + [first]) + [R.Send(i, failing)];
    }
  }

  /** The steps of an attach are a run of the program behind every run in which the client is new. */
  lemma AttachFollows(steps: seq<R.Step>, c: nat, ds: seq<Did>)
    requires R.Run(R.PROGRAM, steps).Some? && c !in R.Run(R.PROGRAM, steps).value.clients
    requires ds == [Listed, ContentRead, ContentSent]
    ensures R.Run(R.PROGRAM, steps + AsSteps(ds, 0, {}, c)).Some?
  {
    hide R.Run;
    RunOnIff(steps, R.Register(c));
    RunOnIff(steps + [R.Register(c)], R.Read(c));
    RunOnIff(steps + [R.Register(c)] + [R.Read(c)], R.Restore(c));
    assert steps + AsSteps(ds, 0, {}, c) == steps + [R.Register(c)] + [R.Read(c)] + [R.Restore(c)];
  }

  /** Content cannot be read before the client is listed. */
  lemma ReadingFirstFails(steps: seq<R.Step>, c: nat)
    requires R.Run(R.PROGRAM, steps).Some? && c !in R.Run(R.PROGRAM, steps).value.clients
    ensures R.Run(R.PROGRAM, steps + AsSteps([ContentRead], 0, {}, c)).None?
  {
    RunOnIff(steps, R.Read(c));
    assert AsSteps([ContentRead], 0, {}, c) == [R.Read(c)];
  }

  /** What the health watcher does when it has received the end: the entry can go then, and only behind that the event. */
  lemma EndFollowsIff(s: E.State, e: nat, ds: seq<Did>)
    requires E.Inv(s) && E.InRange(s) && e in s.execs && s.execs[e].watcher == E.Received
    requires var id := E.Id(s, e); ds == [Did.Removed(id), Announced(id)] || ds == [Announced(id), Did.Removed(id)]
    ensures var first := if ds[0].Removed? then E.Step.Remove(e) else E.Publish(e);
            E.Enabled(s, first) <==> ds == [Did.Removed(E.Id(s, e)), Announced(E.Id(s, e))]
    ensures ds[0].Removed? ==> E.Enabled(E.Apply(s, E.Step.Remove(e)), E.Publish(e))
  {
  }
}

/** The order of exec ids. */
module ExecIds {
  import opened Wrappers
  import opened ExecRegistry

  predicate Given(s: State, n: nat) {
    exists e :: e in s.execs && s.execs[e].serial == n
  }

  lemma GivenStep(s: State, step: Step, n: nat)
    requires Inv(s) && Enabled(s, step) && s.prev + 1 < UINT64
    requires 0 < n <= s.prev ==> Given(s, n)
    ensures 0 < n <= Apply(s, step).prev ==> Given(Apply(s, step), n)
  {
    hide Registered, Announced;
    NumberedKept(s, step);
    if 0 < n <= s.prev {
      var e :| e in s.execs && s.execs[e].serial == n;
      assert Apply(s, step).execs[e].serial == n;
    } else if n == s.prev + 1 && step.Create? && step.prepared {
      assert Apply(s, step).execs[step.exec].serial == n;
    }
  }

  // Every number up to the counter is that of some exec.
  lemma {:induction false} NumbersGiven(steps: seq<Step>, n: nat)
    requires Run(steps).Some? && Short(steps)
    ensures 0 < n <= Run(steps).value.prev ==> Given(Run(steps).value, n)
  {
    if steps != [] {
      hide Inv, Enabled, Apply;
      NumbersGiven(steps[..|steps| - 1], n);
      RunInv(steps[..|steps| - 1]);
      GivenStep(Run(steps[..|steps| - 1]).value, steps[|steps| - 1], n);
    }
  }

  /** In every reachable state ids grow in the order of creation, exactly if at most 2^63 - 1 execs have been created. */
  lemma {:induction false} IdsGrowIff(steps: seq<Step>)
    requires Run(steps).Some? && Short(steps)
    ensures Inv(Run(steps).value)
    ensures var s := Run(steps).value;
            (forall e, f :: e in s.execs && f in s.execs && 0 < s.execs[e].serial < s.execs[f].serial ==>
                              Id(s, e) < Id(s, f)) <==>
            s.prev < UINT64 / 2
  {
    RunInv(steps);
    var s := Run(steps).value;
    if s.prev >= UINT64 / 2 {
      NumbersGiven(steps, 1);
      NumbersGiven(steps, UINT64 / 2);
      var e :| e in s.execs && s.execs[e].serial == 1;
      var f :| f in s.execs && s.execs[f].serial == UINT64 / 2;
      assert Id(s, e) > Id(s, f);
    }
  }
}

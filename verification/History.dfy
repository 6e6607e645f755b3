/** The calls each pass makes to its flap detector; so what holds of call histories holds of runs. */
module History {
  import opened Text
  import opened Kube
  import opened Conditions
  import opened Flaps
  import opened Reconcile
  import opened Protocol

  /** The detector calls of one pass, up to the write. */
  ghost function PassCalls(lib: Lib, cfg: Config, d: Domain, node: Option<Node>, known: Known, now: int): seq<Call> {
    if node.None? || Matched(lib, cfg, d, node.value) == [] then [ForgetCall]
    else if InPlace(lib, cfg, d, node.value) then []
    else
      var current := Find(node.value.conditions, ConditionOf(d));
      var mark := DesiredPrint(lib, cfg, d, node.value);
      if !SaysTrue(current) then [RemainingCall]
      else if RulesChanged(known, mark) then [RulesCall(mark)]
      else [RulesCall(mark), DriftCall(now, current.value.heartbeat)]
  }

  ghost function StepCalls(lib: Lib, s: Sys, step: Step, d: Domain): seq<Call>
    requires Complete(s) && Enabled(s, step)
  {
    match step
    case Notify(w) => if w == Rule(d) && s.ctls[w].inbox[0] == Gone then [ForgetCall] else []
    case Finish(w, times, answer) =>
      if w != Rule(d) then []
      else
        var c, o := s.ctls[w], OutcomeOf(lib, s, w, times);
        PassCalls(lib, c.work.cfg, d, s.hist[c.work.snap], c.known, times.now)
        + (if o.write.Update? && Accepted(s.hist, c.work.snap, o.write, answer) && answer == Answered
           then [ApplyCall(times.end, o.write.mark)] else [])
    case _ => []
  }

  ghost function RunCalls(lib: Lib, s: Sys, steps: seq<Step>, d: Domain): seq<Call>
    requires Complete(s) && Runs(lib, s, steps)
    decreases |steps|
  {
    if steps == [] then []
    else
      DoComplete(lib, s, steps[0]);
      StepCalls(lib, s, steps[0], d) + RunCalls(lib, Do(lib, s, steps[0]), steps[1..], d)
  }

  lemma {:induction false} ReplayConcat(known: Known, a: seq<Call>, b: seq<Call>)
    ensures Flaps.Replay(known, a + b) == Flaps.Replay(Flaps.Replay(known, a), b)
    decreases |a|
  {
    if a == [] {
      assert a + b == b;
    } else {
      assert (a + b)[1..] == a[1..] + b;
      ReplayConcat(Flaps.Step(known, a[0]), a[1..], b);
    }
  }

  lemma ReplayOne(known: Known, c: Call)
    ensures Flaps.Replay(known, [c]) == Flaps.Step(known, c)
  {
    assert [c][1..] == [];
  }

  lemma ReplayTwo(known: Known, c: Call, e: Call)
    ensures Flaps.Replay(known, [c, e]) == Flaps.Step(Flaps.Step(known, c), e)
  {
    assert [c, e] == [c] + [e];
    ReplayConcat(known, [c], [e]);
    ReplayOne(known, c);
    ReplayOne(Flaps.Step(known, c), e);
  }

  lemma PassReplays(lib: Lib, cfg: Config, d: Domain, node: Option<Node>, known: Known, now: int, later: int,
                    stamp: int)
    ensures Pass(lib, cfg, d, node, known, now, later, stamp).known ==
            Flaps.Replay(known, PassCalls(lib, cfg, d, node, known, now))
  {
    hide Matched, InPlace, WithValues, DesiredPrint, DriftIn, WritersIn, Flaps.Replay, DriftedStep, EnsureCondition;
    ReplayOne(known, ForgetCall);
    ReplayOne(known, RemainingCall);
    ReplayNone(known);
    if node.Some? {
      var current, mark := Find(node.value.conditions, ConditionOf(d)), DesiredPrint(lib, cfg, d, node.value);
      ReplayOne(known, RulesCall(mark));
      if SaysTrue(current) {
        ReplayTwo(known, RulesCall(mark), DriftCall(now, current.value.heartbeat));
      }
    }
  }

  lemma ReplayNone(known: Known)
    ensures Flaps.Replay(known, []) == known
  {
  }

  lemma StepReplays(lib: Lib, s: Sys, step: Protocol.Step, d: Domain)
    requires Complete(s) && Enabled(s, step)
    ensures Complete(Do(lib, s, step))
    ensures Do(lib, s, step).ctls[Rule(d)].known == Flaps.Replay(s.ctls[Rule(d)].known, StepCalls(lib, s, step, d))
  {
    hide Pass, PassCalls, Flaps.Replay;
    DoComplete(lib, s, step);
    var known := s.ctls[Rule(d)].known;
    ReplayNone(known);
    ReplayOne(known, ForgetCall);
    if step.Finish? && step.w == Rule(d) {
      var c, t, o := s.ctls[step.w], step.times, OutcomeOf(lib, s, step.w, step.times);
      var calls := PassCalls(lib, c.work.cfg, d, s.hist[c.work.snap], known, t.now);
      PassReplays(lib, c.work.cfg, d, s.hist[c.work.snap], known, t.now, t.later, t.stamp);
      assert calls + [] == calls;
      if o.write.Update? {
        ReplayConcat(known, calls, [ApplyCall(t.end, o.write.mark)]);
        ReplayOne(o.known, ApplyCall(t.end, o.write.mark));
      }
    }
  }

  /** Along every run, the detector is in the state its calls put it in. */
  lemma {:induction false} RunReplays(lib: Lib, s: Sys, steps: seq<Protocol.Step>, d: Domain)
    requires Complete(s) && Runs(lib, s, steps)
    ensures After(lib, s, steps).ctls[Rule(d)].known == Flaps.Replay(s.ctls[Rule(d)].known, RunCalls(lib, s, steps, d))
    decreases |steps|
  {
    hide Do, Enabled, StepCalls;
    if steps != [] {
      StepReplays(lib, s, steps[0], d);
      RunReplays(lib, Do(lib, s, steps[0]), steps[1..], d);
      ReplayConcat(s.ctls[Rule(d)].known, StepCalls(lib, s, steps[0], d),
                   RunCalls(lib, Do(lib, s, steps[0]), steps[1..], d));
    }
  }

  /** In any run, with any number of other writers: from the first flap of a streak to any later one, at least the
      cooldowns of all flaps in between pass; and the state the run ends in has counted exactly those flaps. */
  lemma BackoffInRuns(lib: Lib, s: Sys, steps: seq<Protocol.Step>, d: Domain)
    requires Complete(s) && Runs(lib, s, steps) && StateOf(s.ctls[Rule(d)].known).flaps == 0
    requires NoReset(s.ctls[Rule(d)].known, RunCalls(lib, s, steps, d))
    ensures var times := FlapTimes(s.ctls[Rule(d)].known, RunCalls(lib, s, steps, d));
            && StateOf(After(lib, s, steps).ctls[Rule(d)].known).flaps == |times|
            && forall i :: 0 <= i < |times| ==> times[i] - times[0] >= CooldownSum(1, i)
  {
    hide Runs, After, RunCalls;
    var known, calls := s.ctls[Rule(d)].known, RunCalls(lib, s, steps, d);
    RunReplays(lib, s, steps, d);
    CountFlaps(known, calls);
    var times := FlapTimes(known, calls);
    forall i | 0 <= i < |times| ensures times[i] - times[0] >= CooldownSum(1, i) {
      BackoffBound(known, calls, 0, i);
    }
  }

  lemma {:induction false} CountFlaps(known: Known, calls: seq<Call>)
    requires NoReset(known, calls)
    ensures StateOf(Flaps.Replay(known, calls)).flaps == StateOf(known).flaps + |FlapTimes(known, calls)|
    decreases |calls|
  {
    if calls != [] {
      StreakChanges(known, calls[0]);
      CountFlaps(Flaps.Step(known, calls[0]), calls[1..]);
    }
  }
}

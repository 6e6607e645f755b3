/** The controllers can always finish: with BoundedWrites and NoLostWakeup, this makes them converge. */
module Convergence {
  import opened Text
  import opened Kube
  import opened Conditions
  import opened Flaps
  import opened Reconcile
  import opened Protocol
  import opened Termination
  import opened Scheduling
  import opened Wakeup
  import Initialization

  /** A pass of w over the current Node, once any cooldown is over, writes exactly when w has something to do. */
  lemma LatePassWrites(lib: Lib, w: Who, cfg: Config, node: Node, known: Known, t: int)
    requires t >= StateOf(known).until
    ensures Computed(lib, w, cfg, Some(node), known, At(t)).write == Nothing <==> Settled(lib, w, cfg, node)
  {
    hide Pass, Converged, Initialization.InitWrite;
    match w {
      case Init =>
      case Rule(d) => LateRulePass(lib, cfg, d, node, known, t);
    }
  }

  lemma LateRulePass(lib: Lib, cfg: Config, d: Domain, node: Node, known: Known, t: int)
    requires t >= StateOf(known).until
    ensures Pass(lib, cfg, d, Some(node), known, t, t, t).write == Nothing <==> Converged(lib, cfg, d, node)
  {
    hide Pass, Converged, Matched, InPlace, Find;
    SilentExactly(lib, cfg, d, node, known, t, t, t);
  }

  lemma FinishStores(lib: Lib, s: Sys, w: Who, t: int)
    requires Complete(s) && Current(s).Some? && !Settled(lib, w, s.cfg, Current(s).value)
    requires s.ctls[w].work == Ready(Last(s), s.cfg) && t >= s.ctls[w].clock && t >= StateOf(s.ctls[w].known).until
    ensures Enabled(s, Finish(w, At(t), Answered))
    ensures var u := Do(lib, s, Finish(w, At(t), Answered));
            var write := Computed(lib, w, s.cfg, Current(s), s.ctls[w].known, At(t)).write;
            write != Nothing && u.hist == s.hist + [Some(write.node)] && u.cfg == s.cfg
  {
    hide Computed, Settled;
    LatePassWrites(lib, w, s.cfg, Current(s).value, s.ctls[w].known, t);
    PassDoesSomething(lib, w, s.cfg, Current(s).value, s.ctls[w].known, At(t));
  }

  /** Some schedule lets w make a write it still has to make; known is what its detector then knows, t the time. */
  lemma MakeProgress(lib: Lib, s: Sys, w: Who) returns (steps: seq<Step>, known: Known, t: int)
    requires Complete(s) && Current(s).Some? && !Settled(lib, w, s.cfg, Current(s).value)
    ensures Runs(lib, s, steps) && AllUndisturbed(steps) && t >= StateOf(known).until
    ensures var write := Computed(lib, w, s.cfg, Current(s), known, At(t)).write;
            && write != Nothing
            && After(lib, s, steps).hist == s.hist + [Some(write.node)] && After(lib, s, steps).cfg == s.cfg
  {
    hide Enabled, Runs, After, Settled, Do, Computed;
    var xs := Drain(lib, s, w);
    var s1 := After(lib, s, xs);
    var ys := StartFresh(lib, s1, w);
    Join(lib, s, xs, ys);
    var s2 := After(lib, s1, ys);
    known := s2.ctls[w].known;
    t := Max(s2.ctls[w].clock, StateOf(known).until);
    var last := Finish(w, At(t), Answered);
    FinishStores(lib, s2, w, t);
    Extend(lib, s, xs + ys, last);
    steps := xs + ys + [last];
  }

  /** Lets all workers finish what they are doing. */
  lemma DrainAll(lib: Lib, s: Sys) returns (steps: seq<Step>)
    requires Complete(s)
    ensures Runs(lib, s, steps) && AllUndisturbed(steps)
    ensures var t := After(lib, s, steps);
            t.hist == s.hist && t.cfg == s.cfg && forall w: Who :: t.ctls[w].work == Idle
  {
    hide Runs, After, Do, Enabled;
    steps := Drain(lib, s, Init);
    var s1 := After(lib, s, steps);
    var xs := Drain(lib, s1, Rule(Labels));
    Join(lib, s, steps, xs);
    steps := steps + xs;
    var s2 := After(lib, s1, xs);
    xs := Drain(lib, s2, Rule(Annotations));
    Join(lib, s, steps, xs);
    steps := steps + xs;
    var s3 := After(lib, s2, xs);
    xs := Drain(lib, s3, Rule(Addresses));
    Join(lib, s, steps, xs);
    steps := steps + xs;
    forall w: Who ensures After(lib, s, steps).ctls[w].work == Idle {
      match w {
        case Init =>
        case Rule(Labels) =>
        case Rule(Annotations) =>
        case Rule(Addresses) =>
      }
    }
  }

  /** From every state with a Node whose labels can settle, whatever the workers, caches, queues and cooldowns are up
      to and whichever configurations workers under way still use, the controllers alone can bring the Node to where
      none of them has anything left to do. */
  lemma CanConverge(lib: Lib, s: Sys, r: nat) returns (steps: seq<Step>)
    requires Complete(s) && Current(s).Some? && Settles(lib, s.cfg, Current(s).value, r)
    ensures Runs(lib, s, steps) && AllUndisturbed(steps)
    ensures var t := After(lib, s, steps);
            t.cfg == s.cfg && Current(t).Some? && forall w :: Settled(lib, w, s.cfg, Current(t).value)
  {
    hide Runs, After, Settled, Settles;
    var xs := DrainAll(lib, s);
    var t := After(lib, s, xs);
    var ys := Converge(lib, t, r, MostConditions(Current(s).value));
    Join(lib, s, xs, ys);
    steps := xs + ys;
  }

  lemma {:induction false} Converge(lib: Lib, s: Sys, r: nat, k: nat) returns (steps: seq<Step>)
    requires Complete(s) && Tame(lib, s, r, k)
    ensures Runs(lib, s, steps) && AllUndisturbed(steps)
    ensures var t := After(lib, s, steps);
            t.cfg == s.cfg && Current(t).Some? && forall w :: Settled(lib, w, s.cfg, Current(t).value)
    decreases Measure(lib, s.cfg, Current(s).value, r, k)
  {
    hide Runs, After, Settled, Measure, Settles, AtMost, Computed;
    if w :| !Settled(lib, w, s.cfg, Current(s).value) {
      var xs, _, _ := MakeProgress(lib, s, w);
      RunInBudget(lib, s, xs, r, k);
      var ys := Converge(lib, After(lib, s, xs), r, k);
      Join(lib, s, xs, ys);
      steps := xs + ys;
    } else {
      steps := NoSteps(lib, s);
    }
  }
}

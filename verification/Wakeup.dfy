/** No wakeup is lost: whatever is left to do for the Node, something is pending that leads to another pass. */
module Wakeup {
  import opened Text
  import opened Kube
  import opened Flaps
  import opened Reconcile
  import opened Protocol
  import Initialization

  /** w has nothing to do for this Node under this configuration. */
  ghost predicate Settled(lib: Lib, w: Who, cfg: Config, node: Node) {
    match w
    case Init => Initialization.InitWrite(lib, cfg, node).None?
    case Rule(d) => Converged(lib, cfg, d, node)
  }

  /** A pass of w is under way, or something is pending that will cause one: the key is queued, delayed or up for a
      retry, a notification or a configuration change is on its way, or the cache is still to catch up. */
  ghost predicate Awake(s: Sys, w: Who)
    requires Complete(s)
  {
    var c := s.ctls[w];
    c.work != Idle || c.dirty || c.delayed || c.retry || Seen in c.inbox || c.trigger || s.cached < Last(s)
  }

  // ---- The invariant

  predicate Told(c: Ctl) {
    c.dirty || Seen in c.inbox
  }

  ghost predicate Inv(lib: Lib, s: Sys, w: Who)
    requires Complete(s)
  {
    var c := s.ctls[w];
    s.hist[s.cached].Some? ==>
      && (c.work != Idle && c.work.snap < s.cached ==> Told(c))
      && (c.work.Ready? && c.work.cfg != s.cfg ==> Told(c) || c.trigger)
      && (c.work == Idle && s.cached == Last(s) && !Settled(lib, w, s.cfg, s.hist[s.cached].value) ==>
            Told(c) || c.trigger || c.delayed || c.retry)
  }

  /** A pass over the current Node either finds it settled, or sends an update that differs, or schedules itself. */
  lemma PassDoesSomething(lib: Lib, w: Who, cfg: Config, node: Node, known: Known, times: Times)
    requires times.now <= times.later
    ensures var o := Computed(lib, w, cfg, Some(node), known, times);
            && (o.write == Nothing && o.after == None <==> Settled(lib, w, cfg, node))
            && (o.write != Nothing ==> o.write.node != node)
  {
    hide Pass, Converged, Initialization.InitWrite;
    match w {
      case Init =>
        if Initialization.InitWrite(lib, cfg, node).Some? { InitWriteDiffers(lib, cfg, node); }
      case Rule(d) =>
        SilentExactly(lib, cfg, d, node, known, times.now, times.later, times.stamp);
        WriteDiffers(lib, cfg, d, node, known, times.now, times.later, times.stamp);
    }
  }

  lemma InitWriteDiffers(lib: Lib, cfg: Config, node: Node)
    requires Initialization.InitWrite(lib, cfg, node).Some?
    ensures Initialization.InitWrite(lib, cfg, node).value != node
  {
    Initialization.InitSafety(lib, cfg, node);
  }

  lemma FinishKeepsInv(lib: Lib, s: Sys, w: Who, times: Times, answer: Answer, v: Who)
    requires Complete(s) && Enabled(s, Finish(w, times, answer)) && Inv(lib, s, v)
    ensures Complete(Finished(lib, s, w, times, answer)) && Inv(lib, Finished(lib, s, w, times, answer), v)
  {
    hide Computed, Settled;
    var c, t := s.ctls[w], Finished(lib, s, w, times, answer);
    var o := OutcomeOf(lib, s, w, times);
    if t.hist == s.hist && v == w && s.cached == Last(s) && s.hist[s.cached].Some? {
      if c.work.snap == s.cached && c.work.cfg == s.cfg {
        PassDoesSomething(lib, w, s.cfg, s.hist[s.cached].value, c.known, times);
      }
    }
  }

  lemma StepKeepsInv(lib: Lib, s: Sys, step: Step, v: Who)
    requires Complete(s) && Enabled(s, step) && Inv(lib, s, v)
    ensures Complete(Do(lib, s, step)) && Inv(lib, Do(lib, s, step), v)
  {
    hide Settled, Computed, Finished;
    DoComplete(lib, s, step);
    if step.Finish? {
      FinishKeepsInv(lib, s, step.w, step.times, step.answer, v);
    } else if step.Notify? {
      var inbox := s.ctls[step.w].inbox;
      assert Seen in inbox ==> inbox[0] == Seen || Seen in inbox[1..] by {
        assert inbox == [inbox[0]] + inbox[1..];
      }
    }
  }

  lemma {:induction false} RunKeepsInv(lib: Lib, s: Sys, steps: seq<Step>, v: Who)
    requires Complete(s) && Runs(lib, s, steps) && Inv(lib, s, v)
    ensures Inv(lib, After(lib, s, steps), v)
    decreases |steps|
  {
    hide Do, Inv, Enabled;
    if steps != [] {
      StepKeepsInv(lib, s, steps[0], v);
      RunKeepsInv(lib, Do(lib, s, steps[0]), steps[1..], v);
    }
  }

  /** In every reachable state, a controller that still has something to do for the current Node under the current
      configuration will get to it: after swallowed conflicts, lost answers, cooldowns and configuration changes
      alike. */
  lemma NoLostWakeup(lib: Lib, s: Sys, steps: seq<Step>, w: Who)
    requires Initial(s) && Runs(lib, s, steps)
    ensures var t := After(lib, s, steps);
            Current(t).Some? && !Settled(lib, w, t.cfg, Current(t).value) ==> Awake(t, w)
  {
    hide Do, Enabled, Settled;
    RunKeepsInv(lib, s, steps, w);
  }

  /** Put the other way round: once everything has come to rest, every controller has converged. */
  lemma AtRestMeansConverged(lib: Lib, s: Sys, steps: seq<Step>)
    requires Initial(s) && Runs(lib, s, steps)
    requires forall w: Who :: !Awake(After(lib, s, steps), w)
    ensures var t := After(lib, s, steps);
            Current(t).Some? ==>
              Initialization.InitWrite(lib, t.cfg, Current(t).value).None? &&
              forall d :: Converged(lib, t.cfg, d, Current(t).value)
  {
    hide Do, Enabled, Runs, Converged, Initialization.InitWrite;
    var t := After(lib, s, steps);
    if Current(t).Some? {
      forall w ensures Settled(lib, w, t.cfg, Current(t).value) { NoLostWakeup(lib, s, steps, w); }
      assert Settled(lib, Init, t.cfg, Current(t).value);
      forall d ensures Converged(lib, t.cfg, d, Current(t).value) {
        assert Settled(lib, Rule(d), t.cfg, Current(t).value);
      }
    }
  }
}

/** What accepted writes do to the server's Node, step by step and over whole runs. */
module Safety {
  import opened Text
  import opened Kube
  import opened Flaps
  import opened Reconcile
  import opened Protocol
  import Initialization

  /** The step stores an update by w. */
  ghost predicate Stores(lib: Lib, s: Sys, w: Who, times: Times, answer: Answer)
    requires Complete(s) && Enabled(s, Finish(w, times, answer))
  {
    |Finished(lib, s, w, times, answer).hist| > |s.hist|
  }

  /** n keeps everything of node but what the controller is in charge of. */
  ghost predicate OnlyOwn(w: Who, node: Node, n: Node) {
    match w
    case Init => n == node.(providerID := n.providerID, taints := n.taints)
    case Rule(d) => OwnPartOnly(d, node, n)
  }

  /** n has what the rules that match node agree on. */
  ghost predicate ByTheRules(lib: Lib, w: Who, cfg: Config, node: Node, n: Node) {
    match w
    case Init => InitByRules(node, n, Initialization.Matched(lib, cfg, node), cfg.initialization)
    case Rule(d) => FromRules(lib, cfg, d, node, n)
  }

  /** Some rule matched; a new providerID has the one scheme the matched rules ask for; and the taint only goes together
      with a providerID, unless no matched rule asks for one. */
  ghost predicate InitByRules(node: Node, n: Node, matched: seq<string>, rules: map<string, InitRule>) {
    var schemes := Initialization.Schemes(matched, rules);
    && matched != []
    && (n.providerID == node.providerID
        || (node.providerID == "" &&
            exists s :: schemes == {s} && Initialization.ReadsAs(n.providerID, s, node.name)))
    && (n.providerID == "" ==> schemes == {})
    && (forall t :: t in n.taints <==> t in node.taints && t.key != Uninitialized)
  }

  /** No update is lost: a stored update was computed from the very Node it replaces, however stale the cache was in the
      meantime; it differs from it only in the writing controller's own part; it removes no key and no address; and what
      it changes is what the rules matching that very Node agree on. */
  lemma NoLostUpdates(lib: Lib, s: Sys, w: Who, times: Times, answer: Answer)
    requires Complete(s) && Enabled(s, Finish(w, times, answer)) && Stores(lib, s, w, times, answer)
    ensures s.ctls[w].work.snap == Last(s) && Current(s).Some?
    ensures var node, n := Current(s).value, Current(Finished(lib, s, w, times, answer));
            && n.Some? && n.value != node
            && OnlyOwn(w, node, n.value) && KeepsAll(node, n.value)
            && ByTheRules(lib, w, s.ctls[w].work.cfg, node, n.value)
  {
    hide Pass, Initialization.InitWrite, OwnPartOnly, KeepsAll, ByTheRules;
    ComputedOwn(lib, w, s.ctls[w].work.cfg, s.hist[s.ctls[w].work.snap], s.ctls[w].known, times);
  }

  lemma ComputedOwn(lib: Lib, w: Who, cfg: Config, node: Option<Node>, known: Known, times: Times)
    requires Computed(lib, w, cfg, node, known, times).write != Nothing
    ensures var n := Computed(lib, w, cfg, node, known, times).write.node;
            && node.Some? && OnlyOwn(w, node.value, n) && KeepsAll(node.value, n)
            && ByTheRules(lib, w, cfg, node.value, n)
            && (w.Rule? ==> n.providerID == node.value.providerID && n.taints == node.value.taints)
            && (w.Init? ==> InitKeeps(node.value, n))
            && n.name == node.value.name
  {
    hide Pass, Initialization.InitWrite, FromRules, Initialization.Schemes, Initialization.ReadsAs;
    match w {
      case Init =>
        Initialization.InitSafety(lib, cfg, node.value);
        MatchedByInit(lib, cfg, node.value);
      case Rule(d) =>
        PassNeedsNode(lib, cfg, d, node, known, times.now, times.later, times.stamp);
        WritesOwnPart(lib, cfg, d, node.value, known, times.now, times.later, times.stamp);
    }
  }

  lemma MatchedByInit(lib: Lib, cfg: Config, node: Node)
    requires Initialization.InitWrite(lib, cfg, node).Some?
    ensures Initialization.Matched(lib, cfg, node) != []
  {
    hide Initialization.Matched;
  }

  ghost predicate InitKeeps(node: Node, n: Node) {
    && (node.providerID != "" ==> n.providerID == node.providerID)
    && (forall t :: t in n.taints ==> t in node.taints)
  }

  // ---- Over runs without other writers, under any configuration changes

  /** n is node with things added, never removed: keys, addresses, the providerID; and taints only go. */
  ghost predicate Grown(node: Node, n: Node) {
    && n.name == node.name
    && KeepsAll(node, n)
    && InitKeeps(node, n)
  }

  lemma GrownStep(lib: Lib, s: Sys, step: Step, node: Node)
    requires Complete(s) && Enabled(s, step) && !step.Rewrite? && Current(s).Some? && Grown(node, Current(s).value)
    ensures var t := Do(lib, s, step); Complete(t) && Current(t).Some? && Grown(node, Current(t).value)
  {
    hide Computed, OwnPartOnly, ByTheRules;
    DoComplete(lib, s, step);
    if step.Finish? {
      var c := s.ctls[step.w];
      if OutcomeOf(lib, s, step.w, step.times).write != Nothing && c.work.snap == Last(s) {
        ComputedOwn(lib, step.w, c.work.cfg, Current(s), c.known, step.times);
      }
    }
  }

  lemma {:induction false} GrownRun(lib: Lib, s: Sys, steps: seq<Step>, node: Node)
    requires Complete(s) && Runs(lib, s, steps) && Current(s).Some? && Grown(node, Current(s).value)
    requires forall i :: 0 <= i < |steps| ==> !steps[i].Rewrite?
    ensures var t := After(lib, s, steps); Current(t).Some? && Grown(node, Current(t).value)
    decreases |steps|
  {
    hide Do, Enabled, Grown;
    if steps != [] {
      GrownStep(lib, s, steps[0], node);
      GrownRun(lib, Do(lib, s, steps[0]), steps[1..], node);
    }
  }

  /** However the controllers interleave and the configuration changes: no label or annotation key and no address ever
      disappears, a providerID once set stays, and no taint comes back. */
  lemma NothingRemoved(lib: Lib, s: Sys, steps: seq<Step>)
    requires Complete(s) && Runs(lib, s, steps) && Current(s).Some?
    requires forall i :: 0 <= i < |steps| ==> !steps[i].Rewrite?
    ensures var t := After(lib, s, steps); Current(t).Some? && Grown(Current(s).value, Current(t).value)
  {
    hide Runs, After;
    GrownRun(lib, s, steps, Current(s).value);
  }

  // ---- Truthful conditions

  /** Right after a stored condition write of d, the server's Node carries a condition that tells the truth about that
      Node: True exactly when all values its matching rules resolve to are there. A condition is only cleared off a
      Node no rule matches. */
  lemma TruthfulOnServer(lib: Lib, s: Sys, d: Domain, times: Times, answer: Answer)
    requires Complete(s) && Enabled(s, Finish(Rule(d), times, answer)) && Stores(lib, s, Rule(d), times, answer)
    requires OutcomeOf(lib, s, Rule(d), times).write.Status? && Current(s).Some?
    ensures var n := Current(Finished(lib, s, Rule(d), times, answer));
            n.Some? && TellsTruth(lib, s.ctls[Rule(d)].work.cfg, d, Current(s).value, n.value)
  {
    hide Pass, TellsTruth, OwnPartOnly, KeepsAll, ByTheRules;
    NoLostUpdates(lib, s, Rule(d), times, answer);
    var c := s.ctls[Rule(d)];
    Truthful(lib, c.work.cfg, d, Current(s).value, c.known, times.now, times.later, times.stamp);
  }
}

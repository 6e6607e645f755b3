/** When the label rules never settle, nothing else stops the writes either: the exact condition for BoundedWrites. */
module Divergence {
  import opened Text
  import opened Kube
  import opened Matching
  import opened Values
  import opened Conditions
  import opened Flaps
  import opened Reconcile
  import opened Protocol
  import opened Termination
  import opened Scheduling
  import opened Convergence
  import opened Wakeup
  import opened Orbits
  import Initialization

  ghost predicate NeverSettles(lib: Lib, cfg: Config, node: Node) {
    forall r: nat :: !Settles(lib, cfg, node, r)
  }

  /** If a Node never settles, then it does not settle once it is initialized, or once the label rules are applied. */
  lemma OneWayOn(lib: Lib, cfg: Config, node: Node)
    requires NeverSettles(lib, cfg, node)
    ensures || (Initialization.InitWrite(lib, cfg, node).Some? && NeverSettles(lib, cfg, Initialized(lib, cfg, node)))
            || (!InPlace(lib, cfg, Labels, node) && NeverSettles(lib, cfg, WithValues(lib, cfg, Labels, node)))
  {
    hide InPlace, WithValues, Initialized, Initialization.InitWrite;
    var n, w := Initialized(lib, cfg, node), WithValues(lib, cfg, Labels, node);
    var a: nat := if a: nat :| Settles(lib, cfg, n, a) then a else 0;
    var b: nat := if b: nat :| Settles(lib, cfg, w, b) then b else 0;
    if Settles(lib, cfg, n, a) { StillSettles(lib, cfg, n, a, a + b + 1); }
    if Settles(lib, cfg, w, b) { StillSettles(lib, cfg, w, b, a + b); }
    assert !Settles(lib, cfg, node, a + b + 1);
  }

  /** The controller that can lead a Node that never settles to another such Node. */
  ghost function Restless(lib: Lib, cfg: Config, node: Node): Who {
    if Initialization.InitWrite(lib, cfg, node).Some? && NeverSettles(lib, cfg, Initialized(lib, cfg, node)) then Init
    else Rule(Labels)
  }

  /** It has something to do. */
  lemma RestlessWorks(lib: Lib, cfg: Config, node: Node)
    requires NeverSettles(lib, cfg, node)
    ensures !Settled(lib, Restless(lib, cfg, node), cfg, node)
  {
    hide NeverSettles, InPlace, WithValues, Initialized, Initialization.InitWrite, Matched, UpToDate;
    OneWayOn(lib, cfg, node);
    NoneMatched(lib, cfg, node);
  }

  /** And whatever it writes next does not settle either. */
  lemma RestlessStays(lib: Lib, cfg: Config, node: Node, known: Known, t: int)
    requires NeverSettles(lib, cfg, node)
    requires Computed(lib, Restless(lib, cfg, node), cfg, Some(node), known, At(t)).write != Nothing
    ensures NeverSettles(lib, cfg, Computed(lib, Restless(lib, cfg, node), cfg, Some(node), known, At(t)).write.node)
  {
    hide NeverSettles, InPlace, WithValues, Pass, Initialization.InitWrite;
    OneWayOn(lib, cfg, node);
    if Restless(lib, cfg, node) == Rule(Labels) {
      WritesOwnPart(lib, cfg, Labels, node, known, t, t, t);
      var w := Pass(lib, cfg, Labels, Some(node), known, t, t, t).write;
      if w.Status? { SameNever(lib, cfg, node, w.node); }
    }
  }

  lemma SameNever(lib: Lib, cfg: Config, node: Node, w: Node)
    requires NeverSettles(lib, cfg, node) && SameForRules(node, w)
    ensures NeverSettles(lib, cfg, w)
  {
    hide Settles;
    forall r: nat ensures !Settles(lib, cfg, w, r) { SameOrbit(lib, cfg, node, w, r); }
  }

  /** If a Node never settles, one more pass writes something; and the Node still never settles afterwards. */
  lemma OneMoreWrite(lib: Lib, s: Sys) returns (steps: seq<Step>)
    requires Complete(s) && Current(s).Some? && NeverSettles(lib, s.cfg, Current(s).value)
    ensures Runs(lib, s, steps) && AllUndisturbed(steps)
    ensures var t := After(lib, s, steps);
            |t.hist| == |s.hist| + 1 && t.cfg == s.cfg && Current(t).Some? && NeverSettles(lib, t.cfg, Current(t).value)
  {
    hide NeverSettles, Runs, After, Computed, Restless, Settled;
    var node := Current(s).value;
    RestlessWorks(lib, s.cfg, node);
    var known, t;
    steps, known, t := MakeProgress(lib, s, Restless(lib, s.cfg, node));
    RestlessStays(lib, s.cfg, node, known, t);
  }

  /** Rules that do not match want nothing. */
  lemma NoneMatched(lib: Lib, cfg: Config, node: Node)
    ensures Matched(lib, cfg, Labels, node) == [] ==> InPlace(lib, cfg, Labels, node)
  {
    hide MatchingIDs;
    if Matched(lib, cfg, Labels, node) == [] {
      assert KeysOf(RulesFor([], cfg.labels)) == {};
      assert Desired(lib, cfg, Labels, node) == map[];
    }
  }

  lemma {:induction false} AnyNumberOfWrites(lib: Lib, s: Sys, n: nat) returns (steps: seq<Step>)
    requires Complete(s) && Current(s).Some? && NeverSettles(lib, s.cfg, Current(s).value)
    ensures Runs(lib, s, steps) && AllUndisturbed(steps) && |After(lib, s, steps).hist| == |s.hist| + n
    decreases n
  {
    hide Do, Enabled, NeverSettles;
    if n == 0 {
      steps := [];
    } else {
      var xs := OneMoreWrite(lib, s);
      var ys := AnyNumberOfWrites(lib, After(lib, s, xs), n - 1);
      Join(lib, s, xs, ys);
      steps := xs + ys;
    }
  }

  // ---- Exactly when

  /** No undisturbed run from s adds more than b versions. */
  ghost predicate WritesBounded(lib: Lib, s: Sys, b: nat)
    requires Complete(s)
  {
    forall steps | Runs(lib, s, steps) && AllUndisturbed(steps) :: |After(lib, s, steps).hist| <= |s.hist| + b
  }

  /** The controllers stop writing if and only if applying the label rules to the Node's labels again and again comes
      to an end, whenever the Node is initialized; and that can be checked by applying them EnoughRounds times.
      Annotations, addresses and conditions are no hindrance. */
  lemma BoundedExactly(lib: Lib, s: Sys)
    requires Complete(s) && ConfigRead(s) && Current(s).Some?
    ensures (exists b: nat :: WritesBounded(lib, s, b)) <==> (exists r: nat :: Settles(lib, s.cfg, Current(s).value, r))
    ensures (exists b: nat :: WritesBounded(lib, s, b)) <==>
            Settles(lib, s.cfg, Current(s).value, EnoughRounds(s.cfg, Current(s).value))
  {
    hide Runs, After, Settles, WritesBounded, EnoughRounds;
    var node := Current(s).value;
    SettlesSoon(lib, s.cfg, node);
    if r: nat :| Settles(lib, s.cfg, node, r) {
      SettlingBounds(lib, s, r);
      assert exists b: nat :: WritesBounded(lib, s, b);
    }
    if b: nat :| WritesBounded(lib, s, b) {
      if !exists r: nat :: Settles(lib, s.cfg, node, r) {
        assert NeverSettles(lib, s.cfg, node);
        Unbounded(lib, s, b);
        assert false;
      }
    }
  }

  lemma SettlingBounds(lib: Lib, s: Sys, r: nat)
    requires Complete(s) && ConfigRead(s) && Current(s).Some? && Settles(lib, s.cfg, Current(s).value, r)
    ensures WritesBounded(lib, s, MaxWrites(r, MostConditions(Current(s).value)))
  {
    hide Runs, After, Settles, MaxWrites, Measure, MostConditions;
    forall steps | Runs(lib, s, steps) && AllUndisturbed(steps)
      ensures |After(lib, s, steps).hist| <= |s.hist| + MaxWrites(r, MostConditions(Current(s).value))
    {
      BoundedWrites(lib, s, steps, r);
    }
  }

  lemma Unbounded(lib: Lib, s: Sys, b: nat)
    requires Complete(s) && Current(s).Some? && NeverSettles(lib, s.cfg, Current(s).value)
    ensures !WritesBounded(lib, s, b)
  {
    hide Runs, After, NeverSettles;
    var steps := AnyNumberOfWrites(lib, s, b + 1);
    assert Runs(lib, s, steps);
  }

  // ---- With passes under older configurations still on their way

  /** One stored write of the controllers alone can leave n, be it from an older configuration. */
  ghost predicate Leaves(lib: Lib, s: Sys, n: Node)
    requires Complete(s)
  {
    exists steps :: Runs(lib, s, steps) && AllUndisturbed(steps) && After(lib, s, steps).hist == s.hist + [Some(n)]
  }

  ghost predicate AllLeftSettle(lib: Lib, s: Sys)
    requires Complete(s)
  {
    forall n :: Leaves(lib, s, n) ==> Settles(lib, s.cfg, n, EnoughRounds(s.cfg, n))
  }

  lemma {:induction false} RunKeepsConfig(lib: Lib, s: Sys, steps: seq<Step>)
    requires Complete(s) && Runs(lib, s, steps) && AllUndisturbed(steps)
    ensures After(lib, s, steps).cfg == s.cfg
    decreases |steps|
  {
    hide Computed;
    if steps != [] {
      DoComplete(lib, s, steps[0]);
      RunKeepsConfig(lib, Do(lib, s, steps[0]), steps[1..]);
    }
  }

  /** What is bounded from s on is bounded from any later state on. */
  lemma LaterBounded(lib: Lib, s: Sys, xs: seq<Step>, b: nat)
    requires Complete(s) && WritesBounded(lib, s, b) && Runs(lib, s, xs) && AllUndisturbed(xs)
    requires |s.hist| <= |After(lib, s, xs).hist|
    ensures WritesBounded(lib, After(lib, s, xs), b)
  {
    hide Runs, After;
    var t := After(lib, s, xs);
    forall ys | Runs(lib, t, ys) && AllUndisturbed(ys) ensures |After(lib, t, ys).hist| <= |t.hist| + b {
      Join(lib, s, xs, ys);
      assert AllUndisturbed(xs + ys);
    }
  }

  lemma BoundedLeft(lib: Lib, s: Sys, b: nat, n: Node)
    requires Complete(s) && WritesBounded(lib, s, b) && Leaves(lib, s, n)
    ensures Settles(lib, s.cfg, n, EnoughRounds(s.cfg, n))
  {
    hide Runs, After, WritesBounded, Settles, EnoughRounds, ConfigRead;
    var xs :| Runs(lib, s, xs) && AllUndisturbed(xs) && After(lib, s, xs).hist == s.hist + [Some(n)];
    OneStaleWrite(lib, s, xs);
    RunKeepsConfig(lib, s, xs);
    LaterBounded(lib, s, xs, b);
    BoundedExactly(lib, After(lib, s, xs));
  }

  /** The most rounds any Node needs. */
  function MostRounds(cfg: Config): nat {
    Scale(3, Power(|RuleValues(cfg)| + 1, |RuleKeys(cfg)|))
  }

  lemma EnoughIsMost(cfg: Config, node: Node)
    ensures EnoughRounds(cfg, node) <= MostRounds(cfg)
  {
    hide RuleKeys, RuleValues, Power;
    ProductGrows(1 + Initialization.Rank(node), 3, Power(|RuleValues(cfg)| + 1, |RuleKeys(cfg)|));
  }

  /** No write adds conditions beyond the first of a type. */
  lemma WriteAtMost(lib: Lib, w: Who, cfg: Config, node: Node, known: Known, times: Times, k: nat)
    requires AtMost(node, k) && Computed(lib, w, cfg, Some(node), known, times).write != Nothing
    ensures AtMost(Computed(lib, w, cfg, Some(node), known, times).write.node, k)
  {
    hide Pass, Initialization.InitWrite;
    match w {
      case Init => Initialization.InitSafety(lib, cfg, node);
      case Rule(d) =>
        if Pass(lib, cfg, d, Some(node), known, times.now, times.later, times.stamp).write.Status? {
          StatusConditions(lib, cfg, d, node, known, times.now, times.later, times.stamp);
        } else {
          WritesOwnPart(lib, cfg, d, node, known, times.now, times.later, times.stamp);
        }
    }
  }

  lemma StepWrites(lib: Lib, s: Sys, step: Step, k: nat)
    requires Complete(s) && Enabled(s, step) && Undisturbed(step) && Current(s).Some? && AtMost(Current(s).value, k)
    ensures var t := Do(lib, s, step);
            && Complete(t) && t.cfg == s.cfg && Current(t).Some? && AtMost(Current(t).value, k)
            && (t.hist == s.hist || t.hist == s.hist + [Current(t)])
  {
    hide Computed, AtMost;
    DoComplete(lib, s, step);
    if step.Finish? {
      var c, o := s.ctls[step.w], OutcomeOf(lib, s, step.w, step.times);
      if o.write != Nothing && c.work.snap == Last(s) {
        WriteAtMost(lib, step.w, c.work.cfg, Current(s).value, c.known, step.times, k);
      }
    }
  }

  /** A run splits at its first write. */
  lemma {:induction false} FirstWrite(lib: Lib, s: Sys, steps: seq<Step>, k: nat) returns (i: nat)
    requires Complete(s) && Runs(lib, s, steps) && AllUndisturbed(steps)
    requires Current(s).Some? && AtMost(Current(s).value, k) && After(lib, s, steps).hist != s.hist
    ensures i <= |steps| && Runs(lib, s, steps[..i]) && AllUndisturbed(steps[..i]) && AllUndisturbed(steps[i..])
    ensures var t := After(lib, s, steps[..i]);
            && Current(t).Some? && AtMost(Current(t).value, k) && t.hist == s.hist + [Current(t)]
            && Runs(lib, t, steps[i..]) && After(lib, t, steps[i..]) == After(lib, s, steps)
    decreases |steps|
  {
    hide Do, Enabled, AtMost;
    StepWrites(lib, s, steps[0], k);
    var u := Do(lib, s, steps[0]);
    if u.hist == s.hist {
      var j := FirstWrite(lib, u, steps[1..], k);
      i := 1 + j;
      assert steps[..i][1..] == steps[1..][..i - 1] && steps[1..][i - 1..] == steps[i..];
    } else {
      i := 1;
      OneStep(lib, s, steps);
    }
  }

  lemma OneStep(lib: Lib, s: Sys, steps: seq<Step>)
    requires Complete(s) && steps != [] && Runs(lib, s, steps)
    ensures Runs(lib, s, steps[..1]) && Complete(Do(lib, s, steps[0]))
    ensures After(lib, s, steps[..1]) == Do(lib, s, steps[0]) && steps[..1] == [steps[0]]
    ensures Runs(lib, Do(lib, s, steps[0]), steps[1..])
  {
    hide Do, Enabled;
    DoComplete(lib, s, steps[0]);
    assert steps[..1][1..] == [];
  }

  lemma LeftBounds(lib: Lib, s: Sys)
    requires Complete(s) && Current(s).Some? && AllLeftSettle(lib, s)
    ensures WritesBounded(lib, s, 1 + MaxWrites(MostRounds(s.cfg), MostConditions(Current(s).value)))
  {
    hide Runs, After, MaxWrites, MostConditions, MostRounds, AllLeftSettle, AtMost;
    var k := MostConditions(Current(s).value);
    WithinMost(Current(s).value);
    forall steps | Runs(lib, s, steps) && AllUndisturbed(steps)
      ensures |After(lib, s, steps).hist| <= |s.hist| + (1 + MaxWrites(MostRounds(s.cfg), k))
    {
      if After(lib, s, steps).hist != s.hist { AfterFirstWrite(lib, s, steps, k); }
    }
  }

  lemma WithinMost(node: Node)
    ensures AtMost(node, MostConditions(node))
  {
  }

  lemma AfterFirstWrite(lib: Lib, s: Sys, steps: seq<Step>, k: nat)
    requires Complete(s) && Current(s).Some? && AllLeftSettle(lib, s) && AtMost(Current(s).value, k)
    requires Runs(lib, s, steps) && AllUndisturbed(steps) && After(lib, s, steps).hist != s.hist
    ensures |After(lib, s, steps).hist| <= |s.hist| + 1 + MaxWrites(MostRounds(s.cfg), k)
  {
    hide Runs, After, MaxWrites, MostRounds, AtMost, Settles, EnoughRounds, Measure, ConfigRead;
    var i := FirstWrite(lib, s, steps, k);
    var t := After(lib, s, steps[..i]);
    var n := Current(t).value;
    assert Leaves(lib, s, n);
    OneStaleWrite(lib, s, steps[..i]);
    RunKeepsConfig(lib, s, steps[..i]);
    var r := EnoughRounds(s.cfg, n);
    RunInBudget(lib, t, steps[i..], r, k);
    MeasureBounded(lib, s.cfg, n, r, k);
    EnoughIsMost(s.cfg, n);
    MaxGrows(r, MostRounds(s.cfg), k);
  }

  lemma MaxGrows(r: nat, more: nat, k: nat)
    requires r <= more
    ensures MaxWrites(r, k) <= MaxWrites(more, k)
  {
    ProductGrows(2 + r, 2 + more, 3 * k + 1);
  }

  /** In general, with passes under any configurations on their way: the controllers stop writing if and only if
      every Node that one stored write can leave settles. */
  lemma BoundedInGeneral(lib: Lib, s: Sys)
    requires Complete(s) && Current(s).Some?
    ensures (exists b: nat :: WritesBounded(lib, s, b)) <==> AllLeftSettle(lib, s)
  {
    hide WritesBounded, Settles, EnoughRounds, Leaves, MaxWrites, MostRounds, MostConditions;
    if b: nat :| WritesBounded(lib, s, b) {
      forall n | Leaves(lib, s, n) ensures Settles(lib, s.cfg, n, EnoughRounds(s.cfg, n)) { BoundedLeft(lib, s, b, n); }
    }
    if AllLeftSettle(lib, s) { LeftBounds(lib, s); }
  }

  /** If no pass over the current Node uses an older configuration, that comes down to the Node itself. */
  lemma SettlingIsEnough(lib: Lib, s: Sys)
    requires Complete(s) && Current(s).Some? && ConfigRead(s)
    ensures AllLeftSettle(lib, s) <==> exists r: nat :: Settles(lib, s.cfg, Current(s).value, r)
  {
    hide WritesBounded, Settles, EnoughRounds, AllLeftSettle, ConfigRead;
    BoundedInGeneral(lib, s);
    BoundedExactly(lib, s);
  }

  // ---- Two rules that chase each other

  /** One rule turns a label from v to w, the other back. */
  function Chase(a: string, b: string, key: string, v: string, w: string): Config {
    EMPTY_CONFIG.(labels := map[a := ValueRule(Match(map[key := v], [], ""), map[key := w]),
                                b := ValueRule(Match(map[key := w], [], ""), map[key := v])])
  }

  /** Nothing rejects such a configuration, and no number of rounds settles it: it keeps the controllers writing. */
  lemma {:induction false} ChaseNeverSettles(lib: Lib, a: string, b: string, key: string, v: string, w: string,
                                             node: Node, r: nat)
    requires a != b && v != w && key in node.labels && node.labels[key] in {v, w}
    ensures !Settles(lib, Chase(a, b, key, v, w), node, r)
    decreases r
  {
    hide WithValues;
    ChaseStep(lib, a, b, key, v, w, node);
    if r > 0 {
      ChaseNeverSettles(lib, a, b, key, v, w, WithValues(lib, Chase(a, b, key, v, w), Labels, node), r - 1);
    }
  }

  /** It depends on the Node: the same rules leave alone all Nodes whose label has neither value. */
  lemma ChaseSparesOthers(lib: Lib, a: string, b: string, key: string, v: string, w: string, node: Node)
    requires a != b && !(key in node.labels && node.labels[key] in {v, w})
    ensures Settles(lib, Chase(a, b, key, v, w), node, 0)
  {
    hide InPlace, Matches;
    var cfg := Chase(a, b, key, v, w);
    NoChaser(lib, a, b, key, v, w, node);
    NoneMatched(lib, cfg, node);
    assert Initialization.InitMatches(cfg) == map[];
    assert MatchingSet(lib, node.labels, node.name, node.providerID, Initialization.InitMatches(cfg)) == {};
  }

  lemma NoChaser(lib: Lib, a: string, b: string, key: string, v: string, w: string, node: Node)
    requires a != b && !(key in node.labels && node.labels[key] in {v, w})
    ensures Matched(lib, Chase(a, b, key, v, w), Labels, node) == []
  {
    var ms := RuleMatches(Chase(a, b, key, v, w), Labels);
    assert key in map[key := v] && key in map[key := w];
    assert forall x :: x in ms ==> !Matches(lib, node.labels, node.name, node.providerID, ms[x]);
    assert MatchingSet(lib, node.labels, node.name, node.providerID, ms) == {};
  }

  lemma ChaseStep(lib: Lib, a: string, b: string, key: string, v: string, w: string, node: Node)
    requires a != b && v != w && key in node.labels && node.labels[key] in {v, w}
    ensures WithValues(lib, Chase(a, b, key, v, w), Labels, node).labels ==
            node.labels[key := if node.labels[key] == v then w else v]
  {
    hide Matched, Resolved, Matches, Desired;
    var cfg := Chase(a, b, key, v, w);
    var other := if node.labels[key] == v then w else v;
    ChaseDesired(lib, a, b, key, v, w, node);
    assert node.labels + map[key := other] == node.labels[key := other];
  }

  lemma ChaseDesired(lib: Lib, a: string, b: string, key: string, v: string, w: string, node: Node)
    requires a != b && v != w && key in node.labels && node.labels[key] in {v, w}
    ensures Desired(lib, Chase(a, b, key, v, w), Labels, node) == map[key := if node.labels[key] == v then w else v]
  {
    hide Matched, Resolved, Matches;
    var other := if node.labels[key] == v then w else v;
    var cfg := Chase(a, b, key, v, w);
    ChaseMatches(lib, a, b, key, v, w, node);
    assert RulesFor(Matched(lib, cfg, Labels, node), cfg.labels) == [map[key := other]];
    OnlyRule(map[key := other]);
  }

  lemma ChaseMatches(lib: Lib, a: string, b: string, key: string, v: string, w: string, node: Node)
    requires a != b && v != w && key in node.labels && node.labels[key] in {v, w}
    ensures Matched(lib, Chase(a, b, key, v, w), Labels, node) == [if node.labels[key] == v then a else b]
  {
    hide SortedOf, Matches;
    var cfg := Chase(a, b, key, v, w);
    var id := if node.labels[key] == v then a else b;
    OneChaser(lib, a, b, key, v, w, node);
    assert MatchingSet(lib, node.labels, node.name, node.providerID, RuleMatches(cfg, Labels)) == {id};
    OneListed(id);
  }

  lemma OneChaser(lib: Lib, a: string, b: string, key: string, v: string, w: string, node: Node)
    requires a != b && v != w && key in node.labels && node.labels[key] in {v, w}
    ensures var ms, id := RuleMatches(Chase(a, b, key, v, w), Labels), if node.labels[key] == v then a else b;
            forall x :: x in ms && Matches(lib, node.labels, node.name, node.providerID, ms[x]) <==> x == id
  {
    assert key in map[key := v] && key in map[key := w];
  }
}

/** How many rounds of label rules are enough to tell whether they come to an end. */
module Orbits {
  import opened Kube
  import opened Matching
  import opened Values
  import opened Reconcile
  import opened Termination
  import Initialization

  // ---- What label rules can make of a Node's labels

  function RuleKeys(cfg: Config): set<string> {
    set id, k | id in cfg.labels && k in cfg.labels[id].values :: k
  }

  function RuleValues(cfg: Config): set<string> {
    set id, k | id in cfg.labels && k in cfg.labels[id].values :: cfg.labels[id].values[k]
  }

  function Power(b: nat, e: nat): nat {
    if e == 0 then 1 else b * Power(b, e - 1)
  }

  /** All maps from some of the keys to some of the values. */
  ghost function Overrides(keys: set<string>, values: set<string>): set<Pairs>
    decreases |keys|
  {
    if keys == {} then {map[]}
    else
      var k :| k in keys;
      var rest := Overrides(keys - {k}, values);
      rest + With(rest, k, values)
  }

  ghost function With(gs: set<Pairs>, k: string, values: set<string>): set<Pairs> {
    set g, v | g in gs && v in values :: g[k := v]
  }

  lemma WithAll(gs: set<Pairs>, k: string, values: set<string>, g: Pairs, v: string)
    requires g in gs && v in values
    ensures g[k := v] in With(gs, k, values)
  {
  }

  lemma WithOnly(gs: set<Pairs>, k: string, values: set<string>, h: Pairs) returns (g: Pairs, v: string)
    requires h in With(gs, k, values)
    ensures g in gs && v in values && h == g[k := v]
  {
    g, v :| g in gs && v in values && h == g[k := v];
  }

  lemma {:induction false} OverridesAll(keys: set<string>, values: set<string>, g: Pairs)
    requires g.Keys <= keys && forall k :: k in g ==> g[k] in values
    ensures g in Overrides(keys, values)
    decreases |keys|
  {
    if keys == {} {
      assert g == map[];
    } else {
      var k :| k in keys && Overrides(keys, values) ==
                            Overrides(keys - {k}, values) + With(Overrides(keys - {k}, values), k, values);
      if k in g {
        var h := g - {k};
        OverridesAll(keys - {k}, values, h);
        assert g == h[k := g[k]] && g[k] in values;
        WithAll(Overrides(keys - {k}, values), k, values, h, g[k]);
      } else {
        OverridesAll(keys - {k}, values, g);
      }
    }
  }

  lemma {:induction false} WithBound(gs: set<Pairs>, k: string, values: set<string>)
    ensures |With(gs, k, values)| <= |gs| * |values|
    decreases |gs|
  {
    if gs == {} {
      assert With(gs, k, values) == {};
    } else {
      var g :| g in gs;
      var rest := gs - {g};
      WithBound(rest, k, values);
      OneBound(g, k, values);
      assert gs == rest + {g};
      assert With(gs, k, values) == With(rest, k, values) + With({g}, k, values);
      assert |gs| * |values| == |rest| * |values| + |values| by { assert |gs| == |rest| + 1; }
    }
  }

  lemma {:induction false} OneBound(g: Pairs, k: string, values: set<string>)
    ensures |With({g}, k, values)| <= |values|
    decreases |values|
  {
    if values == {} {
      assert With({g}, k, values) == {};
    } else {
      var v :| v in values;
      OneBound(g, k, values - {v});
      assert values == (values - {v}) + {v};
      assert With({g}, k, values) == With({g}, k, values - {v}) + {g[k := v]};
    }
  }

  lemma {:induction false} OverridesBound(keys: set<string>, values: set<string>)
    ensures |Overrides(keys, values)| <= Power(|values| + 1, |keys|)
    decreases |keys|
  {
    if keys != {} {
      var k :| k in keys && Overrides(keys, values) ==
                            Overrides(keys - {k}, values) + With(Overrides(keys - {k}, values), k, values);
      var rest := Overrides(keys - {k}, values);
      OverridesBound(keys - {k}, values);
      WithBound(rest, k, values);
      Grows(|rest|, Power(|values| + 1, |keys| - 1), |values|);
    }
  }

  lemma Grows(a: nat, b: nat, v: nat)
    requires a <= b
    ensures a + a * v <= (v + 1) * b
  {
    assert a * (v + 1) <= b * (v + 1);
  }

  /** The labels the rules can lead to from base. */
  ghost function Reachable(cfg: Config, base: Pairs): set<Pairs> {
    set g | g in Overrides(RuleKeys(cfg), RuleValues(cfg)) :: base + g
  }

  lemma ReachableBound(cfg: Config, base: Pairs)
    ensures |Reachable(cfg, base)| <= Power(|RuleValues(cfg)| + 1, |RuleKeys(cfg)|)
  {
    OverridesBound(RuleKeys(cfg), RuleValues(cfg));
    ImageBound(Overrides(RuleKeys(cfg), RuleValues(cfg)), base);
  }

  lemma {:induction false} ImageBound(gs: set<Pairs>, base: Pairs)
    ensures |set g | g in gs :: base + g| <= |gs|
    decreases |gs|
  {
    if gs != {} {
      var h :| h in gs;
      ImageBound(gs - {h}, base);
      assert (set g | g in gs :: base + g) == (set g | g in gs - {h} :: base + g) + {base + h};
    }
  }

  lemma ReachableStart(cfg: Config, base: Pairs)
    ensures base in Reachable(cfg, base)
  {
    OverridesAll(RuleKeys(cfg), RuleValues(cfg), map[]);
    assert base + map[] == base;
  }

  lemma ReachableNext(lib: Lib, cfg: Config, base: Pairs, node: Node)
    requires node.labels in Reachable(cfg, base)
    ensures WithValues(lib, cfg, Labels, node).labels in Reachable(cfg, base)
  {
    hide Overrides, RuleKeys, RuleValues, Desired;
    var g :| g in Overrides(RuleKeys(cfg), RuleValues(cfg)) && node.labels == base + g;
    var desired := Desired(lib, cfg, Labels, node);
    OverridesOnly(RuleKeys(cfg), RuleValues(cfg), g);
    DesiredFromRules(lib, cfg, node);
    OverridesAll(RuleKeys(cfg), RuleValues(cfg), g + desired);
    assert base + g + desired == base + (g + desired);
  }

  lemma {:induction false} OverridesOnly(keys: set<string>, values: set<string>, g: Pairs)
    requires g in Overrides(keys, values)
    ensures g.Keys <= keys && forall k :: k in g ==> g[k] in values
    decreases |keys|
  {
    if keys != {} {
      var k :| k in keys && Overrides(keys, values) ==
                            Overrides(keys - {k}, values) + With(Overrides(keys - {k}, values), k, values);
      if g in Overrides(keys - {k}, values) {
        OverridesOnly(keys - {k}, values, g);
      } else {
        var h, v := WithOnly(Overrides(keys - {k}, values), k, values, g);
        OverridesOnly(keys - {k}, values, h);
      }
    }
  }

  lemma DesiredFromRules(lib: Lib, cfg: Config, node: Node)
    ensures var desired := Desired(lib, cfg, Labels, node);
            desired.Keys <= RuleKeys(cfg) && forall k :: k in desired ==> desired[k] in RuleValues(cfg)
  {
    hide MatchingIDs;
    var ids := Matched(lib, cfg, Labels, node);
    var rules, desired := RulesFor(ids, cfg.labels), Desired(lib, cfg, Labels, node);
    forall k | k in desired ensures k in RuleKeys(cfg) && desired[k] in RuleValues(cfg) {
      ResolvedExactly(rules, k, desired[k]);
      var i :| 0 <= i < |rules| && k in rules[i] && rules[i][k] == desired[k];
      assert ids[i] in cfg.labels && k in cfg.labels[ids[i]].values;
    }
  }

  // ---- The labels alone

  ghost predicate LabelsSettle(lib: Lib, cfg: Config, node: Node, r: nat)
    decreases r
  {
    InPlace(lib, cfg, Labels, node) || (r > 0 && LabelsSettle(lib, cfg, WithValues(lib, cfg, Labels, node), r - 1))
  }

  ghost function LabelRounds(lib: Lib, cfg: Config, node: Node, r: nat): nat
    decreases r
  {
    if InPlace(lib, cfg, Labels, node) || r == 0 then 0
    else 1 + LabelRounds(lib, cfg, WithValues(lib, cfg, Labels, node), r - 1)
  }

  lemma {:induction false} MoreLabelRounds(lib: Lib, cfg: Config, node: Node, r: nat)
    requires LabelsSettle(lib, cfg, node, r)
    ensures LabelsSettle(lib, cfg, node, r + 1)
    ensures LabelRounds(lib, cfg, node, r + 1) == LabelRounds(lib, cfg, node, r)
    decreases r
  {
    hide InPlace, WithValues;
    if !InPlace(lib, cfg, Labels, node) { MoreLabelRounds(lib, cfg, WithValues(lib, cfg, Labels, node), r - 1); }
  }

  lemma {:induction false} SettlesLabels(lib: Lib, cfg: Config, node: Node, r: nat)
    requires Settles(lib, cfg, node, r)
    ensures LabelsSettle(lib, cfg, node, r)
    decreases r
  {
    hide InPlace, WithValues, Initialized, Initialization.InitWrite;
    if !InPlace(lib, cfg, Labels, node) { SettlesLabels(lib, cfg, WithValues(lib, cfg, Labels, node), r - 1); }
  }

  lemma OnlyLabels(lib: Lib, cfg: Config, node: Node)
    ensures var w := WithValues(lib, cfg, Labels, node);
            w == node.(labels := w.labels) && Initialization.Rank(w) == Initialization.Rank(node)
  {
    hide Desired;
  }

  /** Labels passed through on the way to a fixpoint are all different: one for every number of rounds left. */
  lemma {:induction false} PassedThrough(lib: Lib, cfg: Config, base: Pairs, node: Node, r: nat)
    returns (ls: set<Pairs>)
    requires LabelsSettle(lib, cfg, node, r) && node.labels in Reachable(cfg, base)
    ensures ls <= Reachable(cfg, base) && |ls| == LabelRounds(lib, cfg, node, r) + 1
    ensures forall l :: l in ls ==> LabelsSettle(lib, cfg, node.(labels := l), r)
    ensures forall l :: l in ls ==> LabelRounds(lib, cfg, node.(labels := l), r) <= LabelRounds(lib, cfg, node, r)
    decreases r
  {
    hide InPlace, WithValues, Reachable;
    assert node.(labels := node.labels) == node;
    if InPlace(lib, cfg, Labels, node) {
      ls := {node.labels};
    } else {
      var w := WithValues(lib, cfg, Labels, node);
      ReachableNext(lib, cfg, base, node);
      OnlyLabels(lib, cfg, node);
      var rest := PassedThrough(lib, cfg, base, w, r - 1);
      forall l | l in rest
        ensures LabelsSettle(lib, cfg, node.(labels := l), r)
        ensures LabelRounds(lib, cfg, node.(labels := l), r) < LabelRounds(lib, cfg, node, r)
      {
        assert w.(labels := l) == node.(labels := l);
        MoreLabelRounds(lib, cfg, node.(labels := l), r - 1);
      }
      ls := rest + {node.labels};
    }
  }

  lemma LabelRoundsBound(lib: Lib, cfg: Config, base: Pairs, node: Node, r: nat)
    requires Settles(lib, cfg, node, r) && node.labels in Reachable(cfg, base)
    ensures LabelRounds(lib, cfg, node, r) < |Reachable(cfg, base)|
  {
    hide Settles, LabelsSettle, LabelRounds, Reachable;
    SettlesLabels(lib, cfg, node, r);
    var ls := PassedThrough(lib, cfg, base, node, r);
    Larger(ls, Reachable(cfg, base));
  }

  lemma {:induction false} Larger(a: set<Pairs>, b: set<Pairs>)
    requires a <= b
    ensures |a| <= |b|
    decreases |a|
  {
    if a != {} {
      var x :| x in a;
      Larger(a - {x}, b - {x});
    }
  }

  // ---- With initialization

  lemma {:induction false} RoundsBound(lib: Lib, cfg: Config, base: Pairs, node: Node, r: nat)
    requires Settles(lib, cfg, node, r) && node.labels in Reachable(cfg, base)
    ensures Rounds(lib, cfg, node, r) <=
            LabelRounds(lib, cfg, node, r) + Scale(Initialization.Rank(node), |Reachable(cfg, base)|)
    decreases r, Initialization.Rank(node)
  {
    hide InPlace, WithValues, Initialized, Initialization.InitWrite, Initialization.Rank, Reachable, Scale;
    var size := |Reachable(cfg, base)|;
    if !InPlace(lib, cfg, Labels, node) {
      OnlyLabels(lib, cfg, node);
      ReachableNext(lib, cfg, base, node);
      RoundsBound(lib, cfg, base, WithValues(lib, cfg, Labels, node), r - 1);
    }
    if Initialization.InitWrite(lib, cfg, node).Some? {
      var n := Initialized(lib, cfg, node);
      InitializedKeeps(lib, cfg, node);
      RoundsBound(lib, cfg, base, n, r);
      LabelRoundsBound(lib, cfg, base, n, r);
      ProductGrows(Initialization.Rank(n), Initialization.Rank(node), size);
    }
  }

  lemma {:induction false} EnoughForIt(lib: Lib, cfg: Config, node: Node, r: nat)
    requires Settles(lib, cfg, node, r)
    ensures Settles(lib, cfg, node, Rounds(lib, cfg, node, r))
    decreases r, Initialization.Rank(node)
  {
    hide InPlace, WithValues, Initialized, Initialization.InitWrite;
    var enough := Rounds(lib, cfg, node, r);
    if !InPlace(lib, cfg, Labels, node) {
      var w := WithValues(lib, cfg, Labels, node);
      EnoughForIt(lib, cfg, w, r - 1);
      StillSettles(lib, cfg, w, Rounds(lib, cfg, w, r - 1), enough - 1);
    }
    if Initialization.InitWrite(lib, cfg, node).Some? {
      var n := Initialized(lib, cfg, node);
      EnoughForIt(lib, cfg, n, r);
      StillSettles(lib, cfg, n, Rounds(lib, cfg, n, r), enough);
    }
  }

  /** As many as there are ways to set some of the rules' keys to some of the rules' values; once for every stage of
      initialization. */
  function EnoughRounds(cfg: Config, node: Node): nat {
    Scale(1 + Initialization.Rank(node), Power(|RuleValues(cfg)| + 1, |RuleKeys(cfg)|))
  }

  /** Labels that settle at all settle within EnoughRounds. */
  lemma SettlesSoon(lib: Lib, cfg: Config, node: Node)
    ensures (exists r: nat :: Settles(lib, cfg, node, r)) <==> Settles(lib, cfg, node, EnoughRounds(cfg, node))
  {
    hide Settles, EnoughRounds;
    if r: nat :| Settles(lib, cfg, node, r) {
      EnoughForIt(lib, cfg, node, r);
      WithinEnough(lib, cfg, node, r);
      StillSettles(lib, cfg, node, Rounds(lib, cfg, node, r), EnoughRounds(cfg, node));
    }
  }

  lemma WithinEnough(lib: Lib, cfg: Config, node: Node, r: nat)
    requires Settles(lib, cfg, node, r)
    ensures Rounds(lib, cfg, node, r) <= EnoughRounds(cfg, node)
  {
    hide Settles, Rounds, LabelRounds, Reachable, Initialization.Rank, Power, RuleKeys, RuleValues;
    var size, most := |Reachable(cfg, node.labels)|, Power(|RuleValues(cfg)| + 1, |RuleKeys(cfg)|);
    var rank := Initialization.Rank(node);
    ReachableStart(cfg, node.labels);
    ReachableBound(cfg, node.labels);
    RoundsBound(lib, cfg, node.labels, node, r);
    LabelRoundsBound(lib, cfg, node.labels, node, r);
    Stages(rank, size, most);
  }

  lemma Stages(rank: nat, size: nat, most: nat)
    requires size <= most
    ensures size + Scale(rank, size) <= Scale(1 + rank, most)
  {
    assert rank * size <= rank * most;
    assert (1 + rank) * most == most + rank * most;
  }
}

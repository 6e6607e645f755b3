/** Left alone, the controllers stop writing: a measure over the current Node drops with every accepted write, in any
    interleaving, from any caches, with any conflicts, lost answers, clock readings and flap histories. */
module Termination {
  import opened Text
  import opened Kube
  import opened Matching
  import opened Values
  import opened ExternalIPs
  import opened Conditions
  import opened Flaps
  import opened Reconcile
  import opened Protocol
  import opened Scheduling
  import Initialization

  // ---- Label rules can feed their own matching, so they need not come to an end by themselves

  /** The Node after initialization, if a rule initializes it. */
  ghost function Initialized(lib: Lib, cfg: Config, node: Node): (w: Node)
    ensures Initialization.InitWrite(lib, cfg, node).Some? ==> Initialization.Rank(w) < Initialization.Rank(node)
  {
    if Initialization.InitWrite(lib, cfg, node).Some? then
      Initialization.InitSafety(lib, cfg, node);
      Initialization.InitWrite(lib, cfg, node).value
    else node
  }

  /** Applying the label rules again and again reaches, within r rounds, labels they are content with; and it does so
      at whatever point the Node gets initialized in between, which can change the rules that match. */
  ghost predicate Settles(lib: Lib, cfg: Config, node: Node, r: nat)
    decreases r, Initialization.Rank(node)
  {
    && (InPlace(lib, cfg, Labels, node) || (r > 0 && Settles(lib, cfg, WithValues(lib, cfg, Labels, node), r - 1)))
    && (Initialization.InitWrite(lib, cfg, node).Some? ==> Settles(lib, cfg, Initialized(lib, cfg, node), r))
  }

  /** After how many rounds, at most. */
  ghost function Rounds(lib: Lib, cfg: Config, node: Node, r: nat): (n: nat)
    ensures n <= r
    decreases r, Initialization.Rank(node)
  {
    var labels := if InPlace(lib, cfg, Labels, node) || r == 0 then 0
                  else 1 + Rounds(lib, cfg, WithValues(lib, cfg, Labels, node), r - 1);
    var init := if Initialization.InitWrite(lib, cfg, node).None? then 0
                else Rounds(lib, cfg, Initialized(lib, cfg, node), r);
    if labels > init then labels else init
  }

  /** The same as far as the label rules and the initialization rules are concerned. */
  predicate SameForRules(n: Node, m: Node) {
    n.labels == m.labels && n.name == m.name && n.providerID == m.providerID && n.taints == m.taints
  }

  lemma SameLabelStep(lib: Lib, cfg: Config, n: Node, m: Node)
    requires SameForRules(n, m)
    ensures Matched(lib, cfg, Labels, n) == Matched(lib, cfg, Labels, m)
    ensures InPlace(lib, cfg, Labels, n) <==> InPlace(lib, cfg, Labels, m)
    ensures SameForRules(WithValues(lib, cfg, Labels, n), WithValues(lib, cfg, Labels, m))
  {
    hide Resolved, RulesFor, MatchingIDs;
  }

  lemma SameInitStep(lib: Lib, cfg: Config, n: Node, m: Node)
    requires SameForRules(n, m)
    ensures Initialization.InitWrite(lib, cfg, n).Some? <==> Initialization.InitWrite(lib, cfg, m).Some?
    ensures SameForRules(Initialized(lib, cfg, n), Initialized(lib, cfg, m))
    ensures Initialization.Rank(n) == Initialization.Rank(m)
  {
    hide MatchingIDs, Initialization.Schemes, Initialization.SchemeOf;
  }

  lemma {:induction false} SameOrbit(lib: Lib, cfg: Config, n: Node, m: Node, r: nat)
    requires SameForRules(n, m)
    ensures Settles(lib, cfg, n, r) <==> Settles(lib, cfg, m, r)
    ensures Rounds(lib, cfg, n, r) == Rounds(lib, cfg, m, r)
    decreases r, Initialization.Rank(n)
  {
    hide WithValues, InPlace, Matched, Initialized, Initialization.InitWrite;
    SameLabelStep(lib, cfg, n, m);
    SameInitStep(lib, cfg, n, m);
    if r > 0 {
      SameOrbit(lib, cfg, WithValues(lib, cfg, Labels, n), WithValues(lib, cfg, Labels, m), r - 1);
    }
    if Initialization.InitWrite(lib, cfg, n).Some? {
      SameOrbit(lib, cfg, Initialized(lib, cfg, n), Initialized(lib, cfg, m), r);
    }
  }

  lemma {:induction false} MoreRounds(lib: Lib, cfg: Config, n: Node, r: nat)
    requires Settles(lib, cfg, n, r)
    ensures Settles(lib, cfg, n, r + 1) && Rounds(lib, cfg, n, r + 1) == Rounds(lib, cfg, n, r)
    decreases r, Initialization.Rank(n)
  {
    hide WithValues, InPlace, Initialized, Initialization.InitWrite;
    if !InPlace(lib, cfg, Labels, n) {
      MoreRounds(lib, cfg, WithValues(lib, cfg, Labels, n), r - 1);
    }
    if Initialization.InitWrite(lib, cfg, n).Some? {
      MoreRounds(lib, cfg, Initialized(lib, cfg, n), r);
    }
  }

  lemma {:induction false} StillSettles(lib: Lib, cfg: Config, node: Node, r: nat, more: nat)
    requires Settles(lib, cfg, node, r) && r <= more
    ensures Settles(lib, cfg, node, more)
    decreases more - r
  {
    hide Settles;
    if r < more {
      MoreRounds(lib, cfg, node, r);
      StillSettles(lib, cfg, node, r + 1, more);
    }
  }

  /** No label rule's match depends on a key that some label rule sets. */
  ghost predicate SelfIndependent(lib: Lib, cfg: Config) {
    forall id, a: Pairs, b: Pairs, name, providerID |
      id in cfg.labels && AgreeOutside(a, b, LabelKeys(cfg)) ::
      Matches(lib, a, name, providerID, cfg.labels[id].match_) ==
      Matches(lib, b, name, providerID, cfg.labels[id].match_)
  }

  ghost function LabelKeys(cfg: Config): iset<string> {
    iset id, k | id in cfg.labels && k in cfg.labels[id].values :: k
  }

  ghost predicate AgreeOutside(a: Pairs, b: Pairs, ks: iset<string>) {
    forall k :: k !in ks ==> (k in a <==> k in b) && (k in a ==> a[k] == b[k])
  }

  /** One round per providerID: now, and once more if it is still to be stamped. */
  function SpareRounds(node: Node): nat {
    if node.providerID == "" then 1 else 0
  }

  /** Then the labels of any Node settle: after one round for each providerID it has. */
  lemma {:induction false} SelfIndependentSettles(lib: Lib, cfg: Config, node: Node)
    requires SelfIndependent(lib, cfg)
    ensures Settles(lib, cfg, node, 1 + SpareRounds(node))
    ensures InPlace(lib, cfg, Labels, node) ==> Settles(lib, cfg, node, SpareRounds(node))
    decreases Initialization.Rank(node), !InPlace(lib, cfg, Labels, node)
  {
    hide WithValues, InPlace, Initialized, Initialization.InitWrite, SelfIndependent;
    var w, n := WithValues(lib, cfg, Labels, node), Initialized(lib, cfg, node);
    AppliedSticks(lib, cfg, node);
    if Initialization.InitWrite(lib, cfg, node).Some? {
      InitializedKeeps(lib, cfg, node);
      SelfIndependentSettles(lib, cfg, n);
      if n.providerID != node.providerID { MoreRounds(lib, cfg, n, 1); }
    }
    if !InPlace(lib, cfg, Labels, node) {
      SelfIndependentSettles(lib, cfg, w);
    }
  }

  /** If no label rule matches on what label rules set, labels once applied are in place. */
  lemma AppliedSticks(lib: Lib, cfg: Config, node: Node)
    requires SelfIndependent(lib, cfg)
    ensures var w := WithValues(lib, cfg, Labels, node);
            && Matched(lib, cfg, Labels, w) == Matched(lib, cfg, Labels, node)
            && InPlace(lib, cfg, Labels, w)
            && w == node.(labels := w.labels)
  {
    hide Resolved, RulesFor, MatchingIDs, Matches;
    var w := WithValues(lib, cfg, Labels, node);
    var desired := Desired(lib, cfg, Labels, node);
    DesiredKeys(lib, cfg, node);
    assert AgreeOutside(node.labels, w.labels, LabelKeys(cfg));
    SameMatches(lib, cfg, node, w);
    assert Desired(lib, cfg, Labels, w) == desired;
    assert node.labels + desired + desired == node.labels + desired;
  }

  /** A Node that keeps its providerID while it is initialized keeps its labels in place. */
  lemma InitializedKeeps(lib: Lib, cfg: Config, node: Node)
    requires Initialization.InitWrite(lib, cfg, node).Some?
    ensures var n := Initialized(lib, cfg, node);
            && n == node.(providerID := n.providerID, taints := n.taints)
            && (node.providerID != "" ==> n.providerID == node.providerID)
            && (n.providerID == node.providerID ==> (InPlace(lib, cfg, Labels, n) <==> InPlace(lib, cfg, Labels, node)))
  {
    hide Resolved, RulesFor, MatchingIDs, Initialization.InitWrite;
    Initialization.InitSafety(lib, cfg, node);
  }

  lemma DesiredKeys(lib: Lib, cfg: Config, node: Node)
    ensures forall k :: k in Desired(lib, cfg, Labels, node) ==> k in LabelKeys(cfg)
  {
    hide MatchingIDs;
    var ids := Matched(lib, cfg, Labels, node);
    var rules := RulesFor(ids, cfg.labels);
    forall k | k in Resolved(rules) ensures k in LabelKeys(cfg) {
      var i :| 0 <= i < |rules| && k in rules[i];
      assert ids[i] in cfg.labels && k in cfg.labels[ids[i]].values;
    }
  }

  lemma SameMatches(lib: Lib, cfg: Config, n: Node, m: Node)
    requires SelfIndependent(lib, cfg) && AgreeOutside(n.labels, m.labels, LabelKeys(cfg))
    requires n.name == m.name && n.providerID == m.providerID
    ensures Matched(lib, cfg, Labels, n) == Matched(lib, cfg, Labels, m)
  {
    hide Matches;
    var ms := RuleMatches(cfg, Labels);
    forall id | id in ms
      ensures Matches(lib, n.labels, n.name, n.providerID, ms[id]) ==
              Matches(lib, m.labels, m.name, m.providerID, ms[id])
    {
      assert id in cfg.labels;
    }
    assert MatchingSet(lib, n.labels, n.name, n.providerID, ms) == MatchingSet(lib, m.labels, m.name, m.providerID, ms);
  }

  // ---- The distance of a rule domain

  /** How many writes a domain still needs: one per condition to remove; or Pending, values, Applied. */
  ghost function Distance(lib: Lib, cfg: Config, d: Domain, node: Node): nat {
    var t, matched := ConditionOf(d), Matched(lib, cfg, d, node);
    if matched == [] then Count(node.conditions, t)
    else if InPlace(lib, cfg, d, node) then (if UpToDate(node.conditions, AppliedCondition(t, matched)) then 0 else 1)
    else
      var c := Find(node.conditions, t);
      if c.Some? && c.value.status != IsTrue then 2 else 3
  }

  ghost predicate AtMost(node: Node, k: nat) {
    k >= 3 && forall d :: Count(node.conditions, ConditionOf(d)) <= k
  }

  lemma DistanceBounded(lib: Lib, cfg: Config, d: Domain, node: Node, k: nat)
    requires AtMost(node, k)
    ensures Distance(lib, cfg, d, node) <= k
  {
    hide Matched, InPlace;
  }

  predicate SameForLabels(n: Node, m: Node) {
    n.labels == m.labels && n.name == m.name && n.providerID == m.providerID
  }

  /** The distance of a domain only depends on what is not another domain's own. */
  lemma SameDistance(lib: Lib, cfg: Config, d: Domain, node: Node, w: Node)
    requires SameForLabels(node, w)
    requires d == Annotations ==> w.annotations == node.annotations
    requires d == Addresses ==> w.addresses == node.addresses
    requires Find(w.conditions, ConditionOf(d)) == Find(node.conditions, ConditionOf(d))
    requires Count(w.conditions, ConditionOf(d)) == Count(node.conditions, ConditionOf(d))
    ensures Distance(lib, cfg, d, w) == Distance(lib, cfg, d, node)
  {
    hide Resolved, RulesFor, MatchingIDs, Merged, RuleIPs;
  }

  /** w is node with only its conditions of type t changed, and at most one added. */
  ghost predicate OnlyConditionOf(t: ConditionType, node: Node, w: Node) {
    && w == node.(conditions := w.conditions)
    && forall u ::
         && Count(w.conditions, u) <= (if Count(node.conditions, u) > 1 then Count(node.conditions, u) else 1)
         && (u != t ==>
               && Find(w.conditions, u) == Find(node.conditions, u)
               && Count(w.conditions, u) == Count(node.conditions, u))
  }

  lemma StatusConditions(lib: Lib, cfg: Config, d: Domain, node: Node, known: Known, now: int, later: int, stamp: int)
    requires Pass(lib, cfg, d, Some(node), known, now, later, stamp).write.Status?
    ensures OnlyConditionOf(ConditionOf(d), node, Pass(lib, cfg, d, Some(node), known, now, later, stamp).write.node)
  {
    hide Matched, InPlace, WithValues, DesiredPrint, DriftIn, WritersIn, UpToDate, BeforeApply, Find, Count;
    hide Set, Remove;
    var w := Pass(lib, cfg, d, Some(node), known, now, later, stamp).write.node;
    var t := ConditionOf(d);
    if Matched(lib, cfg, d, node) == [] {
      forall u ensures Count(w.conditions, u) <= Count(node.conditions, u)
        ensures u != t ==> Find(w.conditions, u) == Find(node.conditions, u)
        ensures u != t ==> Count(w.conditions, u) == Count(node.conditions, u)
      {
        RemoveEffect(node.conditions, t, u);
      }
    } else {
      var desired := StatusIsSet(lib, cfg, d, node, known, now, later, stamp);
      forall u ensures Count(w.conditions, u) <= if Count(node.conditions, u) > 1 then Count(node.conditions, u) else 1
        ensures u != t ==> Find(w.conditions, u) == Find(node.conditions, u)
        ensures u != t ==> Count(w.conditions, u) == Count(node.conditions, u)
      {
        SetEffect(node.conditions, desired, stamp, u);
      }
    }
  }

  /** A condition write brings its domain one step closer and leaves the others where they are. */
  lemma StatusDrops(lib: Lib, cfg: Config, d: Domain, node: Node, known: Known, now: int, later: int, stamp: int,
                    k: nat)
    requires Pass(lib, cfg, d, Some(node), known, now, later, stamp).write.Status?
    requires AtMost(node, k)
    ensures var w := Pass(lib, cfg, d, Some(node), known, now, later, stamp).write.node;
            && w == node.(conditions := w.conditions)
            && AtMost(w, k)
            && Distance(lib, cfg, d, w) < Distance(lib, cfg, d, node)
            && forall e :: e != d ==> Distance(lib, cfg, e, w) == Distance(lib, cfg, e, node)
  {
    hide Pass, Matched, Distance, Find, Count;
    var w := Pass(lib, cfg, d, Some(node), known, now, later, stamp).write.node;
    StatusConditions(lib, cfg, d, node, known, now, later, stamp);
    if Matched(lib, cfg, d, node) == [] {
      Truthful(lib, cfg, d, node, known, now, later, stamp);
      SameMatched(lib, cfg, d, node, w);
      ClearDrops(lib, cfg, d, node, w);
    } else {
      SetDrops(lib, cfg, d, node, known, now, later, stamp);
    }
    forall e | e != d ensures Distance(lib, cfg, e, w) == Distance(lib, cfg, e, node) {
      SameDistance(lib, cfg, e, node, w);
    }
  }

  lemma SameMatched(lib: Lib, cfg: Config, d: Domain, node: Node, w: Node)
    requires SameForLabels(node, w)
    ensures Matched(lib, cfg, d, w) == Matched(lib, cfg, d, node)
  {
  }

  lemma ClearDrops(lib: Lib, cfg: Config, d: Domain, node: Node, w: Node)
    requires Matched(lib, cfg, d, node) == [] == Matched(lib, cfg, d, w)
    requires Count(w.conditions, ConditionOf(d)) < Count(node.conditions, ConditionOf(d))
    ensures Distance(lib, cfg, d, w) < Distance(lib, cfg, d, node)
  {
    hide Matched, InPlace;
  }

  lemma SetDrops(lib: Lib, cfg: Config, d: Domain, node: Node, known: Known, now: int, later: int, stamp: int)
    requires Pass(lib, cfg, d, Some(node), known, now, later, stamp).write.Status?
    requires Matched(lib, cfg, d, node) != []
    ensures var w := Pass(lib, cfg, d, Some(node), known, now, later, stamp).write.node;
            Distance(lib, cfg, d, w) < Distance(lib, cfg, d, node)
  {
    hide Matched, InPlace, Pass, Count;
    var w := Pass(lib, cfg, d, Some(node), known, now, later, stamp).write.node;
    var t, matched := ConditionOf(d), Matched(lib, cfg, d, node);
    var desired := StatusIsSet(lib, cfg, d, node, known, now, later, stamp);
    SameValuesElsewhere(lib, cfg, d, node, w);
    SetEffect(node.conditions, desired, stamp, t);
    if InPlace(lib, cfg, d, node) {
      SaysApplied(lib, cfg, d, node, known, now, later, stamp);
      SetSettles(node.conditions, AppliedCondition(t, matched), stamp);
    } else {
      WasTrueOrAbsent(lib, cfg, d, node, known, now, later, stamp);
    }
  }

  lemma SaysApplied(lib: Lib, cfg: Config, d: Domain, node: Node, known: Known, now: int, later: int, stamp: int)
    requires Matched(lib, cfg, d, node) != [] && InPlace(lib, cfg, d, node)
    requires Pass(lib, cfg, d, Some(node), known, now, later, stamp).write.Status?
    ensures var applied := AppliedCondition(ConditionOf(d), Matched(lib, cfg, d, node));
            && Pass(lib, cfg, d, Some(node), known, now, later, stamp).write.node.conditions ==
               Set(node.conditions, applied, stamp)
            && !UpToDate(node.conditions, applied)
  {
    hide Matched, InPlace, BeforeApply, UpToDate, Set;
  }

  /** While values are missing, a condition is only written over True, or over none. */
  lemma WasTrueOrAbsent(lib: Lib, cfg: Config, d: Domain, node: Node, known: Known, now: int, later: int, stamp: int)
    requires Matched(lib, cfg, d, node) != [] && !InPlace(lib, cfg, d, node)
    requires Pass(lib, cfg, d, Some(node), known, now, later, stamp).write.Status?
    ensures var c := Find(node.conditions, ConditionOf(d)); c.None? || c.value.status == IsTrue
  {
    hide Matched, InPlace, WithValues, DesiredPrint, DriftIn, WritersIn, DriftedStep, Remaining, EnsureCondition;
  }

  /** A write of annotations or addresses puts them in place, and leaves the other domains where they are. */
  lemma UpdateDrops(lib: Lib, cfg: Config, d: Domain, node: Node)
    requires d != Labels && Matched(lib, cfg, d, node) != [] && !InPlace(lib, cfg, d, node)
    ensures var w := WithValues(lib, cfg, d, node);
            && Distance(lib, cfg, d, w) < Distance(lib, cfg, d, node)
            && forall e :: e != d ==> Distance(lib, cfg, e, w) == Distance(lib, cfg, e, node)
  {
    hide Distance, Matched, InPlace, WithValues, UpToDate;
    var w := WithValues(lib, cfg, d, node);
    AppliedOnce(lib, cfg, d, node);
    PlacedDrops(lib, cfg, d, node, w);
    forall e | e != d ensures Distance(lib, cfg, e, w) == Distance(lib, cfg, e, node) {
      SameDistance(lib, cfg, e, node, w);
    }
  }

  lemma PlacedDrops(lib: Lib, cfg: Config, d: Domain, node: Node, w: Node)
    requires Matched(lib, cfg, d, node) != [] && !InPlace(lib, cfg, d, node)
    requires Matched(lib, cfg, d, w) != [] && InPlace(lib, cfg, d, w)
    ensures Distance(lib, cfg, d, w) < Distance(lib, cfg, d, node)
  {
    hide Matched, InPlace;
  }

  /** Applying a second time changes nothing, because these rules do not match on what they write. */
  lemma AppliedOnce(lib: Lib, cfg: Config, d: Domain, node: Node)
    requires d != Labels
    ensures var w := WithValues(lib, cfg, d, node);
            && Matched(lib, cfg, d, w) == Matched(lib, cfg, d, node)
            && InPlace(lib, cfg, d, w)
            && SameForLabels(node, w) && w.conditions == node.conditions
            && w.taints == node.taints
            && (d == Annotations ==> w.addresses == node.addresses)
            && (d == Addresses ==> w.annotations == node.annotations)
  {
    hide Resolved, RulesFor, MatchingIDs, Merged, RuleIPs;
    if d == Addresses {
      MergeIdempotent(lib, node.addresses, DesiredIPs(lib, cfg, node));
    } else {
      HoldsMeansUnchanged(node.annotations, Desired(lib, cfg, d, node));
      HoldsMeansUnchanged(node.annotations + Desired(lib, cfg, d, node), Desired(lib, cfg, d, node));
    }
  }

  // ---- The measure of a Node

  ghost function Distances(lib: Lib, cfg: Config, node: Node): nat {
    Distance(lib, cfg, Labels, node) + Distance(lib, cfg, Annotations, node) + Distance(lib, cfg, Addresses, node)
  }

  function Scale(n: nat, weight: nat): nat {
    n * weight
  }

  /** Every initialization and every round of labels can leave all of the domains at their greatest distance. */
  ghost function Measure(lib: Lib, cfg: Config, node: Node, r: nat, k: nat): nat {
    Scale(Initialization.Rank(node) + Rounds(lib, cfg, node, r), 3 * k + 1) + Distances(lib, cfg, node)
  }

  /** The most writes any Node with at most k conditions of each type can get. */
  function MaxWrites(r: nat, k: nat): nat {
    Scale(2 + r, 3 * k + 1) + 3 * k
  }

  lemma {:induction false} ProductGrows(a: nat, b: nat, weight: nat)
    requires a <= b
    ensures Scale(a, weight) <= Scale(b, weight)
    ensures a < b ==> Scale(a, weight) + weight <= Scale(b, weight)
    decreases b
  {
    if a < b {
      ProductGrows(a, b - 1, weight);
      assert b * weight == (b - 1) * weight + weight;
    }
  }

  lemma DistancesBounded(lib: Lib, cfg: Config, node: Node, k: nat)
    requires AtMost(node, k)
    ensures Distances(lib, cfg, node) <= 3 * k
  {
    hide Distance;
    DistanceBounded(lib, cfg, Labels, node, k);
    DistanceBounded(lib, cfg, Annotations, node, k);
    DistanceBounded(lib, cfg, Addresses, node, k);
  }

  lemma MeasureBounded(lib: Lib, cfg: Config, node: Node, r: nat, k: nat)
    requires AtMost(node, k)
    ensures Measure(lib, cfg, node, r, k) <= MaxWrites(r, k)
  {
    hide Scale, Distances, AtMost, Rounds;
    DistancesBounded(lib, cfg, node, k);
    assert Rounds(lib, cfg, node, r) <= r;
    ProductGrows(Initialization.Rank(node) + Rounds(lib, cfg, node, r), 2 + r, 3 * k + 1);
  }

  lemma InitDrops(lib: Lib, cfg: Config, node: Node, r: nat, k: nat)
    requires Settles(lib, cfg, node, r) && AtMost(node, k) && Initialization.InitWrite(lib, cfg, node).Some?
    ensures var w := Initialization.InitWrite(lib, cfg, node).value;
            Settles(lib, cfg, w, r) && AtMost(w, k) && Measure(lib, cfg, w, r, k) < Measure(lib, cfg, node, r, k)
  {
    hide Scale, Distances, Settles, Rounds, Initialization.InitWrite, Initialization.Rank, Initialization.Schemes;
    hide Initialization.Matched, Initialization.ProviderID, Initialization.HasTaint;
    var w := Initialization.InitWrite(lib, cfg, node).value;
    Initialization.InitSafety(lib, cfg, node);
    assert w.conditions == node.conditions;
    AfterInit(lib, cfg, node, r);
    DistancesBounded(lib, cfg, w, k);
    ProductGrows(Initialization.Rank(w) + Rounds(lib, cfg, w, r), Initialization.Rank(node) + Rounds(lib, cfg, node, r),
                 3 * k + 1);
  }

  lemma AfterInit(lib: Lib, cfg: Config, node: Node, r: nat)
    requires Settles(lib, cfg, node, r) && Initialization.InitWrite(lib, cfg, node).Some?
    ensures var w := Initialization.InitWrite(lib, cfg, node).value;
            Settles(lib, cfg, w, r) && Rounds(lib, cfg, w, r) <= Rounds(lib, cfg, node, r)
  {
    hide InPlace, WithValues, Initialization.InitWrite, Initialization.Rank;
    assert Initialized(lib, cfg, node) == Initialization.InitWrite(lib, cfg, node).value;
  }

  lemma LabelsDrop(lib: Lib, cfg: Config, node: Node, r: nat, k: nat)
    requires Settles(lib, cfg, node, r) && AtMost(node, k) && !InPlace(lib, cfg, Labels, node)
    ensures var w := WithValues(lib, cfg, Labels, node);
            Settles(lib, cfg, w, r) && AtMost(w, k) && Measure(lib, cfg, w, r, k) < Measure(lib, cfg, node, r, k)
  {
    hide Scale, Distances, InPlace, Desired, Initialized, Initialization.InitWrite;
    var w := WithValues(lib, cfg, Labels, node);
    assert r > 0;
    MoreRounds(lib, cfg, w, r - 1);
    DistancesBounded(lib, cfg, w, k);
    ProductGrows(Initialization.Rank(w) + Rounds(lib, cfg, w, r), Initialization.Rank(node) + Rounds(lib, cfg, node, r),
                 3 * k + 1);
  }

  /** Every write the controllers can make to the current Node lowers the measure. */
  lemma WriteDrops(lib: Lib, w: Who, cfg: Config, node: Node, known: Known, times: Times, r: nat, k: nat)
    requires Settles(lib, cfg, node, r) && AtMost(node, k)
    requires Computed(lib, w, cfg, Some(node), known, times).write != Nothing
    ensures var n := Computed(lib, w, cfg, Some(node), known, times).write.node;
            Settles(lib, cfg, n, r) && AtMost(n, k) && Measure(lib, cfg, n, r, k) < Measure(lib, cfg, node, r, k)
  {
    hide Settles, AtMost, Measure, Initialization.InitWrite;
    match w {
      case Init => InitDrops(lib, cfg, node, r, k);
      case Rule(d) => RuleDrops(lib, d, cfg, node, known, times, r, k);
    }
  }

  lemma RuleDrops(lib: Lib, d: Domain, cfg: Config, node: Node, known: Known, times: Times, r: nat, k: nat)
    requires Settles(lib, cfg, node, r) && AtMost(node, k)
    requires Pass(lib, cfg, d, Some(node), known, times.now, times.later, times.stamp).write != Nothing
    ensures var n := Pass(lib, cfg, d, Some(node), known, times.now, times.later, times.stamp).write.node;
            Settles(lib, cfg, n, r) && AtMost(n, k) && Measure(lib, cfg, n, r, k) < Measure(lib, cfg, node, r, k)
  {
    hide Settles, Distance, Matched, InPlace, WithValues, DesiredPrint, DriftIn, WritersIn, Rounds, UpToDate, Scale;
    var write := Pass(lib, cfg, d, Some(node), known, times.now, times.later, times.stamp).write;
    if write.Status? {
      StatusDrops(lib, cfg, d, node, known, times.now, times.later, times.stamp, k);
      SameOrbit(lib, cfg, node, write.node, r);
    } else if d == Labels {
      LabelsDrop(lib, cfg, node, r, k);
    } else {
      UpdateDrops(lib, cfg, d, node);
      AppliedOnce(lib, cfg, d, node);
      SameOrbit(lib, cfg, node, write.node, r);
    }
  }

  // ---- Runs

  /** Every worker with a pass over the current Node under way works with the current configuration; what the others
      write is not stored. */
  ghost predicate ConfigRead(s: Sys)
    requires Complete(s)
  {
    forall w: Who :: s.ctls[w].work.Ready? && s.ctls[w].work.snap == Last(s) ==> s.ctls[w].work.cfg == s.cfg
  }

  /** Versions written so far plus what the measure still allows. */
  ghost function Budget(lib: Lib, s: Sys, r: nat, k: nat): nat
    requires Complete(s) && Current(s).Some?
  {
    |s.hist| + Measure(lib, s.cfg, Current(s).value, r, k)
  }

  ghost predicate Tame(lib: Lib, s: Sys, r: nat, k: nat)
    requires Complete(s)
  {
    Current(s).Some? && ConfigRead(s) && Settles(lib, s.cfg, Current(s).value, r) && AtMost(Current(s).value, k)
  }

  lemma StepInBudget(lib: Lib, s: Sys, step: Step, r: nat, k: nat)
    requires Complete(s) && Enabled(s, step) && Undisturbed(step) && Tame(lib, s, r, k)
    ensures var t := Do(lib, s, step);
            Complete(t) && Tame(lib, t, r, k) && t.cfg == s.cfg && Budget(lib, t, r, k) <= Budget(lib, s, r, k)
  {
    hide Settles, AtMost, Measure, Computed;
    DoComplete(lib, s, step);
    if step.Finish? {
      var c := s.ctls[step.w];
      var o := OutcomeOf(lib, s, step.w, step.times);
      if Accepted(s.hist, c.work.snap, o.write, step.answer) {
        WriteDrops(lib, step.w, s.cfg, Current(s).value, c.known, step.times, r, k);
      }
    }
  }

  lemma {:induction false} RunInBudget(lib: Lib, s: Sys, steps: seq<Step>, r: nat, k: nat)
    requires Complete(s) && Runs(lib, s, steps) && Tame(lib, s, r, k) && AllUndisturbed(steps)
    ensures var t := After(lib, s, steps);
            Tame(lib, t, r, k) && t.cfg == s.cfg && Budget(lib, t, r, k) <= Budget(lib, s, r, k)
    decreases |steps|
  {
    hide Do, Enabled, Tame, Budget;
    if steps != [] {
      StepInBudget(lib, s, steps[0], r, k);
      RunInBudget(lib, Do(lib, s, steps[0]), steps[1..], r, k);
    }
  }

  function Max(a: int, b: int): int {
    if a > b then a else b
  }

  /** How many conditions of one type the Node has at most; 3 writes are needed at most in any case. */
  function MostConditions(node: Node): nat {
    Max(3, Max(Count(node.conditions, Labeled),
               Max(Count(node.conditions, Annotated), Count(node.conditions, ExternalIPsApplied))))
  }

  /** However the controllers interleave: once the labels settle, at most MaxWrites writes are ever accepted. */
  lemma BoundedWrites(lib: Lib, s: Sys, steps: seq<Step>, r: nat)
    requires Complete(s) && ConfigRead(s) && Runs(lib, s, steps) && AllUndisturbed(steps)
    requires Current(s).Some? && Settles(lib, s.cfg, Current(s).value, r)
    ensures var node, t := Current(s).value, After(lib, s, steps);
            && |t.hist| - |s.hist| <= Measure(lib, s.cfg, node, r, MostConditions(node))
            && Measure(lib, s.cfg, node, r, MostConditions(node)) <= MaxWrites(r, MostConditions(node))
  {
    hide Do, Enabled, Settles, Measure, Runs, After, MaxWrites;
    var k := MostConditions(Current(s).value);
    assert AtMost(Current(s).value, k);
    RunInBudget(lib, s, steps, r, k);
    MeasureBounded(lib, s.cfg, Current(s).value, r, k);
  }

  /** Workers with another configuration have read the Node at version n or before. */
  ghost predicate StaleBy(s: Sys, n: nat)
    requires Complete(s)
  {
    forall w: Who :: s.ctls[w].work.Ready? && s.ctls[w].work.cfg != s.cfg ==> s.ctls[w].work.snap <= n
  }

  lemma StepStaleBy(lib: Lib, s: Sys, step: Step, n: nat)
    requires Complete(s) && Enabled(s, step) && Undisturbed(step) && StaleBy(s, n)
    ensures Complete(Do(lib, s, step)) && StaleBy(Do(lib, s, step), n)
  {
    hide Computed;
    DoComplete(lib, s, step);
  }

  lemma {:induction false} RunStaleBy(lib: Lib, s: Sys, steps: seq<Step>, n: nat)
    requires Complete(s) && Runs(lib, s, steps) && AllUndisturbed(steps) && StaleBy(s, n)
    ensures StaleBy(After(lib, s, steps), n)
    decreases |steps|
  {
    hide Do, Enabled, StaleBy;
    if steps != [] {
      StepStaleBy(lib, s, steps[0], n);
      RunStaleBy(lib, Do(lib, s, steps[0]), steps[1..], n);
    }
  }

  /** A configuration that is out of date can lead to one stored write at most: after the first, every worker that could
      make another one is on the current configuration, and the bounds apply. */
  lemma OneStaleWrite(lib: Lib, s: Sys, steps: seq<Step>)
    requires Complete(s) && Runs(lib, s, steps) && AllUndisturbed(steps)
    requires |After(lib, s, steps).hist| > |s.hist|
    ensures ConfigRead(After(lib, s, steps))
  {
    hide Runs, After;
    RunStaleBy(lib, s, steps, Last(s));
  }

  /** In numbers: if no label rule matches on what label rules set, a Node with at most one condition of each type gets
      at most 49 more writes. */
  lemma SelfIndependentBound(lib: Lib, s: Sys, steps: seq<Step>)
    requires Complete(s) && ConfigRead(s) && Runs(lib, s, steps) && AllUndisturbed(steps) && Current(s).Some?
    requires SelfIndependent(lib, s.cfg) && AtMostOneEach(Current(s).value.conditions)
    ensures |After(lib, s, steps).hist| - |s.hist| <= 49
  {
    hide Do, Enabled, Settles, Measure, Runs, After, SelfIndependent, ConfigRead, MaxWrites, MostConditions;
    hide AtMostOneEach, AllUndisturbed;
    var r := FewRounds(lib, s.cfg, Current(s).value);
    BoundedWrites(lib, s, steps, r);
  }

  lemma FewRounds(lib: Lib, cfg: Config, node: Node) returns (r: nat)
    requires SelfIndependent(lib, cfg) && AtMostOneEach(node.conditions)
    ensures Settles(lib, cfg, node, r) && MaxWrites(r, MostConditions(node)) <= 49
  {
    hide Settles, SelfIndependent;
    r := 1 + SpareRounds(node);
    SelfIndependentSettles(lib, cfg, node);
    assert MostConditions(node) == 3;
    assert MaxWrites(1, 3) == 39 && MaxWrites(2, 3) == 49;
  }
}

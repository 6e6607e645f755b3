/** One pass of a rule controller over one Node: what it sends, what it schedules and what it remembers
    (pkg/controller/metadata_controller.go, externalip_controller.go, drift.go). */
module Reconcile {
  import opened Text
  import opened Kube
  import opened Matching
  import opened Values
  import opened Fingerprints
  import opened ExternalIPs
  import opened Conditions
  import opened Flaps
  import Writers

  datatype Domain = Labels | Annotations | Addresses

  function ConditionOf(d: Domain): ConditionType {
    match d
    case Labels => Labeled
    case Annotations => Annotated
    case Addresses => ExternalIPsApplied
  }

  function ValueRules(cfg: Config, d: Domain): map<string, ValueRule> {
    match d
    case Labels => cfg.labels
    case Annotations => cfg.annotations
    case Addresses => map[]
  }

  function ValueMatches(rules: map<string, ValueRule>): map<string, Match> {
    map id | id in rules :: rules[id].match_
  }

  function IPMatches(rules: map<string, IPRule>): map<string, Match> {
    map id | id in rules :: rules[id].match_
  }

  function RuleMatches(cfg: Config, d: Domain): (ms: map<string, Match>) {
    if d == Addresses then IPMatches(cfg.externalIPs) else ValueMatches(ValueRules(cfg, d))
  }

  ghost function Matched(lib: Lib, cfg: Config, d: Domain, node: Node): seq<string> {
    MatchingIDs(lib, node.labels, node.name, node.providerID, RuleMatches(cfg, d))
  }

  // ---- What the matched rules want

  function GetValues(d: Domain, node: Node): Pairs {
    if d == Labels then node.labels else node.annotations
  }

  function SetValues(d: Domain, node: Node, values: Pairs): Node {
    if d == Labels then node.(labels := values) else node.(annotations := values)
  }

  ghost function DesiredValues(rules: map<string, ValueRule>, matched: seq<string>): Pairs
    requires forall id :: id in matched ==> id in rules
  {
    Resolved(RulesFor(matched, rules))
  }

  function RuleIPs(rules: map<string, IPRule>, matched: seq<string>): seq<string>
    requires forall id :: id in matched ==> id in rules
  {
    if matched == [] then [] else rules[matched[0]].externalIPs + RuleIPs(rules, matched[1..])
  }

  ghost function Desired(lib: Lib, cfg: Config, d: Domain, node: Node): Pairs
    requires d != Addresses
  {
    DesiredValues(ValueRules(cfg, d), Matched(lib, cfg, d, node))
  }

  ghost function DesiredIPs(lib: Lib, cfg: Config, node: Node): seq<string> {
    RuleIPs(cfg.externalIPs, Matched(lib, cfg, Addresses, node))
  }

  /** The Node with its matched rules' values applied. */
  ghost function WithValues(lib: Lib, cfg: Config, d: Domain, node: Node): Node {
    if d == Addresses then node.(addresses := Merged(lib, node.addresses, DesiredIPs(lib, cfg, node)))
    else SetValues(d, node, GetValues(d, node) + Desired(lib, cfg, d, node))
  }

  ghost predicate InPlace(lib: Lib, cfg: Config, d: Domain, node: Node) {
    WithValues(lib, cfg, d, node) == node
  }

  ghost function DesiredPrint(lib: Lib, cfg: Config, d: Domain, node: Node): string {
    if d == Addresses then IPFingerprint(DesiredIPs(lib, cfg, node)) else Fingerprint(Desired(lib, cfg, d, node))
  }

  ghost function DriftIn(lib: Lib, cfg: Config, d: Domain, node: Node): Drift {
    if d == Addresses then Drift(MissingIPs(node.addresses, DesiredIPs(lib, cfg, node)), [])
    else DriftOf(GetValues(d, node), Desired(lib, cfg, d, node))
  }

  /** The managed fields path of a domain's values, and the subresource they are written through. */
  function FieldPath(d: Domain): seq<string> {
    match d
    case Labels => ["f:metadata", "f:labels"]
    case Annotations => ["f:metadata", "f:annotations"]
    case Addresses => ["f:status", "f:addresses"]
  }

  function Subresource(d: Domain): string {
    if d == Addresses then "status" else ""
  }

  ghost function WritersIn(lib: Lib, d: Domain, node: Node, since: int): seq<string> {
    Writers.Recent(node.managed, lib.manager, Subresource(d), since, FieldPath(d))
  }

  // ---- The pass

  /** What is sent: nothing, a status update of a condition, or an update of the values. */
  datatype Write = Nothing | Status(node: Node) | Update(node: Node, mark: string)

  /** known is the detector's state before the answer to the write arrives; after is an AddAfter delay. */
  datatype Outcome = Outcome(known: Known, write: Write, after: Option<int>)

  /** ensureCondition; stamp is the reading of metav1.Now. */
  function EnsureCondition(node: Node, desired: Condition, stamp: int): Write {
    if UpToDate(node.conditions, desired) then Nothing
    else Status(node.(conditions := Set(node.conditions, desired, stamp)))
  }

  /** ensureConditionAbsent. */
  function EnsureConditionAbsent(node: Node, t: ConditionType): Write {
    if Find(node.conditions, t).None? then Nothing
    else Status(node.(conditions := Remove(node.conditions, t)))
  }

  predicate SaysTrue(c: Option<Condition>) {
    c.Some? && c.value.status == IsTrue
  }

  ghost function ValueWrite(lib: Lib, cfg: Config, d: Domain, node: Node): Write {
    Update(WithValues(lib, cfg, d, node), DesiredPrint(lib, cfg, d, node))
  }

  /** beforeApply, together with the value write it allows. now and later are its clock readings. */
  ghost function BeforeApply(lib: Lib, cfg: Config, d: Domain, node: Node, known: Known,
                             now: int, later: int, stamp: int): Outcome {
    var t, matched := ConditionOf(d), Matched(lib, cfg, d, node);
    var current := Find(node.conditions, t);
    if SaysTrue(current) && RulesChanged(known, DesiredPrint(lib, cfg, d, node)) then
      Outcome(RulesChangedStep(known, DesiredPrint(lib, cfg, d, node)),
              EnsureCondition(node, PendingCondition(t, matched), stamp), None)
    else if SaysTrue(current) then
      var v := DriftedStep(known, now, current.value.heartbeat);
      if v.cooldown == 0 then Outcome(Some(v.state), ValueWrite(lib, cfg, d, node), None)
      else
        var drifted := DriftedCondition(t, matched, DriftIn(lib, cfg, d, node), WritersIn(lib, d, node, v.last),
                                        v.cooldown);
        Outcome(Some(v.state), EnsureCondition(node, drifted, stamp), Some(v.cooldown))
    else if Remaining(known, now, later) > 0 then
      Outcome(known, Nothing, Some(Remaining(known, now, later)))
    else if current.None? then
      Outcome(known, EnsureCondition(node, PendingCondition(t, matched), stamp), None)
    else
      Outcome(known, ValueWrite(lib, cfg, d, node), None)
  }

  /** The reconcile functions of the three rule controllers. */
  ghost function Pass(lib: Lib, cfg: Config, d: Domain, node: Option<Node>, known: Known,
                      now: int, later: int, stamp: int): Outcome {
    if node.None? then Outcome(None, Nothing, None)
    else if Matched(lib, cfg, d, node.value) == [] then
      Outcome(None, EnsureConditionAbsent(node.value, ConditionOf(d)), None)
    else if InPlace(lib, cfg, d, node.value) then
      var applied := AppliedCondition(ConditionOf(d), Matched(lib, cfg, d, node.value));
      Outcome(known, EnsureCondition(node.value, applied, stamp), None)
    else BeforeApply(lib, cfg, d, node.value, known, now, later, stamp)
  }

  // ---- What a pass achieves

  /** Nothing is left to do for d: no rule matches and the condition is gone, or all values are in place and the
      condition says so. */
  ghost predicate Converged(lib: Lib, cfg: Config, d: Domain, node: Node) {
    var matched := Matched(lib, cfg, d, node);
    if matched == [] then Find(node.conditions, ConditionOf(d)).None?
    else InPlace(lib, cfg, d, node) && UpToDate(node.conditions, AppliedCondition(ConditionOf(d), matched))
  }

  /** Every update sent differs from the Node it was computed from, so the API server bumps the version. */
  lemma WriteDiffers(lib: Lib, cfg: Config, d: Domain, node: Node, known: Known, now: int, later: int, stamp: int)
    ensures var w := Pass(lib, cfg, d, Some(node), known, now, later, stamp).write;
            w != Nothing ==> w.node != node
  {
    hide Fingerprint, IPFingerprint, Merged, Resolved, RulesFor, RuleIPs, MatchingIDs, DriftOf, MissingIPs;
    hide Writers.Recent;
    var w := Pass(lib, cfg, d, Some(node), known, now, later, stamp).write;
    if w.Status? {
      if Matched(lib, cfg, d, node) == [] {
        RemoveChanges(node.conditions, ConditionOf(d));
      } else {
        var desired := StatusIsSet(lib, cfg, d, node, known, now, later, stamp);
        SetSettles(node.conditions, desired, stamp);
      }
    }
  }

  /** The condition a pass over a matched Node sets. */
  lemma StatusIsSet(lib: Lib, cfg: Config, d: Domain, node: Node, known: Known, now: int, later: int, stamp: int)
    returns (desired: Condition)
    requires Pass(lib, cfg, d, Some(node), known, now, later, stamp).write.Status?
    requires Matched(lib, cfg, d, node) != []
    ensures desired.kind == ConditionOf(d) && !UpToDate(node.conditions, desired)
    ensures Pass(lib, cfg, d, Some(node), known, now, later, stamp).write.node ==
            node.(conditions := Set(node.conditions, desired, stamp))
    ensures (desired.status == IsTrue <==> InPlace(lib, cfg, d, node)) && desired.status != IsUnknown
  {
    hide Fingerprint, IPFingerprint, Merged, Resolved, RulesFor, RuleIPs, MatchingIDs, DriftOf, MissingIPs;
    hide Writers.Recent;
    var t, matched := ConditionOf(d), Matched(lib, cfg, d, node);
    var current := Find(node.conditions, t);
    if InPlace(lib, cfg, d, node) {
      desired := AppliedCondition(t, matched);
    } else if SaysTrue(current) && !RulesChanged(known, DesiredPrint(lib, cfg, d, node)) {
      var v := DriftedStep(known, now, current.value.heartbeat);
      desired := DriftedCondition(t, matched, DriftIn(lib, cfg, d, node), WritersIn(lib, d, node, v.last), v.cooldown);
    } else {
      desired := PendingCondition(t, matched);
    }
  }

  /** drifted asks for an immediate restore exactly after a long hold outside any cooldown. */
  lemma DriftedVerdict(known: Known, now: int, confirmedAt: int)
    ensures var v := DriftedStep(known, now, confirmedAt);
            && v.cooldown >= 0
            && (v.cooldown == 0 <==> !Cooling(known, now) && Held(known, now, confirmedAt))
            && (v.cooldown > 0 ==> Cooling(Some(v.state), now))
  {
    if !Cooling(known, now) && !Held(known, now, confirmedAt) { CooldownIsMin(StateOf(known).flaps + 1); }
  }

  /** A pass over an up-to-date Node sends nothing exactly when the domain has converged, or when the values are
      missing, the condition does not say True, and the cooldown still runs (at the later clock reading). In the
      latter case alone it schedules itself instead. */
  lemma SilentExactly(lib: Lib, cfg: Config, d: Domain, node: Node, known: Known, now: int, later: int, stamp: int)
    requires now <= later
    ensures var o := Pass(lib, cfg, d, Some(node), known, now, later, stamp);
            && (o.write == Nothing <==>
                  Converged(lib, cfg, d, node) ||
                  (Matched(lib, cfg, d, node) != [] && !InPlace(lib, cfg, d, node)
                   && !SaysTrue(Find(node.conditions, ConditionOf(d))) && known.Some? && Cooling(known, later)))
            && (o.write == Nothing && o.after == None <==> Converged(lib, cfg, d, node))
  {
    hide Fingerprint, IPFingerprint, Merged, Resolved, RulesFor, RuleIPs, MatchingIDs, DriftOf, MissingIPs;
    hide Writers.Recent;
    var current := Find(node.conditions, ConditionOf(d));
    RemainingExactly(known, now, later);
    if SaysTrue(current) {
      DriftedVerdict(known, now, current.value.heartbeat);
    }
  }

  /** If rules of d match, its condition on now is True exactly when all resolved values are there, otherwise False; and
      it got cleared (fewer entries than on was) exactly when none matches. */
  ghost predicate TellsTruth(lib: Lib, cfg: Config, d: Domain, was: Node, now: Node) {
    && (Matched(lib, cfg, d, now) != [] ==>
          var c := Find(now.conditions, ConditionOf(d));
          && c.Some? && c.value.status != IsUnknown
          && (c.value.status == IsTrue <==> InPlace(lib, cfg, d, now)))
    && (Count(now.conditions, ConditionOf(d)) < Count(was.conditions, ConditionOf(d)) <==>
          Matched(lib, cfg, d, now) == [])
  }

  /** A condition write leaves a condition that tells the truth about the very Node it is written to. */
  lemma Truthful(lib: Lib, cfg: Config, d: Domain, node: Node, known: Known, now: int, later: int, stamp: int)
    requires Pass(lib, cfg, d, Some(node), known, now, later, stamp).write.Status?
    ensures TellsTruth(lib, cfg, d, node, Pass(lib, cfg, d, Some(node), known, now, later, stamp).write.node)
  {
    var w := Pass(lib, cfg, d, Some(node), known, now, later, stamp).write.node;
    var t := ConditionOf(d);
    if Matched(lib, cfg, d, node) == [] {
      FindCount(node.conditions, t);
      RemoveEffect(node.conditions, t, t);
    } else {
      var desired := StatusIsSet(lib, cfg, d, node, known, now, later, stamp);
      SetEffect(node.conditions, desired, stamp, t);
      SameValuesElsewhere(lib, cfg, d, node, w);
    }
  }

  /** What a domain wants and has does not depend on the conditions. */
  lemma SameValuesElsewhere(lib: Lib, cfg: Config, d: Domain, node: Node, w: Node)
    requires w == node.(conditions := w.conditions)
    ensures Matched(lib, cfg, d, w) == Matched(lib, cfg, d, node)
    ensures InPlace(lib, cfg, d, w) <==> InPlace(lib, cfg, d, node)
    ensures DesiredPrint(lib, cfg, d, w) == DesiredPrint(lib, cfg, d, node)
  {
  }

  /** Values are only written when the cooldown is over, whichever way the pass got there. */
  lemma CooldownRespected(lib: Lib, cfg: Config, d: Domain, node: Option<Node>, known: Known, now: int, later: int,
                          stamp: int)
    requires now <= later
    ensures var o := Pass(lib, cfg, d, node, known, now, later, stamp);
            o.write.Update? ==>
              && (known.Some? ==> later >= known.value.until)
              && (o.known.Some? ==> later >= o.known.value.until)
  {
    hide Fingerprint, IPFingerprint, Merged, Resolved, RulesFor, RuleIPs, MatchingIDs, DriftOf, MissingIPs;
    hide Writers.Recent;
    RemainingExactly(known, now, later);
    if node.Some? {
      var current := Find(node.value.conditions, ConditionOf(d));
      if SaysTrue(current) { DriftedVerdict(known, now, current.value.heartbeat); }
    }
  }

  /** Nothing is written to a Node that is gone. */
  lemma PassNeedsNode(lib: Lib, cfg: Config, d: Domain, node: Option<Node>, known: Known, now: int, later: int,
                      stamp: int)
    ensures Pass(lib, cfg, d, node, known, now, later, stamp).write != Nothing ==> node.Some?
  {
    hide Matched, WithValues, DesiredPrint, DriftIn, WritersIn, InPlace;
  }

  // ---- What a pass leaves alone

  /** w keeps everything of node but what the controller of d is in charge of. */
  ghost predicate OwnPartOnly(d: Domain, node: Node, w: Node) {
    && w == node.(conditions := w.conditions, labels := w.labels, annotations := w.annotations,
                  addresses := w.addresses)
    && Without(w.conditions, ConditionOf(d)) == Without(node.conditions, ConditionOf(d))
    && (d != Labels ==> w.labels == node.labels)
    && (d != Annotations ==> w.annotations == node.annotations)
    && (d != Addresses ==> w.addresses == node.addresses)
  }

  /** Nothing is removed: keys and addresses only grow. */
  ghost predicate KeepsAll(node: Node, w: Node) {
    && node.labels.Keys <= w.labels.Keys
    && node.annotations.Keys <= w.annotations.Keys
    && Elems(node.addresses) <= Elems(w.addresses)
  }

  /** A key only changes to what every matching rule that sets it wants; a new address comes from a matching rule. */
  ghost predicate FromRules(lib: Lib, cfg: Config, d: Domain, node: Node, w: Node) {
    if d == Addresses then
      forall a :: a in w.addresses && a !in node.addresses ==>
          a.kind == ExternalIP && a.addr in DesiredIPs(lib, cfg, node)
    else
      var rules := RulesFor(Matched(lib, cfg, d, node), ValueRules(cfg, d));
      var old_, new_ := GetValues(d, node), GetValues(d, w);
      forall k :: k in new_ && (k !in old_ || new_[k] != old_[k]) ==> Asks(rules, k, new_[k]) && !Conflicts(rules, k)
  }

  /** Each write touches the domain's own values or its own condition, never both; it removes no key and no address,
      and adds or changes only what the matching rules agree on. */
  lemma WritesOwnPart(lib: Lib, cfg: Config, d: Domain, node: Node, known: Known, now: int, later: int, stamp: int)
    requires Pass(lib, cfg, d, Some(node), known, now, later, stamp).write != Nothing
    ensures var w := Pass(lib, cfg, d, Some(node), known, now, later, stamp).write;
            && OwnPartOnly(d, node, w.node) && KeepsAll(node, w.node) && FromRules(lib, cfg, d, node, w.node)
            && (w.Status? ==> w.node == node.(conditions := w.node.conditions))
            && (w.Update? ==> w.node.conditions == node.conditions && w.node == WithValues(lib, cfg, d, node))
  {
    hide Fingerprint, IPFingerprint, WithValues, MatchingIDs, DriftOf, MissingIPs, Writers.Recent;
    hide FromRules, OwnPartOnly, KeepsAll, InPlace;
    var w := Pass(lib, cfg, d, Some(node), known, now, later, stamp).write;
    if w.Status? {
      StatusKeepsRest(lib, cfg, d, node, known, now, later, stamp);
    } else {
      ValuesKeepRest(lib, cfg, d, node);
    }
  }

  lemma StatusKeepsRest(lib: Lib, cfg: Config, d: Domain, node: Node, known: Known, now: int, later: int, stamp: int)
    requires Pass(lib, cfg, d, Some(node), known, now, later, stamp).write.Status?
    ensures var w := Pass(lib, cfg, d, Some(node), known, now, later, stamp).write.node;
            w == node.(conditions := w.conditions) &&
            OwnPartOnly(d, node, w) && KeepsAll(node, w) && FromRules(lib, cfg, d, node, w)
  {
    hide Fingerprint, IPFingerprint, Merged, Resolved, RulesFor, RuleIPs, MatchingIDs, DriftOf, MissingIPs;
    hide Writers.Recent;
    var t := ConditionOf(d);
    if Matched(lib, cfg, d, node) == [] {
      RemoveEffect(node.conditions, t, t);
    } else {
      var desired := StatusIsSet(lib, cfg, d, node, known, now, later, stamp);
      SetEffect(node.conditions, desired, stamp, t);
    }
  }

  lemma ValuesKeepRest(lib: Lib, cfg: Config, d: Domain, node: Node)
    ensures var w := WithValues(lib, cfg, d, node);
            && OwnPartOnly(d, node, w) && KeepsAll(node, w) && FromRules(lib, cfg, d, node, w)
            && w.conditions == node.conditions
  {
    if d == Addresses {
      MergeAddsOnly(lib, node.addresses, DesiredIPs(lib, cfg, node));
    } else {
      var rules, desired := RulesFor(Matched(lib, cfg, d, node), ValueRules(cfg, d)), Desired(lib, cfg, d, node);
      forall k | k in desired ensures Asks(rules, k, desired[k]) && !Conflicts(rules, k) {
        ResolvedExactly(rules, k, desired[k]);
      }
    }
  }
}

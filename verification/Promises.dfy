/** What the controllers achieve, in terms of nothing but the configuration's and the Node's own fields. */
module Promises {
  import opened Text
  import opened Kube
  import opened Matching
  import opened Values
  import opened Fingerprints
  import opened ExternalIPs
  import opened Conditions
  import opened Flaps
  import opened Reconcile
  import Writers

  // ---- Which rules match

  ghost predicate Fits(lib: Lib, node: Node, m: Match) {
    Matches(lib, node.labels, node.name, node.providerID, m)
  }

  function LabelMatches(cfg: Config): map<string, Match> {
    map id | id in cfg.labels :: cfg.labels[id].match_
  }

  function AnnotationMatches(cfg: Config): map<string, Match> {
    map id | id in cfg.annotations :: cfg.annotations[id].match_
  }

  function AddressMatches(cfg: Config): map<string, Match> {
    map id | id in cfg.externalIPs :: cfg.externalIPs[id].match_
  }

  /** Labels, annotations and addresses each have their own rules. */
  lemma MatchedExactly(lib: Lib, cfg: Config, node: Node, id: string)
    ensures id in Matched(lib, cfg, Labels, node) <==> id in cfg.labels && Fits(lib, node, cfg.labels[id].match_)
    ensures id in Matched(lib, cfg, Annotations, node) <==>
            id in cfg.annotations && Fits(lib, node, cfg.annotations[id].match_)
    ensures id in Matched(lib, cfg, Addresses, node) <==>
            id in cfg.externalIPs && Fits(lib, node, cfg.externalIPs[id].match_)
  {
    hide Matches, RuleMatches, MatchingSet;
    OwnMatches(cfg);
    assert id in Matched(lib, cfg, Labels, node) <==>
           id in LabelMatches(cfg) && Fits(lib, node, LabelMatches(cfg)[id]);
    assert id in Matched(lib, cfg, Annotations, node) <==>
           id in AnnotationMatches(cfg) && Fits(lib, node, AnnotationMatches(cfg)[id]);
    assert id in Matched(lib, cfg, Addresses, node) <==>
           id in AddressMatches(cfg) && Fits(lib, node, AddressMatches(cfg)[id]);
  }

  lemma OwnMatches(cfg: Config)
    ensures RuleMatches(cfg, Labels) == LabelMatches(cfg)
    ensures RuleMatches(cfg, Annotations) == AnnotationMatches(cfg)
    ensures RuleMatches(cfg, Addresses) == AddressMatches(cfg)
  {
  }

  /** ids are the IDs of the rules that match, each once and in order. */
  ghost predicate ListsMatching(lib: Lib, node: Node, matches: map<string, Match>, ids: seq<string>) {
    && Sorted(ids) && Distinct(ids)
    && forall id :: id in ids <==> id in matches && Fits(lib, node, matches[id])
  }

  /** There is only one such list, so a condition's message says exactly which rules match. */
  lemma OneListing(lib: Lib, node: Node, matches: map<string, Match>, a: seq<string>, b: seq<string>)
    requires ListsMatching(lib, node, matches, a) && ListsMatching(lib, node, matches, b)
    ensures a == b
  {
    DistinctLists(a);
    DistinctLists(b);
    assert Elems(a) == Elems(b);
    SortedUnique(a, b);
  }

  lemma MatchedListed(lib: Lib, cfg: Config, node: Node)
    ensures ListsMatching(lib, node, LabelMatches(cfg), Matched(lib, cfg, Labels, node))
    ensures ListsMatching(lib, node, AnnotationMatches(cfg), Matched(lib, cfg, Annotations, node))
    ensures ListsMatching(lib, node, AddressMatches(cfg), Matched(lib, cfg, Addresses, node))
  {
    hide Fits, Matches, RuleMatches, MatchingSet, Sorted, Distinct, LabelMatches, AnnotationMatches, AddressMatches;
    OwnMatches(cfg);
    ListedBy(lib, node, LabelMatches(cfg));
    ListedBy(lib, node, AnnotationMatches(cfg));
    ListedBy(lib, node, AddressMatches(cfg));
  }

  lemma ListedBy(lib: Lib, node: Node, matches: map<string, Match>)
    ensures ListsMatching(lib, node, matches, MatchingIDs(lib, node.labels, node.name, node.providerID, matches))
  {
    hide Matches, MatchingSet, Sorted, Distinct;
  }

  // ---- What they want

  /** A matching rule wants v at k, and every matching rule that sets k wants v. */
  ghost predicate RulesAgree(lib: Lib, node: Node, rules: map<string, ValueRule>, k: string, v: string) {
    && (exists id :: Sets(lib, node, rules, id, k, v))
    && (forall id, w :: Sets(lib, node, rules, id, k, w) ==> w == v)
  }

  ghost predicate Sets(lib: Lib, node: Node, rules: map<string, ValueRule>, id: string, k: string, v: string) {
    id in rules && Fits(lib, node, rules[id].match_) && k in rules[id].values && rules[id].values[k] == v
  }

  function RulesOf(cfg: Config, d: Domain): map<string, ValueRule> {
    if d == Labels then cfg.labels else cfg.annotations
  }

  lemma AskedBySome(lib: Lib, cfg: Config, d: Domain, node: Node, k: string, v: string)
    requires d != Addresses
    ensures var rules := RulesOf(cfg, d);
            Asks(RulesFor(Matched(lib, cfg, d, node), ValueRules(cfg, d)), k, v) <==>
            exists id :: Sets(lib, node, rules, id, k, v)
  {
    hide RulesFor, Matches, Sets, Asks;
    var rules, ids := RulesOf(cfg, d), Matched(lib, cfg, d, node);
    var asked := RulesFor(ids, ValueRules(cfg, d));
    if Asks(asked, k, v) {
      var i := AskedAt(asked, k, v);
      MatchedExactly(lib, cfg, node, ids[i]);
      SetsBy(lib, node, rules, ids[i], k, v);
    }
    if id :| Sets(lib, node, rules, id, k, v) {
      SetsBy(lib, node, rules, id, k, v);
      MatchedExactly(lib, cfg, node, id);
      var i :| 0 <= i < |ids| && ids[i] == id;
      AsksAt(asked, k, v, i);
    }
  }

  lemma AskedAt(asked: seq<Pairs>, k: string, v: string) returns (i: nat)
    requires Asks(asked, k, v)
    ensures i < |asked| && k in asked[i] && asked[i][k] == v
  {
    i :| 0 <= i < |asked| && k in asked[i] && asked[i][k] == v;
  }

  lemma AsksAt(asked: seq<Pairs>, k: string, v: string, i: nat)
    requires i < |asked| && k in asked[i] && asked[i][k] == v
    ensures Asks(asked, k, v)
  {
  }

  lemma SetsBy(lib: Lib, node: Node, rules: map<string, ValueRule>, id: string, k: string, v: string)
    ensures Sets(lib, node, rules, id, k, v) <==>
            id in rules && Fits(lib, node, rules[id].match_) && k in rules[id].values && rules[id].values[k] == v
  {
  }

  lemma DesiredExactly(lib: Lib, cfg: Config, d: Domain, node: Node, rules: map<string, ValueRule>, k: string,
                       v: string)
    requires d != Addresses && rules == RulesOf(cfg, d)
    ensures Has(Desired(lib, cfg, d, node), k, v) <==> RulesAgree(lib, node, rules, k, v)
  {
    hide RulesFor, Asks, Sets, Matches, Resolved, RulesOf;
    var asked := RulesFor(Matched(lib, cfg, d, node), ValueRules(cfg, d));
    ResolvedExactly(asked, k, v);
    AskedBySome(lib, cfg, d, node, k, v);
    if Has(Desired(lib, cfg, d, node), k, v) {
      forall id, w | Sets(lib, node, rules, id, k, w) ensures w == v { AskedBySome(lib, cfg, d, node, k, w); }
    }
    if RulesAgree(lib, node, rules, k, v) {
      forall w | Asks(asked, k, w) ensures w == v { AskedBySome(lib, cfg, d, node, k, w); }
    }
  }

  lemma AllDesired(lib: Lib, cfg: Config, d: Domain, node: Node, rules: map<string, ValueRule>)
    requires d != Addresses && rules == RulesOf(cfg, d)
    ensures forall k, v :: Has(Desired(lib, cfg, d, node), k, v) <==> RulesAgree(lib, node, rules, k, v)
  {
    hide Desired, RulesAgree, RulesOf, Has;
    forall k, v ensures Has(Desired(lib, cfg, d, node), k, v) <==> RulesAgree(lib, node, rules, k, v) {
      DesiredExactly(lib, cfg, d, node, rules, k, v);
    }
  }

  lemma {:induction false} RuleIPsConcat(rules: map<string, IPRule>, a: seq<string>, b: seq<string>)
    requires forall id :: id in a || id in b ==> id in rules
    ensures RuleIPs(rules, a + b) == RuleIPs(rules, a) + RuleIPs(rules, b)
    decreases |a|
  {
    if a == [] {
      assert a + b == b;
    } else {
      assert (a + b)[1..] == a[1..] + b && (a + b)[0] == a[0];
      RuleIPsConcat(rules, a[1..], b);
    }
  }

  lemma RuleIPsOne(rules: map<string, IPRule>, id: string)
    requires id in rules
    ensures RuleIPs(rules, [id]) == rules[id].externalIPs
  {
    assert [id][1..] == [];
  }

  lemma {:induction false} RuleIPsExactly(rules: map<string, IPRule>, ids: seq<string>, ip: string)
    requires forall id :: id in ids ==> id in rules
    ensures ip in RuleIPs(rules, ids) <==> exists id :: id in ids && ip in rules[id].externalIPs
    decreases |ids|
  {
    if ids != [] {
      RuleIPsExactly(rules, ids[1..], ip);
      assert ids == [ids[0]] + ids[1..];
    }
  }

  /** All addresses of all matching rules are wanted, and no others. */
  lemma DesiredIPsExactly(lib: Lib, cfg: Config, node: Node, ip: string)
    ensures ip in DesiredIPs(lib, cfg, node) <==>
            exists id :: id in cfg.externalIPs && Fits(lib, node, cfg.externalIPs[id].match_)
                         && ip in cfg.externalIPs[id].externalIPs
  {
    hide Matches, RuleIPs;
    RuleIPsExactly(cfg.externalIPs, Matched(lib, cfg, Addresses, node), ip);
    forall id ensures id in Matched(lib, cfg, Addresses, node) <==>
                      id in cfg.externalIPs && Fits(lib, node, cfg.externalIPs[id].match_)
    {
      MatchedExactly(lib, cfg, node, id);
    }
  }

  // ---- Converged Nodes

  /** The first condition of type t says that the values of rules ids are applied. */
  ghost predicate SaysApplied(node: Node, t: ConditionType, ids: seq<string>) {
    var c := Find(node.conditions, t);
    c.Some? && c.value.status == IsTrue && c.value.reason == Applied && c.value.message == AppliedFrom(ids)
  }

  lemma HeldPairs(values: Pairs, desired: Pairs)
    ensures values + desired == values <==> forall k, v :: Has(desired, k, v) ==> k in values && values[k] == v
  {
    HoldsMeansUnchanged(values, desired);
    if forall k, v :: Has(desired, k, v) ==> k in values && values[k] == v {
      forall k | k in desired ensures k in values && values[k] == desired[k] { assert Has(desired, k, desired[k]); }
    }
  }

  lemma LabelsInPlace(lib: Lib, cfg: Config, node: Node)
    ensures InPlace(lib, cfg, Labels, node) <==>
            forall k, v :: RulesAgree(lib, node, cfg.labels, k, v) ==> k in node.labels && node.labels[k] == v
  {
    hide Desired, RulesAgree, Has;
    AllDesired(lib, cfg, Labels, node, cfg.labels);
    HeldPairs(node.labels, Desired(lib, cfg, Labels, node));
    assert WithValues(lib, cfg, Labels, node) == node.(labels := node.labels + Desired(lib, cfg, Labels, node));
    if forall k, v :: RulesAgree(lib, node, cfg.labels, k, v) ==> k in node.labels && node.labels[k] == v {
      forall k, v | Has(Desired(lib, cfg, Labels, node), k, v) ensures k in node.labels && node.labels[k] == v {
        assert RulesAgree(lib, node, cfg.labels, k, v);
      }
    }
  }

  lemma AnnotationsInPlace(lib: Lib, cfg: Config, node: Node)
    ensures InPlace(lib, cfg, Annotations, node) <==>
            forall k, v :: RulesAgree(lib, node, cfg.annotations, k, v) ==>
                             k in node.annotations && node.annotations[k] == v
  {
    hide Desired, RulesAgree, Has;
    AllDesired(lib, cfg, Annotations, node, cfg.annotations);
    HeldPairs(node.annotations, Desired(lib, cfg, Annotations, node));
    assert WithValues(lib, cfg, Annotations, node) ==
           node.(annotations := node.annotations + Desired(lib, cfg, Annotations, node));
  }

  /** Labels have converged exactly if the Node has every label the matching label rules agree on, and its condition
      Labeled names just these rules; or if none matches and there is no such condition. */
  lemma LabelsConverged(lib: Lib, cfg: Config, node: Node, ids: seq<string>)
    requires ListsMatching(lib, node, LabelMatches(cfg), ids)
    ensures Converged(lib, cfg, Labels, node) <==>
            if ids == [] then forall c :: c in node.conditions ==> c.kind != Labeled
            else && SaysApplied(node, Labeled, ids)
                 && forall k, v :: RulesAgree(lib, node, cfg.labels, k, v) ==> k in node.labels && node.labels[k] == v
  {
    hide Matched, InPlace, RulesAgree, ListsMatching;
    MatchedListed(lib, cfg, node);
    OneListing(lib, node, LabelMatches(cfg), ids, Matched(lib, cfg, Labels, node));
    LabelsInPlace(lib, cfg, node);
  }

  /** And so have annotations, with the condition Annotated. */
  lemma AnnotationsConverged(lib: Lib, cfg: Config, node: Node, ids: seq<string>)
    requires ListsMatching(lib, node, AnnotationMatches(cfg), ids)
    ensures Converged(lib, cfg, Annotations, node) <==>
            if ids == [] then forall c :: c in node.conditions ==> c.kind != Annotated
            else && SaysApplied(node, Annotated, ids)
                 && forall k, v :: RulesAgree(lib, node, cfg.annotations, k, v) ==>
                                     k in node.annotations && node.annotations[k] == v
  {
    hide Matched, InPlace, RulesAgree, ListsMatching;
    MatchedListed(lib, cfg, node);
    OneListing(lib, node, AnnotationMatches(cfg), ids, Matched(lib, cfg, Annotations, node));
    AnnotationsInPlace(lib, cfg, node);
  }

  /** A Node whose addresses have converged carries every address of every matching rule as an ExternalIP, and its
      condition ExternalIPsApplied names just these rules; or none matches and there is no such condition. */
  lemma AddressesConverged(lib: Lib, cfg: Config, node: Node, ids: seq<string>)
    requires ListsMatching(lib, node, AddressMatches(cfg), ids) && Converged(lib, cfg, Addresses, node)
    ensures if ids == [] then forall c :: c in node.conditions ==> c.kind != ExternalIPsApplied
            else SaysApplied(node, ExternalIPsApplied, ids)
    ensures forall id, ip | id in cfg.externalIPs && Fits(lib, node, cfg.externalIPs[id].match_)
                            && ip in cfg.externalIPs[id].externalIPs :: Address(ExternalIP, ip) in node.addresses
  {
    hide Matched, Matches, RuleIPs, Merged;
    MatchedListed(lib, cfg, node);
    OneListing(lib, node, AddressMatches(cfg), ids, Matched(lib, cfg, Addresses, node));
    UnchangedMeansPresent(lib, node.addresses, DesiredIPs(lib, cfg, node));
    forall id, ip | id in cfg.externalIPs && Fits(lib, node, cfg.externalIPs[id].match_)
                    && ip in cfg.externalIPs[id].externalIPs
      ensures Address(ExternalIP, ip) in node.addresses
    {
      assert id in ids;
      DesiredIPsExactly(lib, cfg, node, ip);
      MissingExactly(node.addresses, DesiredIPs(lib, cfg, node), ip);
    }
  }

  // ---- What is written

  /** A value write of labels sets what the matching label rules agree on, and leaves all other labels as they are. */
  lemma LabelsWritten(lib: Lib, cfg: Config, node: Node, k: string, v: string)
    ensures var w := WithValues(lib, cfg, Labels, node);
            && w == node.(labels := w.labels)
            && (k in w.labels && w.labels[k] == v <==>
                  || RulesAgree(lib, node, cfg.labels, k, v)
                  || (k in node.labels && node.labels[k] == v && !exists u :: RulesAgree(lib, node, cfg.labels, k, u)))
  {
    hide Desired, RulesAgree;
    AllDesired(lib, cfg, Labels, node, cfg.labels);
    var desired := Desired(lib, cfg, Labels, node);
    if k in desired { assert Has(desired, k, desired[k]); }
  }

  lemma AnnotationsWritten(lib: Lib, cfg: Config, node: Node, k: string, v: string)
    ensures var w := WithValues(lib, cfg, Annotations, node);
            && w == node.(annotations := w.annotations)
            && (k in w.annotations && w.annotations[k] == v <==>
                  || RulesAgree(lib, node, cfg.annotations, k, v)
                  || (&& k in node.annotations && node.annotations[k] == v
                      && !exists u :: RulesAgree(lib, node, cfg.annotations, k, u)))
  {
    hide Desired, RulesAgree;
    AllDesired(lib, cfg, Annotations, node, cfg.annotations);
    var desired := Desired(lib, cfg, Annotations, node);
    if k in desired { assert Has(desired, k, desired[k]); }
  }

  /** A value write of addresses keeps all there are and adds those of the matching rules, as ExternalIPs. */
  lemma AddressesWritten(lib: Lib, cfg: Config, node: Node, a: Address)
    ensures var w := WithValues(lib, cfg, Addresses, node);
            && w == node.(addresses := w.addresses)
            && (a in w.addresses <==>
                  || a in node.addresses
                  || (a.kind == ExternalIP
                      && exists id :: id in cfg.externalIPs && Fits(lib, node, cfg.externalIPs[id].match_)
                                      && a.addr in cfg.externalIPs[id].externalIPs))
  {
    hide Merged, DesiredIPs, Matches;
    MergeAddsOnly(lib, node.addresses, DesiredIPs(lib, cfg, node));
    DesiredIPsExactly(lib, cfg, node, a.addr);
  }

  // ---- Each controller reads its own rules only

  lemma OwnRulesOnly(lib: Lib, a: Config, b: Config, d: Domain, node: Node)
    requires d == Labels ==> a.labels == b.labels
    requires d == Annotations ==> a.annotations == b.annotations
    requires d == Addresses ==> a.externalIPs == b.externalIPs
    ensures Matched(lib, a, d, node) == Matched(lib, b, d, node)
    ensures WithValues(lib, a, d, node) == WithValues(lib, b, d, node)
    ensures DesiredPrint(lib, a, d, node) == DesiredPrint(lib, b, d, node)
    ensures DriftIn(lib, a, d, node) == DriftIn(lib, b, d, node)
  {
    hide MatchingIDs, Resolved, RulesFor, RuleIPs, Merged, Fingerprint, DriftOf, MissingIPs;
    assert RuleMatches(a, d) == RuleMatches(b, d);
  }

  lemma PassReadsOwnRules(lib: Lib, a: Config, b: Config, d: Domain, node: Option<Node>, known: Known, now: int,
                          later: int, stamp: int)
    requires d == Labels ==> a.labels == b.labels
    requires d == Annotations ==> a.annotations == b.annotations
    requires d == Addresses ==> a.externalIPs == b.externalIPs
    ensures Pass(lib, a, d, node, known, now, later, stamp) == Pass(lib, b, d, node, known, now, later, stamp)
  {
    hide Matched, WithValues, DesiredPrint, DriftIn, WritersIn, EnsureCondition, DriftedStep, Remaining, RulesChanged;
    if node.Some? { OwnRulesOnly(lib, a, b, d, node.value); }
  }

  // ---- What a flap's report names

  lemma DriftNames(existing: Pairs, desired: Pairs, k: string)
    ensures k in DriftOf(existing, desired).missing <==> k !in existing && k in desired
    ensures k in DriftOf(existing, desired).changed <==> k in existing && k in desired && desired[k] != existing[k]
  {
    hide DriftOf;
    DriftAgreesWithWrite(existing, desired);
  }

  /** The keys or addresses a Drifted condition names: missing ones, and keys with another value than the rules agree
      on. */
  lemma LabelsReported(lib: Lib, cfg: Config, node: Node, k: string)
    ensures k in DriftIn(lib, cfg, Labels, node).missing <==>
            k !in node.labels && exists v :: RulesAgree(lib, node, cfg.labels, k, v)
    ensures k in DriftIn(lib, cfg, Labels, node).changed <==>
            k in node.labels && exists v :: RulesAgree(lib, node, cfg.labels, k, v) && node.labels[k] != v
  {
    hide Desired, RulesAgree, DriftOf;
    DriftNames(node.labels, Desired(lib, cfg, Labels, node), k);
    AllDesired(lib, cfg, Labels, node, cfg.labels);
    var desired := Desired(lib, cfg, Labels, node);
    if k in desired { assert Has(desired, k, desired[k]); }
  }

  lemma AnnotationsReported(lib: Lib, cfg: Config, node: Node, k: string)
    ensures k in DriftIn(lib, cfg, Annotations, node).missing <==>
            k !in node.annotations && exists v :: RulesAgree(lib, node, cfg.annotations, k, v)
    ensures k in DriftIn(lib, cfg, Annotations, node).changed <==>
            && k in node.annotations
            && exists v :: RulesAgree(lib, node, cfg.annotations, k, v) && node.annotations[k] != v
  {
    hide Desired, RulesAgree, DriftOf;
    DriftNames(node.annotations, Desired(lib, cfg, Annotations, node), k);
    AllDesired(lib, cfg, Annotations, node, cfg.annotations);
    var desired := Desired(lib, cfg, Annotations, node);
    if k in desired { assert Has(desired, k, desired[k]); }
  }

  lemma AddressesReported(lib: Lib, cfg: Config, node: Node, ip: string)
    ensures DriftIn(lib, cfg, Addresses, node).changed == []
    ensures ip in DriftIn(lib, cfg, Addresses, node).missing <==>
            && Address(ExternalIP, ip) !in node.addresses
            && exists id :: id in cfg.externalIPs && Fits(lib, node, cfg.externalIPs[id].match_)
                            && ip in cfg.externalIPs[id].externalIPs
  {
    hide DesiredIPs, MissingIPs, Matches;
    MissingExactly(node.addresses, DesiredIPs(lib, cfg, node), ip);
    DesiredIPsExactly(lib, cfg, node, ip);
  }

  // ---- When rules count as changed

  /** The detector tells what is wanted now from what was wanted then: exactly when some key or value differs. */
  lemma WishesTold(lib: Lib, a: Config, n: Node, b: Config, m: Node)
    requires Clean(Desired(lib, a, Labels, n)) && Clean(Desired(lib, b, Labels, m))
    requires Clean(Desired(lib, a, Annotations, n)) && Clean(Desired(lib, b, Annotations, m))
    requires forall ip :: ip in DesiredIPs(lib, a, n) || ip in DesiredIPs(lib, b, m) ==> NUL !in ip
    ensures DesiredPrint(lib, a, Labels, n) == DesiredPrint(lib, b, Labels, m) <==>
            forall k, v :: RulesAgree(lib, n, a.labels, k, v) <==> RulesAgree(lib, m, b.labels, k, v)
    ensures DesiredPrint(lib, a, Annotations, n) == DesiredPrint(lib, b, Annotations, m) <==>
            forall k, v :: RulesAgree(lib, n, a.annotations, k, v) <==> RulesAgree(lib, m, b.annotations, k, v)
    ensures DesiredPrint(lib, a, Addresses, n) == DesiredPrint(lib, b, Addresses, m) <==>
            forall ip :: ip in DesiredIPs(lib, a, n) <==> ip in DesiredIPs(lib, b, m)
  {
    hide Desired, DesiredIPs, RulesAgree, Fingerprint, Clean;
    ToldFor(lib, a, n, b, m, Labels, a.labels, b.labels);
    ToldFor(lib, a, n, b, m, Annotations, a.annotations, b.annotations);
    IPFingerprintIdentifies(DesiredIPs(lib, a, n), DesiredIPs(lib, b, m));
  }

  lemma ToldFor(lib: Lib, a: Config, n: Node, b: Config, m: Node, d: Domain, ra: map<string, ValueRule>,
                rb: map<string, ValueRule>)
    requires d != Addresses && Clean(Desired(lib, a, d, n)) && Clean(Desired(lib, b, d, m))
    requires ra == RulesOf(a, d) && rb == RulesOf(b, d)
    ensures DesiredPrint(lib, a, d, n) == DesiredPrint(lib, b, d, m) <==>
            forall k, v :: RulesAgree(lib, n, ra, k, v) <==> RulesAgree(lib, m, rb, k, v)
  {
    hide Desired, RulesAgree, Fingerprint, Clean, RulesOf, Has;
    var x, y := Desired(lib, a, d, n), Desired(lib, b, d, m);
    AllDesired(lib, a, d, n, ra);
    AllDesired(lib, b, d, m, rb);
    FingerprintIdentifies(x, y);
    if forall k, v :: RulesAgree(lib, n, ra, k, v) <==> RulesAgree(lib, m, rb, k, v) {
      forall k, v ensures Has(x, k, v) <==> Has(y, k, v) {
        assert RulesAgree(lib, n, ra, k, v) <==> RulesAgree(lib, m, rb, k, v);
      }
      SameLookups(x, y);
    }
  }

  // ---- How a pass starts and goes on

  /** Values are missing and no cooldown runs. Without a condition it becomes Pending, and waits for the matching
      rules by name. With one that does not say True, whatever else it says, the values are written. */
  lemma NotTrueGoesOn(lib: Lib, cfg: Config, d: Domain, node: Node, known: Known, now: int, later: int, stamp: int)
    requires Matched(lib, cfg, d, node) != [] && WithValues(lib, cfg, d, node) != node
    requires now <= later && StateOf(known).until <= later
    ensures var t := match d case Labels => Labeled case Annotations => Annotated case Addresses => ExternalIPsApplied;
            var o := Pass(lib, cfg, d, Some(node), known, now, later, stamp);
            && ((forall c :: c in node.conditions ==> c.kind != t) ==>
                  && o.write.Status? && o.write.node == node.(conditions := o.write.node.conditions)
                  && Find(o.write.node.conditions, t) ==
                     Some(Condition(t, IsFalse, Pending, WaitingFor(Matched(lib, cfg, d, node)), stamp, stamp)))
            && (Find(node.conditions, t).Some? && Find(node.conditions, t).value.status != IsTrue ==>
                  o.write == Update(WithValues(lib, cfg, d, node), DesiredPrint(lib, cfg, d, node)))
  {
    hide Matched, WithValues, DesiredPrint, DriftIn, WritersIn;
    RemainingExactly(known, now, later);
    SetEffect(node.conditions, PendingCondition(ConditionOf(d), Matched(lib, cfg, d, node)), stamp, ConditionOf(d));
  }

  /** Of a Node that is gone, or that no rule matches any more, nothing is remembered, and nothing is scheduled. */
  lemma ForgetsUnmatched(lib: Lib, cfg: Config, d: Domain, node: Option<Node>, known: Known, now: int, later: int,
                         stamp: int)
    requires node.Some? ==> forall id :: id !in Matched(lib, cfg, d, node.value)
    ensures var o := Pass(lib, cfg, d, node, known, now, later, stamp); o.known == None && o.after == None
  {
    hide Matched;
    if node.Some? { NobodyListed(Matched(lib, cfg, d, node.value)); }
  }

  lemma NobodyListed(ids: seq<string>)
    ensures ids == [] || exists id :: id in ids
  {
    if ids != [] { assert ids[0] in ids; }
  }

  // ---- Who is named

  /** e was written, by another manager than this binary, not before the second since lies in. */
  ghost predicate WrittenSince(lib: Lib, e: ManagedEntry, since: int) {
    && e.manager != lib.manager
    && exists n: int :: n * 1_000_000_000 <= since < (n + 1) * 1_000_000_000
                        && (if e.time.Some? then e.time.value else 0) >= n * 1_000_000_000
  }

  /** e owns an object under a and b. */
  ghost predicate Owns(e: ManagedEntry, a: string, b: string) {
    && e.fields.Parsed? && a in e.fields.members && e.fields.members[a].Object?
    && b in e.fields.members[a].members && e.fields.members[a].members[b].Object?
  }

  ghost predicate OwnsValues(d: Domain, e: ManagedEntry) {
    match d
    case Labels => e.subresource == "" && Owns(e, "f:metadata", "f:labels")
    case Annotations => e.subresource == "" && Owns(e, "f:metadata", "f:annotations")
    case Addresses => e.subresource == "status" && Owns(e, "f:status", "f:addresses")
  }

  /** A flap's report names exactly the managers, other than this binary, that own the domain's field by a write
      since. */
  lemma WritersExactly(lib: Lib, d: Domain, node: Node, since: int, w: string)
    ensures w in WritersIn(lib, d, node, since) <==>
            exists e :: e in node.managed && e.manager == w && OwnsValues(d, e) && WrittenSince(lib, e, since)
  {
    hide Writers.Recent, Writers.Qualifies, OwnsValues, WrittenSince;
    Writers.RecentExactly(node.managed, lib.manager, Subresource(d), since, FieldPath(d));
    forall e ensures Writers.Qualifies(e, lib.manager, Subresource(d), since, FieldPath(d)) <==>
                     OwnsValues(d, e) && WrittenSince(lib, e, since)
    {
      QualifiesExactly(lib, d, e, since);
    }
  }

  lemma QualifiesExactly(lib: Lib, d: Domain, e: ManagedEntry, since: int)
    ensures Writers.Qualifies(e, lib.manager, Subresource(d), since, FieldPath(d)) <==>
            OwnsValues(d, e) && WrittenSince(lib, e, since)
  {
    hide Writers.HasPath, Writers.TruncateToSecond;
    var n := since / SECOND;
    assert n * 1_000_000_000 <= since < (n + 1) * 1_000_000_000;
    forall m: int | m * 1_000_000_000 <= since < (m + 1) * 1_000_000_000
      ensures Writers.TruncateToSecond(since) == m * 1_000_000_000
    {
      Writers.RoundsDown(since, m);
    }
    if e.fields.Parsed? {
      var members := e.fields.members;
      Writers.OwnsUnder(members, "f:metadata", "f:labels");
      Writers.OwnsUnder(members, "f:metadata", "f:annotations");
      Writers.OwnsUnder(members, "f:status", "f:addresses");
    }
  }
}

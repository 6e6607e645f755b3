/** Initializing Nodes no cloud-controller-manager takes care of (pkg/controller/initialization_controller.go). */
module Initialization {
  import opened Text
  import opened Kube
  import opened Matching

  // ---- The providerID scheme

  /** The schemes the matched rules ask for. */
  ghost function Schemes(matched: seq<string>, rules: map<string, InitRule>): set<string> {
    set id | id in matched && id in rules && rules[id].providerIDScheme != "" :: rules[id].providerIDScheme
  }

  /** None when they disagree; "" when none asks for one. */
  ghost function SchemeOf(schemes: set<string>): (r: Option<string>)
    ensures r.None? <==> exists s, t :: s in schemes && t in schemes && s != t
    ensures r.Some? && r.value != "" ==> schemes == {r.value}
    ensures r == Some("") && "" !in schemes ==> schemes == {}
  {
    if schemes == {} then Some("")
    else
      var s :| s in schemes;
      if schemes == {s} then Some(s)
      else
        assert exists t :: t in schemes && t != s;
        None
  }

  lemma SchemeOfOne(s: string)
    ensures SchemeOf({s}) == Some(s)
  {
    assert s in {s};
  }

  method ResolveProviderIDScheme(matched: seq<string>, rules: map<string, InitRule>) returns (scheme: string, ok: bool)
    requires forall id :: id in matched ==> id in rules
    ensures (if ok then Some(scheme) else None) == SchemeOf(Schemes(matched, rules))
  {
    var schemes: seq<string> := [];
    assert Schemes([], rules) == {};
    for i := 0 to |matched|
      invariant Lists(schemes, Schemes(matched[..i], rules))
    {
      var s := rules[matched[i]].providerIDScheme;
      SchemesAppend(schemes, matched[..i], matched[i], rules);
      assert matched[..i + 1] == matched[..i] + [matched[i]];
      if s != "" && s !in schemes {
        schemes := schemes + [s];
      }
    }
    assert matched[..|matched|] == matched;
    OneScheme(schemes, Schemes(matched, rules));
    if |schemes| == 0 {
      return "", true;
    } else if |schemes| == 1 {
      return schemes[0], true;
    } else {
      return "", false;
    }
  }

  lemma SchemesAppend(schemes: seq<string>, ids: seq<string>, id: string, rules: map<string, InitRule>)
    requires id in rules && Lists(schemes, Schemes(ids, rules))
    ensures var s := rules[id].providerIDScheme;
            Lists(if s != "" && s !in schemes then schemes + [s] else schemes, Schemes(ids + [id], rules))
  {
    var s, was, now := rules[id].providerIDScheme, Schemes(ids, rules), Schemes(ids + [id], rules);
    assert now == was + (if s != "" then {s} else {}) by {
      forall x ensures x in now <==> x in was + (if s != "" then {s} else {}) {
        assert forall y :: y in ids + [id] <==> y in ids || y == id;
      }
    }
    ListsElems(schemes, was);
    if s != "" && s !in schemes {
      assert multiset(was + {s}) == multiset(was) + multiset{s};
    } else {
      assert now == was;
    }
  }

  lemma OneScheme(schemes: seq<string>, all: set<string>)
    requires Lists(schemes, all)
    ensures SchemeOf(all) == if |schemes| == 0 then Some("") else if |schemes| == 1 then Some(schemes[0]) else None
  {
    ListsElems(schemes, all);
    ListsDistinct(schemes, all);
    if |schemes| == 1 {
      assert all == {schemes[0]};
      SchemeOfOne(schemes[0]);
    } else if |schemes| > 1 {
      assert schemes[0] in all && schemes[1] in all && schemes[0] != schemes[1];
    }
  }

  // ---- The taint

  predicate HasTaint(taints: seq<Taint>) {
    exists i :: 0 <= i < |taints| && taints[i].key == Uninitialized
  }

  function WithoutTaint(taints: seq<Taint>): (out: seq<Taint>)
    ensures !HasTaint(out)
  {
    if taints == [] then []
    else if taints[0].key == Uninitialized then WithoutTaint(taints[1..])
    else [taints[0]] + WithoutTaint(taints[1..])
  }

  lemma {:induction false} TaintRemoved(taints: seq<Taint>)
    ensures WithoutTaint(taints) == taints <==> !HasTaint(taints)
    ensures forall t :: t in WithoutTaint(taints) <==> t in taints && t.key != Uninitialized
    ensures |WithoutTaint(taints)| <= |taints|
  {
    if taints != [] {
      TaintRemoved(taints[1..]);
      assert taints == [taints[0]] + taints[1..];
      if !HasTaint(taints) {
        assert taints[0].key != Uninitialized;
        assert forall i :: 0 <= i < |taints[1..]| ==> taints[1..][i] == taints[i + 1];
      }
    }
  }

  lemma {:induction false} WithoutTaintAppend(taints: seq<Taint>, t: Taint)
    ensures WithoutTaint(taints + [t]) ==
            if t.key == Uninitialized then WithoutTaint(taints) else WithoutTaint(taints) + [t]
  {
    if taints == [] {
      assert [] + [t] == [t] && [t][1..] == [];
    } else {
      assert (taints + [t])[1..] == taints[1..] + [t];
      WithoutTaintAppend(taints[1..], t);
    }
  }

  method HasUninitializedTaint(node: Node) returns (yes: bool)
    ensures yes <==> HasTaint(node.taints)
  {
    for i := 0 to |node.taints|
      invariant forall j :: 0 <= j < i ==> node.taints[j].key != Uninitialized
    {
      if node.taints[i].key == Uninitialized {
        return true;
      }
    }
    return false;
  }

  method RemoveTaint(taints: seq<Taint>) returns (out: seq<Taint>)
    ensures out == WithoutTaint(taints)
  {
    out := [];
    for i := 0 to |taints|
      invariant out == WithoutTaint(taints[..i])
    {
      assert taints[..i + 1] == taints[..i] + [taints[i]];
      WithoutTaintAppend(taints[..i], taints[i]);
      if taints[i].key == Uninitialized {
        continue;
      }
      out := out + [taints[i]];
    }
    assert taints[..|taints|] == taints;
  }

  // ---- What a pass over a Node writes

  function InitMatches(cfg: Config): map<string, Match> {
    map id | id in cfg.initialization :: cfg.initialization[id].match_
  }

  ghost function Matched(lib: Lib, cfg: Config, node: Node): seq<string> {
    MatchingIDs(lib, node.labels, node.name, node.providerID, InitMatches(cfg))
  }

  ghost function Scheme(lib: Lib, cfg: Config, node: Node): Option<string> {
    SchemeOf(Schemes(Matched(lib, cfg, node), cfg.initialization))
  }

  function ProviderID(scheme: string, name: string): string {
    scheme + "://" + name
  }

  ghost function NewProviderID(lib: Lib, cfg: Config, node: Node): string {
    var scheme := Scheme(lib, cfg, node);
    if node.providerID == "" && scheme.Some? && scheme.value != "" then ProviderID(scheme.value, node.name)
    else node.providerID
  }

  /** The Node as written, or None. */
  ghost function InitWrite(lib: Lib, cfg: Config, node: Node): Option<Node> {
    if Matched(lib, cfg, node) == [] then None
    else if node.providerID == "" && Scheme(lib, cfg, node).None? then None
    else if NewProviderID(lib, cfg, node) == node.providerID && !HasTaint(node.taints) then None
    else Some(node.(providerID := NewProviderID(lib, cfg, node), taints := WithoutTaint(node.taints)))
  }

  /** How far a Node is from being initialized. */
  function Rank(node: Node): nat {
    (if node.providerID == "" then 1 else 0) + (if HasTaint(node.taints) then 1 else 0)
  }

  ghost predicate Agree(schemes: set<string>) {
    forall s, t :: s in schemes && t in schemes ==> s == t
  }

  /** id is scheme, "://" and name. */
  predicate ReadsAs(id: string, scheme: string, name: string) {
    && |id| == |scheme| + 3 + |name|
    && id[..|scheme|] == scheme && id[|scheme|..|scheme| + 3] == "://" && id[|scheme| + 3..] == name
  }

  lemma ProviderIDReads(scheme: string, name: string)
    ensures ReadsAs(ProviderID(scheme, name), scheme, name)
  {
  }

  lemma ProviderIDNotEmpty(scheme: string, name: string)
    ensures ProviderID(scheme, name) != ""
  {
    assert |ProviderID(scheme, name)| == |scheme| + 3 + |name|;
  }

  lemma SchemesNotEmpty(matched: seq<string>, rules: map<string, InitRule>)
    ensures "" !in Schemes(matched, rules)
  {
  }

  /** Nodes no rule matches, and Nodes without providerID whose rules disagree, are left alone; a providerID is
      never changed once set; and the taint never goes while an agreed providerID stays unset. */
  lemma InitSafety(lib: Lib, cfg: Config, node: Node)
    requires InitWrite(lib, cfg, node).Some?
    ensures var w := InitWrite(lib, cfg, node).value;
            && (exists id :: id in cfg.initialization
                             && Matches(lib, node.labels, node.name, node.providerID, cfg.initialization[id].match_))
            && (node.providerID != "" ==> w.providerID == node.providerID)
            && (node.providerID == "" ==> Agree(Schemes(Matched(lib, cfg, node), cfg.initialization)))
            && (w.providerID == "" <==>
                  node.providerID == "" && Schemes(Matched(lib, cfg, node), cfg.initialization) == {})
            && (node.providerID == "" && w.providerID != "" ==>
                  exists s :: && Schemes(Matched(lib, cfg, node), cfg.initialization) == {s}
                              && ReadsAs(w.providerID, s, node.name))
            && !HasTaint(w.taints)
            && w == node.(providerID := w.providerID, taints := w.taints)
            && (forall t :: t in w.taints <==> t in node.taints && t.key != Uninitialized)
            && Rank(w) < Rank(node)
            && w != node
  {
    var matched := Matched(lib, cfg, node);
    assert matched[0] in matched;
    var id := matched[0];
    assert id in InitMatches(cfg);
    TaintRemoved(node.taints);
    SchemesNotEmpty(matched, cfg.initialization);
    var scheme := Scheme(lib, cfg, node);
    if scheme.Some? {
      ProviderIDNotEmpty(scheme.value, node.name);
      ProviderIDReads(scheme.value, node.name);
    }
  }

  /** One write settles the Node, although a stamped providerID can change which rules match. */
  lemma InitSettles(lib: Lib, cfg: Config, node: Node)
    requires InitWrite(lib, cfg, node).Some?
    ensures InitWrite(lib, cfg, InitWrite(lib, cfg, node).value).None?
  {
    InitSafety(lib, cfg, node);
    var w := InitWrite(lib, cfg, node).value;
    if w.providerID == "" {
      assert Matched(lib, cfg, w) == Matched(lib, cfg, node);
      assert Scheme(lib, cfg, w) == Scheme(lib, cfg, node);
    }
  }

  // ---- In terms of the rules and the Node

  ghost predicate Applies(lib: Lib, cfg: Config, node: Node, id: string) {
    id in cfg.initialization && Matches(lib, node.labels, node.name, node.providerID, cfg.initialization[id].match_)
  }

  /** A rule that matches the Node asks for scheme. */
  ghost predicate AsksFor(lib: Lib, cfg: Config, node: Node, scheme: string) {
    scheme != "" && exists id :: Applies(lib, cfg, node, id) && cfg.initialization[id].providerIDScheme == scheme
  }

  lemma SchemesExactly(lib: Lib, cfg: Config, node: Node, scheme: string)
    ensures scheme in Schemes(Matched(lib, cfg, node), cfg.initialization) <==> AsksFor(lib, cfg, node, scheme)
  {
    forall id ensures id in Matched(lib, cfg, node) <==> Applies(lib, cfg, node, id) {
      MatchedExactly(lib, cfg, node, id);
    }
  }

  lemma MatchedExactly(lib: Lib, cfg: Config, node: Node, id: string)
    ensures id in Matched(lib, cfg, node) <==>
            && id in cfg.initialization
            && Matches(lib, node.labels, node.name, node.providerID, cfg.initialization[id].match_)
  {
    hide Matches;
  }

  lemma AnyMatched(lib: Lib, cfg: Config, node: Node)
    ensures Matched(lib, cfg, node) != [] <==> exists id :: Applies(lib, cfg, node, id)
  {
    hide Matches;
    var ids := Matched(lib, cfg, node);
    if ids != [] {
      MatchedExactly(lib, cfg, node, ids[0]);
      assert Applies(lib, cfg, node, ids[0]);
    }
    if id :| Applies(lib, cfg, node, id) {
      MatchedExactly(lib, cfg, node, id);
      assert id in ids;
    }
  }

  /** A Node without providerID, for which the matching rules ask for one scheme, gets the providerID made of the
      scheme and its own name, and loses the taint. */
  lemma StampsScheme(lib: Lib, cfg: Config, node: Node, scheme: string)
    requires node.providerID == "" && AsksFor(lib, cfg, node, scheme)
    requires forall other :: AsksFor(lib, cfg, node, other) ==> other == scheme
    ensures InitWrite(lib, cfg, node).Some?
    ensures var w := InitWrite(lib, cfg, node).value;
            ReadsAs(w.providerID, scheme, node.name) && forall t :: t in w.taints ==> t.key != Uninitialized
  {
    hide Matched, Schemes, AsksFor;
    var schemes := Schemes(Matched(lib, cfg, node), cfg.initialization);
    forall s ensures s in schemes <==> s == scheme { SchemesExactly(lib, cfg, node, s); }
    assert schemes == {scheme};
    SchemeOfOne(scheme);
    OneAsks(lib, cfg, node, scheme);
    AnyMatched(lib, cfg, node);
    ProviderIDNotEmpty(scheme, node.name);
    TaintRemoved(node.taints);
  }

  lemma OneAsks(lib: Lib, cfg: Config, node: Node, scheme: string)
    requires AsksFor(lib, cfg, node, scheme)
    ensures scheme != "" && exists id :: Applies(lib, cfg, node, id)
  {
  }

  /** All other Nodes keep the providerID they have or lack: if a rule matches, and those that ask for a scheme agree
      or need not be asked, the taint goes; and otherwise nothing is written. */
  lemma StampsNothingElse(lib: Lib, cfg: Config, node: Node)
    requires node.providerID != "" || forall scheme :: !AsksFor(lib, cfg, node, scheme)
    ensures var tainted := exists t :: t in node.taints && t.key == Uninitialized;
            InitWrite(lib, cfg, node).Some? <==> tainted && exists id :: Applies(lib, cfg, node, id)
    ensures InitWrite(lib, cfg, node).Some? ==> InitWrite(lib, cfg, node).value.providerID == node.providerID
  {
    hide Matched, Schemes, AsksFor;
    var schemes := Schemes(Matched(lib, cfg, node), cfg.initialization);
    if node.providerID == "" {
      forall s ensures s !in schemes { SchemesExactly(lib, cfg, node, s); }
      assert schemes == {};
    }
    AnyMatched(lib, cfg, node);
    if t :| t in node.taints && t.key == Uninitialized {
      var i :| 0 <= i < |node.taints| && node.taints[i] == t;
      assert HasTaint(node.taints);
    }
  }

  /** Rules that disagree on the scheme of a Node without providerID leave it alone. */
  lemma DisagreementLeavesAlone(lib: Lib, cfg: Config, node: Node, a: string, b: string)
    requires node.providerID == "" && AsksFor(lib, cfg, node, a) && AsksFor(lib, cfg, node, b) && a != b
    ensures InitWrite(lib, cfg, node).None?
  {
    hide Matched, Schemes, AsksFor;
    SchemesExactly(lib, cfg, node, a);
    SchemesExactly(lib, cfg, node, b);
  }

  lemma ColonWithin(id: string, s: string, n: string, t: string, m: string)
    requires ReadsAs(id, s, n) && ReadsAs(id, t, m)
    ensures |s| < |t| ==> ':' in t
  {
    assert id[|s|] == id[|s|..|s| + 3][0] == ':';
    if |s| < |t| { assert t[|s|] == id[..|t|][|s|] == id[|s|]; }
  }

  /** Scheme and name can be read back, so different Nodes never get the same providerID under schemes without ":". */
  lemma ProviderIDIsUnique(id: string, s: string, n: string, t: string, m: string)
    requires ReadsAs(id, s, n) && ReadsAs(id, t, m) && ':' !in s && ':' !in t
    ensures s == t && n == m
  {
    ColonWithin(id, s, n, t, m);
    ColonWithin(id, t, m, s, n);
  }
}

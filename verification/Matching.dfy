/** Which rules apply to a Node (pkg/controller/match.go). */
module Matching {
  import opened Text
  import opened Kube

  /** A rule's verdict depends on the Node's labels, name and providerID only. */
  predicate Matches(lib: Lib, labels: map<string, string>, name: string, providerID: string, m: Match) {
    && (forall k | k in m.nodeSelector :: k in labels && labels[k] == m.nodeSelector[k])
    && (m.selectorTerms != [] ==> lib.selects(m.selectorTerms, labels, name) == Some(true))
    && (m.providerIDPattern != "" ==>
          var re := lib.compile(m.providerIDPattern);
          re.Some? && re.value(providerID))
  }

  /** A Match that sets only a pattern asks for a providerID the pattern accepts. */
  lemma MatchesPattern(lib: Lib, labels: map<string, string>, name: string, providerID: string, pattern: string)
    requires pattern != ""
    ensures Matches(lib, labels, name, providerID, Match(map[], [], pattern)) <==>
            exists accepts :: lib.compile(pattern) == Some(accepts) && accepts(providerID)
  {
    if lib.compile(pattern).Some? {
      assert lib.compile(pattern) == Some(lib.compile(pattern).value);
    }
  }

  /** One that sets only terms asks for a Node they select. */
  lemma MatchesTerms(lib: Lib, labels: map<string, string>, name: string, providerID: string, terms: seq<string>)
    requires terms != []
    ensures Matches(lib, labels, name, providerID, Match(map[], terms, "")) <==>
            lib.selects(terms, labels, name) == Some(true)
  {
  }

  /** One that sets only a nodeSelector asks for its pairs among the labels. */
  lemma MatchesSelector(lib: Lib, labels: map<string, string>, name: string, providerID: string,
                        selector: map<string, string>)
    ensures Matches(lib, labels, name, providerID, Match(selector, [], "")) <==> selector.Items <= labels.Items
  {
    if selector.Items <= labels.Items {
      forall k | k in selector ensures k in labels && labels[k] == selector[k] {
        assert (k, selector[k]) in selector.Items;
      }
    }
  }

  /** Every constraint that is set must hold; one that is not set always does. */
  lemma MatchesEach(lib: Lib, labels: map<string, string>, name: string, providerID: string, m: Match)
    ensures Matches(lib, labels, name, providerID, m) <==>
            && Matches(lib, labels, name, providerID, Match(m.nodeSelector, [], ""))
            && Matches(lib, labels, name, providerID, Match(map[], m.selectorTerms, ""))
            && Matches(lib, labels, name, providerID, Match(map[], [], m.providerIDPattern))
    ensures Matches(lib, labels, name, providerID, Match(map[], [], ""))
  {
  }

  ghost function MatchingSet(lib: Lib, labels: map<string, string>, name: string, providerID: string,
                             rules: map<string, Match>): set<string> {
    set id | id in rules && Matches(lib, labels, name, providerID, rules[id])
  }

  /** The matching rules' IDs, in order. */
  ghost function MatchingIDs(lib: Lib, labels: map<string, string>, name: string, providerID: string,
                             rules: map<string, Match>): (ids: seq<string>)
    ensures Sorted(ids) && Distinct(ids)
    ensures forall id :: id in ids <==> id in rules && Matches(lib, labels, name, providerID, rules[id])
  {
    var ids := SortedOf(MatchingSet(lib, labels, name, providerID, rules));
    ListsElems(ids, MatchingSet(lib, labels, name, providerID, rules));
    ListsDistinct(ids, MatchingSet(lib, labels, name, providerID, rules));
    ids
  }

  /** A single ID needs no sorting. */
  lemma OneListed(id: string)
    ensures SortedOf({id}) == [id]
  {
    assert multiset({id}) == multiset([id]);
    SortedUnique(SortedOf({id}), [id]);
  }

  /** The process-wide cache of compiled patterns: it only ever saves work. */
  class PatternCache {
    var patterns: map<string, string -> bool>

    ghost predicate Valid(lib: Lib)
      reads this
    {
      forall p | p in patterns :: lib.compile(p) == Some(patterns[p])
    }

    constructor ()
      ensures patterns == map[]
    {
      patterns := map[];
    }

    method CompilePattern(lib: Lib, pattern: string) returns (re: Option<string -> bool>)
      requires Valid(lib)
      modifies this
      ensures Valid(lib)
      ensures re == lib.compile(pattern)
      ensures patterns.Keys == old(patterns.Keys) + (if re.Some? then {pattern} else {})
      ensures forall p | p in old(patterns) :: patterns[p] == old(patterns)[p]
    {
      if pattern in patterns {
        return Some(patterns[pattern]);
      }
      re := lib.compile(pattern);
      if re.None? {
        return;
      }
      patterns := patterns[pattern := re.value];
    }

    method Match(lib: Lib, node: Node, m: Match) returns (yes: bool)
      requires Valid(lib)
      modifies this
      ensures Valid(lib)
      ensures yes == Matches(lib, node.labels, node.name, node.providerID, m)
    {
      if exists k | k in m.nodeSelector :: k !in node.labels || node.labels[k] != m.nodeSelector[k] {
        return false;
      }
      if |m.selectorTerms| > 0 {
        var selected := lib.selects(m.selectorTerms, node.labels, node.name);
        if selected.None? {
          return false;
        }
        if !selected.value {
          return false;
        }
      }
      if m.providerIDPattern != "" {
        var re := CompilePattern(lib, m.providerIDPattern);
        if re.None? {
          return false;
        }
        if !re.value(node.providerID) {
          return false;
        }
      }
      return true;
    }

    /** Ranges over the rules in any order; the sort makes the result independent of it. */
    method MatchAll(lib: Lib, node: Node, rules: map<string, Match>) returns (ids: seq<string>)
      requires Valid(lib)
      modifies this
      ensures Valid(lib)
      ensures ids == MatchingIDs(lib, node.labels, node.name, node.providerID, rules)
    {
      ids := [];
      var todo := rules.Keys;
      ghost var found := MatchingSet(lib, node.labels, node.name, node.providerID, rules);
      ListsNothing(found, todo);
      while todo != {}
        invariant Valid(lib)
        invariant todo <= rules.Keys
        invariant Lists(ids, found - todo)
        decreases |todo|
      {
        var id :| id in todo;
        var yes := Match(lib, node, rules[id]);
        ListsStep(ids, found, todo, id);
        if yes {
          ids := ids + [id];
        }
        todo := todo - {id};
      }
      SortIsSortedOf(ids, found, todo);
      ids := Sort(ids);
    }
  }
}

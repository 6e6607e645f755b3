/** Resolving and applying the labels or annotations a Node's matching rules want
    (pkg/controller/metadata_controller.go), and reporting how the Node differs (pkg/controller/drift.go). */
module Values {
  import opened Text
  import opened Kube

  type Pairs = map<string, string>

  // ---- What the rules ask for

  /** Some rule sets k to v. */
  ghost predicate Asks(rules: seq<Pairs>, k: string, v: string) {
    exists i :: 0 <= i < |rules| && k in rules[i] && rules[i][k] == v
  }

  /** The rules that set k do not agree on its value. */
  ghost predicate Conflicts(rules: seq<Pairs>, k: string) {
    exists v, w :: Asks(rules, k, v) && Asks(rules, k, w) && v != w
  }

  ghost function KeysOf(rules: seq<Pairs>): (ks: set<string>)
    ensures forall k :: k in ks <==> exists i :: 0 <= i < |rules| && k in rules[i]
  {
    set i, k | 0 <= i < |rules| && k in rules[i] :: k
  }

  ghost function AskedValue(rules: seq<Pairs>, k: string): string {
    if v :| Asks(rules, k, v) then v else ""
  }

  /** The values the rules agree on; conflicting keys are left out. */
  ghost function Resolved(rules: seq<Pairs>): (m: Pairs) {
    map k | k in KeysOf(rules) && !Conflicts(rules, k) :: AskedValue(rules, k)
  }

  /** A key has a resolved value exactly when some rule sets it and every rule setting it agrees. */
  lemma ResolvedExactly(rules: seq<Pairs>, k: string, v: string)
    ensures k in Resolved(rules) && Resolved(rules)[k] == v
       <==> Asks(rules, k, v) && forall w :: Asks(rules, k, w) ==> w == v
  {
    if k in KeysOf(rules) {
      var i :| 0 <= i < |rules| && k in rules[i];
      assert Asks(rules, k, rules[i][k]);
    }
    if Asks(rules, k, v) {
      var i :| 0 <= i < |rules| && k in rules[i] && rules[i][k] == v;
      assert k in KeysOf(rules);
    }
  }

  /** The result only depends on what is asked, not on the order of the rules. */
  lemma ResolvedIgnoresOrder(rules: seq<Pairs>, others: seq<Pairs>)
    requires multiset(rules) == multiset(others)
    ensures Resolved(rules) == Resolved(others)
  {
    SameMultiset(rules, others);
    forall k, v ensures Asks(rules, k, v) <==> Asks(others, k, v) {
      AsksByMember(rules, k, v);
      AsksByMember(others, k, v);
    }
    forall k ensures k in Resolved(rules) <==> k in Resolved(others)
      ensures k in Resolved(rules) ==> Resolved(rules)[k] == Resolved(others)[k]
    {
      if k in Resolved(rules) {
        ResolvedExactly(rules, k, Resolved(rules)[k]);
        ResolvedExactly(others, k, Resolved(rules)[k]);
      }
      if k in Resolved(others) {
        ResolvedExactly(others, k, Resolved(others)[k]);
        ResolvedExactly(rules, k, Resolved(others)[k]);
      }
    }
  }

  lemma AsksByMember(rules: seq<Pairs>, k: string, v: string)
    ensures Asks(rules, k, v) <==> exists r :: r in rules && k in r && r[k] == v
  {
    if Asks(rules, k, v) {
      var i :| 0 <= i < |rules| && k in rules[i] && rules[i][k] == v;
      assert rules[i] in rules;
    }
  }

  /** More matching rules never settle a conflict. */
  lemma ConflictsPersist(rules: seq<Pairs>, more: seq<Pairs>, k: string)
    requires Conflicts(rules, k)
    requires forall r :: r in rules ==> r in more
    ensures Conflicts(more, k) && k !in Resolved(more)
  {
    var v, w :| Asks(rules, k, v) && Asks(rules, k, w) && v != w;
    AsksByMember(rules, k, v);
    AsksByMember(rules, k, w);
    AsksByMember(more, k, v);
    AsksByMember(more, k, w);
  }

  ghost predicate Has(m: Pairs, k: string, v: string) {
    k in m && m[k] == v
  }

  datatype Entry = Entry(rule: string, value: string)

  ghost function RulesFor(ids: seq<string>, rules: map<string, ValueRule>): (rs: seq<Pairs>)
    requires forall id :: id in ids ==> id in rules
    ensures |rs| == |ids| && forall i :: 0 <= i < |ids| ==> rs[i] == rules[ids[i]].values
  {
    seq(|ids|, i requires 0 <= i < |ids| => rules[ids[i]].values)
  }

  /** The entries under k list exactly what the rules before i, and the ranged-over part of rule i, ask for. */
  ghost predicate Collected(byKey: map<string, seq<Entry>>, asks: iset<(string, string)>) {
    && (forall k, v :: (k, v) in asks ==> k in byKey && exists j :: 0 <= j < |byKey[k]| && byKey[k][j].value == v)
    && (forall k :: k in byKey ==> byKey[k] != [])
    && (forall k, j :: k in byKey && 0 <= j < |byKey[k]| ==> (k, byKey[k][j].value) in asks)
  }

  ghost function AskedBefore(rules: seq<Pairs>, i: nat): iset<(string, string)>
    requires i <= |rules|
  {
    iset k, v | Asks(rules[..i], k, v) :: (k, v)
  }

  lemma AskedBeforeStep(rules: seq<Pairs>, i: nat)
    requires i < |rules|
    ensures AskedBefore(rules, i + 1) ==
            AskedBefore(rules, i) + iset k | k in rules[i] :: (k, rules[i][k])
  {
    forall k, v ensures Asks(rules[..i + 1], k, v) <==>
        Asks(rules[..i], k, v) || (k in rules[i] && rules[i][k] == v)
    {
      AsksByMember(rules[..i + 1], k, v);
      AsksByMember(rules[..i], k, v);
      assert rules[..i + 1] == rules[..i] + [rules[i]];
    }
    assert forall p :: p in AskedBefore(rules, i + 1) <==> Asks(rules[..i + 1], p.0, p.1);
    assert forall p :: p in AskedBefore(rules, i) <==> Asks(rules[..i], p.0, p.1);
  }

  method CollectRule(id: string, values: Pairs, byKey: map<string, seq<Entry>>, ghost asks: iset<(string, string)>)
    returns (out: map<string, seq<Entry>>)
    requires Collected(byKey, asks)
    ensures Collected(out, asks + iset k | k in values :: (k, values[k]))
  {
    out := byKey;
    var todo := values.Keys;
    while todo != {}
      invariant todo <= values.Keys
      invariant Collected(out, asks + iset k | k in values.Keys - todo :: (k, values[k]))
      decreases |todo|
    {
      var k :| k in todo;
      ghost var was, seen := out, asks + iset k' | k' in values.Keys - todo :: (k', values[k']);
      var entries := if k in out then out[k] else [];
      out := out[k := entries + [Entry(id, values[k])]];
      todo := todo - {k};
      ghost var now := asks + iset k' | k' in values.Keys - todo :: (k', values[k']);
      assert now == seen + iset{(k, values[k])};
      CollectedMore(was, seen, k, Entry(id, values[k]), entries, out);
    }
  }

  lemma CollectedMore(was: map<string, seq<Entry>>, seen: iset<(string, string)>, k: string, e: Entry,
                      entries: seq<Entry>, out: map<string, seq<Entry>>)
    requires Collected(was, seen)
    requires entries == if k in was then was[k] else []
    requires out == was[k := entries + [e]]
    ensures Collected(out, seen + iset{(k, e.value)})
  {
    var asks := seen + iset{(k, e.value)};
    forall k', v | (k', v) in asks
      ensures k' in out && exists j :: 0 <= j < |out[k']| && out[k'][j].value == v
    {
      if (k', v) in seen {
        var j :| 0 <= j < |was[k']| && was[k'][j].value == v;
        assert out[k'][j] == was[k'][j];
      } else {
        assert out[k][|entries|] == e;
      }
    }
  }

  /** resolveValues: groups the entries by key, then keeps the keys whose entries agree. Go ranges over maps
      in any order; so does this. */
  method ResolveValues(matched: seq<string>, rules: map<string, ValueRule>) returns (resolved: Pairs)
    requires forall id :: id in matched ==> id in rules
    ensures resolved == Resolved(RulesFor(matched, rules))
  {
    var byKey := CollectEntries(matched, rules);
    resolved := AgreeingValues(byKey);
    AgreeingIsResolved(byKey, RulesFor(matched, rules), resolved);
  }

  method CollectEntries(matched: seq<string>, rules: map<string, ValueRule>) returns (byKey: map<string, seq<Entry>>)
    requires forall id :: id in matched ==> id in rules
    ensures Collected(byKey, AskedBefore(RulesFor(matched, rules), |matched|))
  {
    ghost var rs := RulesFor(matched, rules);
    byKey := map[];
    for i := 0 to |matched|
      invariant Collected(byKey, AskedBefore(rs, i))
    {
      AskedBeforeStep(rs, i);
      byKey := CollectRule(matched[i], rules[matched[i]].values, byKey, AskedBefore(rs, i));
    }
  }

  lemma AgreeingIsResolved(byKey: map<string, seq<Entry>>, rs: seq<Pairs>, resolved: Pairs)
    requires Collected(byKey, AskedBefore(rs, |rs|))
    requires forall k, v :: Has(resolved, k, v) <==> k in byKey && Agreed(byKey[k], v)
    ensures resolved == Resolved(rs)
  {
    forall k, v ensures Has(resolved, k, v) <==> Has(Resolved(rs), k, v) {
      ResolvedExactly(rs, k, v);
      AgreedMeansAsked(byKey, rs, k, v);
    }
    SameLookups(resolved, Resolved(rs));
  }

  method AgreeingValues(byKey: map<string, seq<Entry>>) returns (resolved: Pairs)
    requires forall k :: k in byKey ==> byKey[k] != []
    ensures forall k, v :: Has(resolved, k, v) <==> k in byKey && Agreed(byKey[k], v)
  {
    resolved := map[];
    var todo := byKey.Keys;
    while todo != {}
      invariant todo <= byKey.Keys
      invariant resolved.Keys <= byKey.Keys - todo
      invariant forall k :: k in byKey.Keys - todo ==> (k in resolved <==> Agreed(byKey[k], byKey[k][0].value))
      invariant forall k :: k in resolved ==> resolved[k] == byKey[k][0].value
      decreases |todo|
    {
      var k :| k in todo;
      var conflicting := HasConflict(byKey[k]);
      if !conflicting {
        resolved := resolved[k := byKey[k][0].value];
      }
      todo := todo - {k};
    }
  }

  ghost predicate Agreed(entries: seq<Entry>, v: string) {
    entries != [] && forall j :: 0 <= j < |entries| ==> entries[j].value == v
  }

  method HasConflict(entries: seq<Entry>) returns (conflicting: bool)
    requires entries != []
    ensures conflicting ==> forall v :: !Agreed(entries, v)
    ensures !conflicting ==> forall v :: Agreed(entries, v) <==> v == entries[0].value
  {
    var value := entries[0].value;
    conflicting := false;
    for j := 1 to |entries|
      invariant !conflicting && forall i :: 0 <= i < j ==> entries[i].value == value
    {
      if entries[j].value != value {
        conflicting := true;
        break;
      }
    }
  }

  lemma AgreedMeansAsked(byKey: map<string, seq<Entry>>, rules: seq<Pairs>, k: string, v: string)
    requires Collected(byKey, AskedBefore(rules, |rules|))
    ensures k in byKey && Agreed(byKey[k], v) <==> Asks(rules, k, v) && forall w :: Asks(rules, k, w) ==> w == v
  {
    assert rules[..|rules|] == rules;
    assert forall w :: (k, w) in AskedBefore(rules, |rules|) <==> Asks(rules, k, w);
    if k in byKey && Agreed(byKey[k], v) {
      assert (k, byKey[k][0].value) in AskedBefore(rules, |rules|);
    }
  }

  lemma SameLookups(a: Pairs, b: Pairs)
    requires forall k, v :: Has(a, k, v) <==> Has(b, k, v)
    ensures a == b
  {
    forall k ensures k in a <==> k in b ensures k in a ==> a[k] == b[k] {
      if k in a { assert Has(a, k, a[k]); }
      if k in b { assert Has(b, k, b[k]); }
    }
  }

  // ---- Applying them

  /** Every desired value is already there. */
  ghost predicate Holds(existing: Pairs, desired: Pairs) {
    forall k :: k in desired ==> k in existing && existing[k] == desired[k]
  }

  /** applyOverwrite. */
  method ApplyOverwrite(existing: Pairs, desired: Pairs) returns (out: Pairs, changed: bool)
    ensures out == existing + desired
    ensures changed <==> out != existing
    ensures changed <==> !Holds(existing, desired)
  {
    HoldsMeansUnchanged(existing, desired);
    if |desired| == 0 {
      return existing, false;
    }
    changed := false;
    var todo := desired.Keys;
    while todo != {}
      invariant todo <= desired.Keys
      invariant !changed ==> forall k :: k in desired.Keys - todo ==> k in existing && existing[k] == desired[k]
      invariant changed ==> !Holds(existing, desired)
      decreases |todo|
    {
      var k :| k in todo;
      if k !in existing || existing[k] != desired[k] {
        changed := true;
        break;
      }
      todo := todo - {k};
    }
    if !changed {
      return existing, false;
    }
    out := map[];
    out := out + existing;
    out := out + desired;
  }

  lemma HoldsMeansUnchanged(existing: Pairs, desired: Pairs)
    ensures Holds(existing, desired) <==> existing + desired == existing
    ensures Holds(existing + desired, desired)
  {
    if existing + desired == existing {
      forall k | k in desired ensures k in existing && existing[k] == desired[k] {
        assert (existing + desired)[k] == desired[k];
      }
    }
  }

  // ---- Reporting the difference

  ghost function MissingKeys(existing: Pairs, desired: Pairs): set<string> {
    desired.Keys - existing.Keys
  }

  ghost function ChangedKeys(existing: Pairs, desired: Pairs): set<string> {
    set k | k in desired && k in existing && existing[k] != desired[k]
  }

  ghost function DriftOf(existing: Pairs, desired: Pairs): Drift {
    Drift(SortedOf(MissingKeys(existing, desired)), SortedOf(ChangedKeys(existing, desired)))
  }

  /** metadataDrift. */
  method MetadataDrift(existing: Pairs, desired: Pairs) returns (d: Drift)
    ensures d == DriftOf(existing, desired)
  {
    var missing: seq<string>, changed: seq<string> := [], [];
    ghost var m, c := MissingKeys(existing, desired), ChangedKeys(existing, desired);
    var todo := desired.Keys;
    ListsNothing(m, todo);
    ListsNothing(c, todo);
    while todo != {}
      invariant todo <= desired.Keys
      invariant Lists(missing, m - todo) && Lists(changed, c - todo)
      decreases |todo|
    {
      var k :| k in todo;
      ListsStep(missing, m, todo, k);
      ListsStep(changed, c, todo, k);
      if k !in existing {
        missing := missing + [k];
      } else if existing[k] != desired[k] {
        changed := changed + [k];
      }
      todo := todo - {k};
    }
    SortIsSortedOf(missing, m, todo);
    SortIsSortedOf(changed, c, todo);
    return Drift(Sort(missing), Sort(changed));
  }

  /** The report and the write agree: nothing is reported exactly when nothing would be written, no key is
      reported twice, and the write differs from the Node exactly at the reported keys. */
  lemma DriftAgreesWithWrite(existing: Pairs, desired: Pairs)
    ensures DriftOf(existing, desired) == Drift([], []) <==> existing + desired == existing
    ensures var d := DriftOf(existing, desired); forall k ::
              (k in d.missing <==> k !in existing && k in existing + desired) &&
              (k in d.changed <==> k in existing && (existing + desired)[k] != existing[k])
  {
    HoldsMeansUnchanged(existing, desired);
    NothingToReport(existing, desired);
    ReportedKeys(existing, desired);
  }

  /** Both lists are sorted and name no key twice. */
  lemma DriftIsSorted(existing: Pairs, desired: Pairs)
    ensures var d := DriftOf(existing, desired);
            Sorted(d.missing) && Sorted(d.changed) && Distinct(d.missing + d.changed)
  {
    hide DriftOf, MissingKeys, ChangedKeys;
    DriftDistinct(existing, desired);
    var d := DriftOf(existing, desired);
    DistinctConcat(d.missing, d.changed);
  }

  lemma DriftDistinct(existing: Pairs, desired: Pairs)
    ensures var d := DriftOf(existing, desired);
            Sorted(d.missing) && Sorted(d.changed) && Distinct(d.missing) && Distinct(d.changed)
    ensures var d := DriftOf(existing, desired); forall k :: k in d.missing ==> k !in d.changed
  {
    var d := DriftOf(existing, desired);
    ReportedKeys(existing, desired);
    ListsDistinct(d.missing, MissingKeys(existing, desired));
    ListsDistinct(d.changed, ChangedKeys(existing, desired));
  }

  lemma DistinctConcat(xs: seq<string>, ys: seq<string>)
    requires Distinct(xs) && Distinct(ys) && forall x :: x in xs ==> x !in ys
    ensures Distinct(xs + ys)
  {
    var both := xs + ys;
    forall i, j | 0 <= i < j < |both| ensures both[i] != both[j] {
      if i < |xs| <= j {
        assert both[i] in xs && both[j] in ys;
      }
    }
  }

  lemma ReportedKeys(existing: Pairs, desired: Pairs)
    ensures var d := DriftOf(existing, desired);
            (d.missing == [] <==> MissingKeys(existing, desired) == {}) &&
            (d.changed == [] <==> ChangedKeys(existing, desired) == {})
    ensures var d := DriftOf(existing, desired);
            forall k :: (k in d.missing <==> k in MissingKeys(existing, desired)) &&
                        (k in d.changed <==> k in ChangedKeys(existing, desired))
  {
    var d := DriftOf(existing, desired);
    ListsElems(d.missing, MissingKeys(existing, desired));
    ListsElems(d.changed, ChangedKeys(existing, desired));
  }

  lemma NothingToReport(existing: Pairs, desired: Pairs)
    ensures MissingKeys(existing, desired) == {} == ChangedKeys(existing, desired) <==> Holds(existing, desired)
  {
    if !Holds(existing, desired) {
      var k :| k in desired && (k !in existing || existing[k] != desired[k]);
      assert k in MissingKeys(existing, desired) || k in ChangedKeys(existing, desired);
    }
  }

  /** A single rule gets what it wants. */
  lemma OnlyRule(m: Pairs)
    ensures Resolved([m]) == m
  {
    forall k ensures k in Resolved([m]) <==> k in m
      ensures k in m ==> Resolved([m])[k] == m[k]
    {
      if k in m {
        assert [m][0] == m;
        assert Asks([m], k, m[k]);
        ResolvedExactly([m], k, m[k]);
      }
    }
  }
}

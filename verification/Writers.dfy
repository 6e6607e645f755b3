/** Who recently wrote a Node's values, from its managed fields (pkg/controller/drift.go). */
module Writers {
  import opened Text
  import opened Kube
  import opened Sorting

  function EntryTime(e: ManagedEntry): int {
    if e.time.None? then 0 else e.time.value
  }

  /** time.Time.Truncate(time.Second). */
  function TruncateToSecond(t: int): int {
    t - t % SECOND
  }

  predicate HasPath(fields: map<string, Fields>, path: seq<string>)
    decreases |path|
  {
    path == [] || (path[0] in fields && fields[path[0]].Object? && HasPath(fields[path[0]].members, path[1..]))
  }

  /** Rounded down to a whole second. */
  lemma RoundsDown(t: int, n: int)
    requires n * 1_000_000_000 <= t < (n + 1) * 1_000_000_000
    ensures TruncateToSecond(t) == n * 1_000_000_000
  {
    assert t - n * SECOND == t % SECOND by { Remainder(t, n); }
  }

  lemma Remainder(t: int, n: int)
    requires 0 <= t - n * SECOND < SECOND
    ensures t % SECOND == t - n * SECOND
  {
    assert (t / SECOND - n) * SECOND == t - n * SECOND - t % SECOND;
    assert -1 < t / SECOND - n < 1;
  }

  /** A path of two leads through an object to an object. */
  lemma OwnsUnder(fields: map<string, Fields>, a: string, b: string)
    ensures HasPath(fields, [a, b]) <==>
            && a in fields && fields[a].Object?
            && b in fields[a].members && fields[a].members[b].Object?
  {
    assert [a, b][1..] == [b] && [b][1..] == [];
    if a in fields && fields[a].Object? {
      var inner := fields[a].members;
      assert HasPath(inner, [b]) <==> b in inner && inner[b].Object? && HasPath(inner[b].members, []);
    }
  }

  predicate Qualifies(e: ManagedEntry, self: string, subresource: string, since: int, path: seq<string>) {
    && e.subresource == subresource
    && e.manager != self
    && EntryTime(e) >= TruncateToSecond(since)
    && e.fields.Parsed?
    && HasPath(e.fields.members, path)
  }

  function QualifiesFor(self: string, subresource: string, since: int, path: seq<string>): ManagedEntry -> bool {
    (e: ManagedEntry) => Qualifies(e, self, subresource, since, path)
  }

  function NewestFirst(): (ManagedEntry, ManagedEntry) -> int {
    (a: ManagedEntry, b: ManagedEntry) =>
      if EntryTime(b) < EntryTime(a) then -1 else if EntryTime(b) > EntryTime(a) then 1 else 0
  }

  function Managers(es: seq<ManagedEntry>): (ms: seq<string>)
    ensures |ms| == |es| && forall i :: 0 <= i < |es| ==> ms[i] == es[i].manager
  {
    seq(|es|, i requires 0 <= i < |es| => es[i].manager)
  }

  ghost function Qualifying(managed: seq<ManagedEntry>, self: string, subresource: string, since: int,
                            path: seq<string>): seq<ManagedEntry>
  {
    Filter(QualifiesFor(self, subresource, since, path), StableSort(NewestFirst(), managed))
  }

  ghost function Recent(managed: seq<ManagedEntry>, self: string, subresource: string, since: int,
                        path: seq<string>): seq<string>
  {
    Fresh(Managers(Qualifying(managed, self, subresource, since, path)), {})
  }

  lemma QualifyingMembers(managed: seq<ManagedEntry>, self: string, subresource: string, since: int,
                          path: seq<string>, e: ManagedEntry)
    ensures e in Qualifying(managed, self, subresource, since, path) <==>
            e in managed && Qualifies(e, self, subresource, since, path)
  {
    FilterMembers(QualifiesFor(self, subresource, since, path), StableSort(NewestFirst(), managed), e);
    SameMultiset(StableSort(NewestFirst(), managed), managed);
  }

  /** A manager is listed exactly when it has a qualifying entry, and only once. */
  lemma RecentExactly(managed: seq<ManagedEntry>, self: string, subresource: string, since: int, path: seq<string>)
    ensures var ws := Recent(managed, self, subresource, since, path);
            Distinct(ws) &&
            forall w :: w in ws <==>
              exists e :: e in managed && Qualifies(e, self, subresource, since, path) && e.manager == w
  {
    var q := Qualifying(managed, self, subresource, since, path);
    FreshElems(Managers(q), {});
    forall w ensures w in Fresh(Managers(q), {}) <==>
              exists e :: e in managed && Qualifies(e, self, subresource, since, path) && e.manager == w
    {
      assert w in Fresh(Managers(q), {}) <==> w in Elems(Fresh(Managers(q), {}));
      assert w in Managers(q) <==> w in Elems(Managers(q));
      if w in Managers(q) {
        var i :| 0 <= i < |q| && Managers(q)[i] == w;
        QualifyingMembers(managed, self, subresource, since, path, q[i]);
      }
      if e :| e in managed && Qualifies(e, self, subresource, since, path) && e.manager == w {
        QualifyingMembers(managed, self, subresource, since, path, e);
        var i :| 0 <= i < |q| && q[i] == e;
        assert Managers(q)[i] == w;
      }
    }
  }

  /** The listing is by newest qualifying entry: whoever comes first has an entry at least as new as every
      qualifying entry of whoever comes later. */
  lemma RecentByNewest(managed: seq<ManagedEntry>, self: string, subresource: string, since: int, path: seq<string>,
                       i: nat, j: nat, late: ManagedEntry)
    requires i < j < |Recent(managed, self, subresource, since, path)|
    requires late in managed && Qualifies(late, self, subresource, since, path)
    requires late.manager == Recent(managed, self, subresource, since, path)[j]
    ensures exists e :: e in managed && Qualifies(e, self, subresource, since, path)
                        && e.manager == Recent(managed, self, subresource, since, path)[i]
                        && (if e.time.Some? then e.time.value else 0) >=
                           (if late.time.Some? then late.time.value else 0)
  {
    var q := Qualifying(managed, self, subresource, since, path);
    var ms := Managers(q);
    var p, k := FreshKeepsOrder(ms, {}, i, j);
    QualifyingMembers(managed, self, subresource, since, path, late);
    QualifyingMembers(managed, self, subresource, since, path, q[p]);
    var l :| 0 <= l < |q| && q[l] == late;
    assert ms[l] == late.manager;
    NotBefore(ms, k, l);
    var age := (e: ManagedEntry) => -EntryTime(e);
    StableSortSorted(NewestFirst(), age, managed);
    FilterSorted(age, QualifiesFor(self, subresource, since, path), StableSort(NewestFirst(), managed));
    assert age(q[p]) <= age(q[l]);
  }

  lemma NotBefore(xs: seq<string>, k: nat, l: nat)
    requires k <= |xs| && l < |xs|
    ensures l >= k || xs[l] in xs[..k]
  {
    if l < k { assert xs[..k][l] == xs[l]; }
  }

  method HasFieldPath(fields: map<string, Fields>, path: seq<string>) returns (yes: bool)
    ensures yes <==> HasPath(fields, path)
  {
    var at := fields;
    for i := 0 to |path|
      invariant HasPath(fields, path) <==> HasPath(at, path[i..])
    {
      if path[i] !in at || !at[path[i]].Object? {
        return false;
      }
      at := at[path[i]].members;
      assert path[i..][1..] == path[i + 1..];
    }
    return true;
  }

  method RecentWriters(node: Node, self: string, subresource: string, since: int, path: seq<string>)
    returns (writers: seq<string>)
    ensures writers == Recent(node.managed, self, subresource, since, path)
  {
    var from := TruncateToSecond(since);
    var entries := StableSort(NewestFirst(), node.managed);
    ghost var keep := QualifiesFor(self, subresource, since, path);
    writers := [];
    for i := 0 to |entries|
      invariant writers == Fresh(Managers(Filter(keep, entries[..i])), {})
    {
      var e := entries[i];
      ghost var before := Filter(keep, entries[..i]);
      assert entries[..i + 1] == entries[..i] + [e];
      FilterConcat(keep, entries[..i], [e]);
      FilterOne(keep, e);
      assert before + [] == before;
      FreshElems(Managers(before), {});
      if e.subresource != subresource || e.manager == self || e.fields.NoFields? || EntryTime(e) < from {
        continue;
      }
      if e.manager in writers {
        assert e.manager in Elems(writers);
        if keep(e) { WritersStep(before, e); }
        continue;
      }
      if e.fields.Malformed? {
        continue;
      }
      var owns := HasFieldPath(e.fields.members, path);
      if !owns {
        continue;
      }
      assert e.manager !in Elems(writers);
      WritersStep(before, e);
      writers := writers + [e.manager];
    }
    assert entries[..|entries|] == entries;
  }

  lemma FilterOne(keep: ManagedEntry -> bool, e: ManagedEntry)
    ensures Filter(keep, [e]) == if keep(e) then [e] else []
  {
    assert [e][1..] == [];
  }

  lemma WritersStep(before: seq<ManagedEntry>, e: ManagedEntry)
    ensures Fresh(Managers(before + [e]), {}) ==
            Fresh(Managers(before), {}) + (if e.manager in Elems(Managers(before)) then [] else [e.manager])
  {
    assert Managers(before + [e]) == Managers(before) + [e.manager];
    FreshStep(Managers(before), e.manager);
  }
}

/** Identifying a set of desired values by one string (pkg/controller/drift.go, externalip_controller.go). */
module Fingerprints {
  import opened Text
  import opened Values

  const NUL: char := '\0'

  function Part(k: string, v: string): string {
    k + ['='] + v
  }

  /** strings.Join with a NUL between the parts. */
  function Join(parts: seq<string>): string {
    if parts == [] then ""
    else if |parts| == 1 then parts[0]
    else parts[0] + [NUL] + Join(parts[1..])
  }

  ghost function PartsOf(m: Pairs, order: seq<string>): (parts: seq<string>)
    requires forall k :: k in order ==> k in m
    ensures |parts| == |order|
  {
    if order == [] then [] else [Part(order[0], m[order[0]])] + PartsOf(m, order[1..])
  }

  ghost function Listing(m: Pairs): (ks: seq<string>)
    ensures Sorted(ks) && Lists(ks, m.Keys) && forall k :: k in ks <==> k in m
  {
    ListsElems(SortedOf(m.Keys), m.Keys);
    SortedOf(m.Keys)
  }

  /** The parts in sorted order, joined. */
  ghost function Fingerprint(m: Pairs): string {
    Join(Sort(PartsOf(m, Listing(m))))
  }

  lemma {:induction false} PartsAppend(m: Pairs, order: seq<string>, k: string)
    requires k in m && forall x :: x in order ==> x in m
    ensures PartsOf(m, order + [k]) == PartsOf(m, order) + [Part(k, m[k])]
  {
    if order == [] {
      assert PartsOf(m, [k]) == [Part(k, m[k])] + PartsOf(m, [k][1..]);
    } else {
      assert (order + [k])[1..] == order[1..] + [k];
      PartsAppend(m, order[1..], k);
    }
  }

  /** Visiting the keys in another order permutes the parts. */
  lemma {:induction false} PartsPermute(m: Pairs, a: seq<string>, b: seq<string>)
    requires multiset(a) == multiset(b)
    requires forall k :: k in a ==> k in m
    requires forall k :: k in b ==> k in m
    ensures multiset(PartsOf(m, a)) == multiset(PartsOf(m, b))
  {
    SameMultiset(a, b);
    if a != [] {
      hide Part;
      assert a[0] in b;
      var i :| 0 <= i < |b| && b[i] == a[0];
      PartsSplit(m, b, i);
      RemoveAt(b, i);
      PartsHead(m, a);
      PartsPermute(m, a[1..], b[..i] + b[i + 1..]);
    }
  }

  lemma PartsHead(m: Pairs, a: seq<string>)
    requires a != [] && forall k :: k in a ==> k in m
    ensures multiset(PartsOf(m, a)) == multiset([Part(a[0], m[a[0]])]) + multiset(PartsOf(m, a[1..]))
    ensures multiset(a[1..]) == multiset(a) - multiset{a[0]}
  {
    hide Part;
    WithoutHead(a);
  }

  lemma RemoveAt(b: seq<string>, i: nat)
    requires i < |b|
    ensures multiset(b[..i] + b[i + 1..]) == multiset(b) - multiset{b[i]}
    ensures forall k :: k in b[..i] + b[i + 1..] ==> k in b
  {
    assert b == b[..i] + [b[i]] + b[i + 1..];
  }

  lemma {:induction false} PartsSplit(m: Pairs, b: seq<string>, i: nat)
    requires i < |b| && forall k :: k in b ==> k in m
    ensures multiset(PartsOf(m, b)) == multiset([Part(b[i], m[b[i]])]) + multiset(PartsOf(m, b[..i] + b[i + 1..]))
  {
    hide Part, PartsOf;
    var rest := b[..i] + b[i + 1..];
    PartsHead(m, b);
    if i == 0 {
      assert rest == b[1..];
    } else {
      var tail := b[1..];
      PartsSplit(m, tail, i - 1);
      assert rest == [b[0]] + (tail[..i - 1] + tail[i..]);
      assert rest[1..] == tail[..i - 1] + tail[i..];
      PartsHead(m, rest);
    }
  }

  /** fingerprint: ranging over the map in any order gives the same string. */
  method ComputeFingerprint(desired: Pairs) returns (fp: string)
    ensures fp == Fingerprint(desired)
  {
    var parts: seq<string> := [];
    ghost var order: seq<string> := [];
    var todo := desired.Keys;
    ListsNothing(desired.Keys, todo);
    while todo != {}
      invariant todo <= desired.Keys
      invariant Lists(order, desired.Keys - todo)
      invariant forall k :: k in order ==> k in desired
      invariant parts == PartsOf(desired, order)
      decreases |todo|
    {
      var k :| k in todo;
      ListsStep(order, desired.Keys, todo, k);
      PartsAppend(desired, order, k);
      parts := parts + [Part(k, desired[k])];
      order := order + [k];
      todo := todo - {k};
    }
    assert desired.Keys - todo == desired.Keys;
    PartsPermute(desired, order, Listing(desired));
    SortedUnique(Sort(parts), Sort(PartsOf(desired, Listing(desired))));
    return Join(Sort(parts));
  }

  // ---- Reading it back

  function IndexFrom(s: string, c: char, from: nat): (i: nat)
    requires from <= |s|
    ensures from <= i <= |s|
    ensures i < |s| ==> s[i] == c
    ensures forall j :: from <= j < i ==> s[j] != c
    decreases |s| - from
  {
    if from == |s| || s[from] == c then from else IndexFrom(s, c, from + 1)
  }

  /** Cuts after the first NUL that follows a part's first "=". */
  function Unjoin(s: string): seq<string>
    decreases |s|
  {
    if s == "" then []
    else
      var cut := IndexFrom(s, NUL, IndexFrom(s, '=', 0));
      if cut == |s| then [s] else [s[..cut]] + Unjoin(s[cut + 1..])
  }

  /** A part whose value holds no NUL. */
  predicate Readable(p: string) {
    var i := IndexFrom(p, '=', 0);
    i < |p| && IndexFrom(p, NUL, i) == |p|
  }

  lemma {:induction false} UnjoinJoin(parts: seq<string>)
    requires forall p :: p in parts ==> Readable(p)
    ensures Unjoin(Join(parts)) == parts
  {
    if parts != [] {
      var p := parts[0];
      assert Readable(p);
      assert parts == [p] + parts[1..];
      if |parts| > 1 {
        UnjoinStep(p, Join(parts[1..]));
        forall q | q in parts[1..] ensures Readable(q) {
          assert q in parts;
        }
        UnjoinJoin(parts[1..]);
      }
    }
  }

  lemma UnjoinStep(p: string, rest: string)
    requires Readable(p)
    ensures Unjoin(p + [NUL] + rest) == [p] + Unjoin(rest)
  {
    var s, e := p + [NUL] + rest, IndexFrom(p, '=', 0);
    FirstIndex(s, '=', 0, e);
    FirstIndex(s, NUL, e, |p|);
    assert s[..|p|] == p && s[|p| + 1..] == rest;
  }

  lemma FirstIndex(s: string, c: char, from: nat, i: nat)
    requires from <= i < |s| && s[i] == c && forall j :: from <= j < i ==> s[j] != c
    ensures IndexFrom(s, c, from) == i
  {
    var found := IndexFrom(s, c, from);
    assert !(found < i) && !(i < found);
  }

  lemma PartMembers(m: Pairs, p: string)
    ensures p in Sort(PartsOf(m, Listing(m))) <==> exists k :: k in m && p == Part(k, m[k])
  {
    PartOfMember(m, Listing(m), p);
    SameMultiset(Sort(PartsOf(m, Listing(m))), PartsOf(m, Listing(m)));
  }

  lemma {:induction false} PartOfMember(m: Pairs, order: seq<string>, p: string)
    requires forall k :: k in order ==> k in m
    ensures p in PartsOf(m, order) <==> exists k :: k in order && p == Part(k, m[k])
  {
    if order != [] {
      PartOfMember(m, order[1..], p);
      assert order == [order[0]] + order[1..];
    }
  }

  /** Keys as Kubernetes allows them (no "=") and values without NUL. */
  predicate Clean(m: Pairs) {
    forall k :: k in m ==> '=' !in k && NUL !in m[k]
  }

  lemma PartKey(k: string, v: string)
    requires '=' !in k
    ensures IndexFrom(Part(k, v), '=', 0) == |k| && Part(k, v)[..|k|] == k && Part(k, v)[|k| + 1..] == v
  {
    FirstIndex(Part(k, v), '=', 0, |k|);
  }

  lemma CleanIsReadable(k: string, v: string)
    requires NUL !in v && ('=' !in k || NUL !in k)
    ensures Readable(Part(k, v))
  {
    var p := Part(k, v);
    assert p[|k|] == '=';
    if '=' !in k { PartKey(k, v); }
    var i := IndexFrom(p, '=', 0);
    assert i <= |k|;
    forall j | i <= j < |p| ensures p[j] != NUL {
      if j < |k| {
        assert p[j] == k[j] && k[j] in k;
      } else if j > |k| {
        assert p[j] == v[j - |k| - 1] && v[j - |k| - 1] in v;
      }
    }
  }

  ghost predicate AllReadable(m: Pairs) {
    forall k :: k in m ==> Readable(Part(k, m[k]))
  }

  /** Every part of a is a part of b. */
  ghost predicate PartsWithin(a: Pairs, b: Pairs) {
    forall k :: k in a ==> exists l :: l in b && Part(k, a[k]) == Part(l, b[l])
  }

  lemma SortedPartsReadable(m: Pairs)
    requires AllReadable(m)
    ensures forall p :: p in Sort(PartsOf(m, Listing(m))) ==> Readable(p)
  {
    forall p | p in Sort(PartsOf(m, Listing(m))) ensures Readable(p) { PartMembers(m, p); }
  }

  /** Equal fingerprints of readable maps have the same parts. */
  lemma SameParts(a: Pairs, b: Pairs)
    requires AllReadable(a) && AllReadable(b) && Fingerprint(a) == Fingerprint(b)
    ensures PartsWithin(a, b)
  {
    SortedPartsReadable(a);
    SortedPartsReadable(b);
    UnjoinJoin(Sort(PartsOf(a, Listing(a))));
    UnjoinJoin(Sort(PartsOf(b, Listing(b))));
    forall k | k in a ensures exists l :: l in b && Part(k, a[k]) == Part(l, b[l]) {
      PartMembers(a, Part(k, a[k]));
      PartMembers(b, Part(k, a[k]));
    }
  }

  /** The fingerprint tells clean maps apart. */
  lemma FingerprintIdentifies(a: Pairs, b: Pairs)
    requires Clean(a) && Clean(b)
    ensures Fingerprint(a) == Fingerprint(b) <==> a == b
  {
    if Fingerprint(a) == Fingerprint(b) {
      CleanIncluded(a, b);
      CleanIncluded(b, a);
      SameMap(a, b);
    }
  }

  lemma SameMap(a: Pairs, b: Pairs)
    requires forall k :: k in a ==> k in b && a[k] == b[k]
    requires forall k :: k in b ==> k in a && a[k] == b[k]
    ensures a == b
  {
  }

  lemma CleanIncluded(a: Pairs, b: Pairs)
    requires Clean(a) && Clean(b) && Fingerprint(a) == Fingerprint(b)
    ensures forall k :: k in a ==> k in b && a[k] == b[k]
  {
    CleanAllReadable(a);
    CleanAllReadable(b);
    SameParts(a, b);
    CleanPartsIncluded(a, b);
  }

  lemma CleanAllReadable(m: Pairs)
    requires Clean(m)
    ensures AllReadable(m)
  {
    forall k | k in m ensures Readable(Part(k, m[k])) { CleanIsReadable(k, m[k]); }
  }

  lemma CleanPartsIncluded(a: Pairs, b: Pairs)
    requires Clean(a) && Clean(b) && PartsWithin(a, b)
    ensures forall k :: k in a ==> k in b && a[k] == b[k]
  {
    forall k | k in a ensures k in b && a[k] == b[k] {
      var l :| l in b && Part(k, a[k]) == Part(l, b[l]);
      PartKey(k, a[k]);
      PartKey(l, b[l]);
    }
  }

  /** Only the empty map has the empty fingerprint, which the flap detector reads as "nothing applied". */
  lemma EmptyFingerprint(m: Pairs)
    ensures Fingerprint(m) == "" <==> m == map[]
  {
    var parts := Sort(PartsOf(m, Listing(m)));
    if m == map[] {
      ListsElems(Listing(m), {});
    } else {
      var k :| k in m;
      PartMembers(m, Part(k, m[k]));
      PartMembers(m, parts[0]);
      assert |parts[0]| > 0;
    }
  }

  /** Neither restriction can be dropped: every key with an "=" has a map it collides with. */
  lemma KeyCollides(k: string, l: string, v: string)
    ensures Fingerprint(map[k + ['='] + l := v]) == Fingerprint(map[k := l + ['='] + v])
  {
    hide Fingerprint;
    SingleFingerprint(k + ['='] + l, v);
    SingleFingerprint(k, l + ['='] + v);
    assert Part(k + ['='] + l, v) == Part(k, l + ['='] + v);
  }

  /** So does every value in which a NUL is followed by what could be the next entry: another key, "=" and a value, not
      before this one in the order of entries. */
  lemma ValueCollides(k: string, v: string, l: string, w: string)
    requires k != l && Le(Part(k, v), Part(l, w))
    ensures Fingerprint(map[k := v + [NUL] + l + ['='] + w]) == Fingerprint(map[k := v, l := w])
  {
    hide Fingerprint;
    SingleFingerprint(k, v + [NUL] + l + ['='] + w);
    DoubleFingerprint(k, v, l, w);
    PartsMeet(k, v, l, w);
  }

  lemma PartsMeet(k: string, v: string, l: string, w: string)
    ensures Part(k, v + [NUL] + l + ['='] + w) == Part(k, v) + [NUL] + Part(l, w)
  {
    var e: string, n: string := ['='], [NUL];
    calc {
      k + e + (v + n + l + e + w);
      { assert v + n + l + e + w == v + (n + (l + e + w)); }
      k + e + (v + (n + (l + e + w)));
      (k + e + v) + (n + (l + e + w));
      k + e + v + n + (l + e + w);
    }
  }

  lemma DoubleFingerprint(k: string, v: string, l: string, w: string)
    requires k != l && Le(Part(k, v), Part(l, w))
    ensures Fingerprint(map[k := v, l := w]) == Part(k, v) + [NUL] + Part(l, w)
  {
    hide Part, Sort, Listing, PartsOf, Join, Le;
    var m, p, q := map[k := v, l := w], Part(k, v), Part(l, w);
    assert m[k] == v && m[l] == w;
    DoubleListing(m, k, l);
    PartsPermute(m, Listing(m), [k, l]);
    DoubleParts(m, k, l);
    DoubleSorted(PartsOf(m, Listing(m)), p, q);
    JoinTwo(p, q);
  }

  lemma DoubleListing(m: Pairs, k: string, l: string)
    requires m.Keys == {k, l} && k != l
    ensures multiset(Listing(m)) == multiset([k, l])
  {
    assert multiset([k, l]) == multiset({k, l});
  }

  lemma DoubleSorted(parts: seq<string>, p: string, q: string)
    requires multiset(parts) == multiset([p, q]) && Le(p, q)
    ensures Sort(parts) == [p, q]
  {
    TwoSorted(p, q);
    hide Sort, Le, Sorted;
    SortedUnique([p, q], Sort(parts));
  }

  lemma TwoSorted(p: string, q: string)
    requires Le(p, q)
    ensures Sorted([p, q])
  {
  }

  lemma DoubleParts(m: Pairs, k: string, l: string)
    requires k in m && l in m
    ensures PartsOf(m, [k, l]) == [Part(k, m[k]), Part(l, m[l])]
  {
    PartsAppend(m, [], k);
    PartsAppend(m, [k], l);
    assert [] + [k] == [k] && [k] + [l] == [k, l];
  }

  lemma JoinTwo(p: string, q: string)
    ensures Join([p, q]) == p + [NUL] + q
  {
    assert [p, q][1..] == [q];
  }

  lemma SingleFingerprint(k: string, v: string)
    ensures Fingerprint(map[k := v]) == Part(k, v)
  {
    var m := map[k := v];
    assert m.Keys == {k};
    assert multiset([k]) == multiset({k});
    SortedUnique([k], Listing(m));
    assert PartsOf(m, [k]) == [Part(k, v)] + PartsOf(m, [k][1..]);
    assert PartsOf(m, [k]) == [Part(k, v)];
    SortedUnique([Part(k, v)], Sort([Part(k, v)]));
  }

  // ---- Sets of IPs

  ghost function IPSet(ips: seq<string>): Pairs {
    map ip | ip in ips :: "true"
  }

  ghost function IPFingerprint(ips: seq<string>): string {
    Fingerprint(IPSet(ips))
  }

  /** externalIPFingerprint: every member of the set prints as "ip=true". */
  method ComputeIPFingerprint(ips: seq<string>) returns (fp: string)
    ensures fp == IPFingerprint(ips)
  {
    var members: Pairs := map[];
    for i := 0 to |ips|
      invariant members == IPSet(ips[..i])
    {
      members := members[ips[i] := "true"];
      assert ips[..i + 1] == ips[..i] + [ips[i]];
    }
    assert ips[..|ips|] == ips;
    fp := ComputeFingerprint(members);
  }

  /** Order and duplicates do not matter; for addresses without NUL nothing else is lost. */
  lemma IPFingerprintIdentifies(a: seq<string>, b: seq<string>)
    ensures (forall ip :: ip in a <==> ip in b) ==> IPFingerprint(a) == IPFingerprint(b)
    ensures (forall ip :: ip in a || ip in b ==> NUL !in ip) && IPFingerprint(a) == IPFingerprint(b) ==>
              forall ip :: ip in a <==> ip in b
  {
    if forall ip :: ip in a <==> ip in b {
      assert IPSet(a) == IPSet(b);
    }
    if (forall ip :: ip in a || ip in b ==> NUL !in ip) && IPFingerprint(a) == IPFingerprint(b) {
      IPsReadable(a);
      IPsReadable(b);
      SameParts(IPSet(a), IPSet(b));
      SameParts(IPSet(b), IPSet(a));
      IPsIncluded(a, b);
      IPsIncluded(b, a);
    }
  }

  lemma IPsReadable(a: seq<string>)
    requires forall ip :: ip in a ==> NUL !in ip
    ensures AllReadable(IPSet(a))
  {
    forall ip | ip in IPSet(a) ensures Readable(Part(ip, IPSet(a)[ip])) { CleanIsReadable(ip, "true"); }
  }

  lemma IPsIncluded(a: seq<string>, b: seq<string>)
    requires PartsWithin(IPSet(a), IPSet(b))
    ensures forall ip :: ip in a ==> ip in b
  {
    forall ip | ip in a ensures ip in b {
      assert ip in IPSet(a);
      var l :| l in IPSet(b) && Part(ip, IPSet(a)[ip]) == Part(l, IPSet(b)[l]);
      SamePartSameKey(ip, l, "true");
    }
  }

  lemma SamePartSameKey(k: string, l: string, v: string)
    requires Part(k, v) == Part(l, v)
    ensures k == l
  {
    assert |Part(k, v)| == |k| + 1 + |v| && |Part(l, v)| == |l| + 1 + |v|;
    assert k == Part(k, v)[..|k|] && l == Part(l, v)[..|l|];
  }

  /** NUL-freeness is needed for addresses too: one with "=true" and a NUL inside collides with the two around them, if
      they come in that order. */
  lemma IPFingerprintCollides(a: string, b: string)
    requires a != b && Le(Part(a, "true"), Part(b, "true"))
    ensures IPFingerprint([Part(a, "true") + [NUL] + b]) == IPFingerprint([a, b])
  {
    FlagCollides(a, b, "true");
    IPSetOfOne(Part(a, "true") + [NUL] + b);
    IPSetOfTwo(a, b);
  }

  lemma IPSetOfOne(a: string)
    ensures IPSet([a]) == map[a := "true"]
  {
  }

  lemma IPSetOfTwo(a: string, b: string)
    ensures IPSet([a, b]) == map[a := "true", b := "true"]
  {
  }

  lemma FlagCollides(a: string, b: string, t: string)
    requires a != b && Le(Part(a, t), Part(b, t))
    ensures Fingerprint(map[Part(a, t) + [NUL] + b := t]) == Fingerprint(map[a := t, b := t])
  {
    hide Fingerprint;
    SingleFingerprint(Part(a, t) + [NUL] + b, t);
    DoubleFingerprint(a, t, b, t);
    FlagPartsMeet(Part(a, t), b, t);
  }

  lemma FlagPartsMeet(p: string, b: string, t: string)
    ensures Part(p + [NUL] + b, t) == p + [NUL] + Part(b, t)
  {
  }

  /** For example. */
  lemma FingerprintOfTwo()
    ensures Fingerprint(map["role" := "edge", "arch" := "arm"]) == "arch=arm\0role=edge"
    ensures IPFingerprint(["192.0.2.1"]) == "192.0.2.1=true"
  {
    hide Fingerprint;
    assert Le(Part("arch", "arm"), Part("role", "edge"));
    DoubleFingerprint("arch", "arm", "role", "edge");
    assert map["role" := "edge", "arch" := "arm"] == map["arch" := "arm", "role" := "edge"];
    IPSetOfOne("192.0.2.1");
    SingleFingerprint("192.0.2.1", "true");
    assert Part("arch", "arm") + [NUL] + Part("role", "edge") == "arch=arm\0role=edge";
    assert Part("192.0.2.1", "true") == "192.0.2.1=true";
  }
}

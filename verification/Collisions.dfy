/** Which maps and which sets of addresses share their fingerprint with others (pkg/controller/drift.go,
    externalip_controller.go): exactly when the detector can take one for another. */
module Collisions {
  import opened Text
  import opened Values
  import opened Fingerprints

  // ---- The entries of a map, sorted

  ghost function Entries(m: Pairs): seq<string> {
    Sort(PartsOf(m, Listing(m)))
  }

  /** No two keys print alike. */
  ghost predicate Injective(m: Pairs) {
    forall k, l :: k in m && l in m && Part(k, m[k]) == Part(l, m[l]) ==> k == l
  }

  lemma {:induction false} PartAt(m: Pairs, order: seq<string>, i: nat)
    requires (forall k :: k in order ==> k in m) && i < |order|
    ensures PartsOf(m, order)[i] == Part(order[i], m[order[i]])
    decreases |order|
  {
    if i > 0 { PartAt(m, order[1..], i - 1); }
  }

  lemma PartsDistinct(m: Pairs, order: seq<string>)
    requires Injective(m) && Distinct(order) && forall k :: k in order ==> k in m
    ensures Distinct(PartsOf(m, order))
  {
    hide Part, PartsOf;
    var parts := PartsOf(m, order);
    forall i, j | 0 <= i < j < |parts| ensures parts[i] != parts[j] {
      PartAt(m, order, i);
      PartAt(m, order, j);
      assert order[i] in m && order[j] in m;
    }
  }

  lemma PermutedDistinct(xs: seq<string>, ys: seq<string>)
    requires Distinct(xs) && multiset(ys) == multiset(xs)
    ensures Distinct(ys)
  {
    forall i, j | 0 <= i < j < |ys| ensures ys[i] != ys[j] {
      RepeatCount(ys, i, j);
      DistinctCount(xs, ys[i]);
    }
  }

  lemma EntryCount(m: Pairs)
    ensures |Entries(m)| == |m|
  {
    SameMultiset(Entries(m), PartsOf(m, Listing(m)));
    assert |multiset(Listing(m))| == |multiset(m.Keys)|;
    assert |m.Keys| == |m|;
  }

  lemma EntriesDistinct(m: Pairs)
    requires Injective(m)
    ensures Distinct(Entries(m))
  {
    hide Part, Sort, PartsOf, Listing;
    ListsDistinct(Listing(m), m.Keys);
    PartsDistinct(m, Listing(m));
    PermutedDistinct(PartsOf(m, Listing(m)), Entries(m));
  }

  /** The first entry, and what follows it. */
  lemma FirstEntry(m: Pairs) returns (k: string)
    requires m != map[]
    ensures k in m && Entries(m) != [] && Entries(m)[0] == Part(k, m[k])
  {
    hide Part, Sort, PartsOf, Listing;
    EntryCount(m);
    NotEmpty(m);
    PartMembers(m, Entries(m)[0]);
    k :| k in m && Entries(m)[0] == Part(k, m[k]);
  }

  lemma NotEmpty(m: Pairs)
    ensures m != map[] ==> |m| > 0
  {
    if m != map[] {
      var k :| k in m;
      assert m.Keys != {} && |m.Keys| == |m|;
    }
  }

  lemma JoinRest(parts: seq<string>)
    requires |parts| >= 2
    ensures Join(parts) == parts[0] + [NUL] + Join(parts[1..])
  {
  }

  lemma JoinStarts(parts: seq<string>) returns (tail: string)
    requires parts != []
    ensures Join(parts) == parts[0] + tail
  {
    if |parts| == 1 {
      tail := "";
    } else {
      tail := [NUL] + Join(parts[1..]);
      assert parts[0] + tail == parts[0] + [NUL] + Join(parts[1..]);
    }
  }

  /** Two entries of different keys come first, in order; rest is what follows the first. */
  lemma TwoFirst(m: Pairs) returns (k: string, l: string, rest: string, tail: string)
    requires |m| >= 2 && Injective(m)
    ensures k in m && l in m && k != l && Le(Part(k, m[k]), Part(l, m[l])) && Part(k, m[k]) != Part(l, m[l])
    ensures |Entries(m)| >= 2 && rest == Join(Entries(m)[1..]) == Part(l, m[l]) + tail
    ensures Fingerprint(m) == Part(k, m[k]) + [NUL] + rest
  {
    hide Part, Sort, PartsOf, Listing, Le, Join;
    var ps := Entries(m);
    EntryCount(m);
    EntriesDistinct(m);
    k := FirstEntry(m);
    PartMembers(m, ps[1]);
    l :| l in m && ps[1] == Part(l, m[l]);
    tail := JoinStarts(ps[1..]);
    rest := Join(ps[1..]);
    JoinRest(ps);
  }

  lemma {:induction false} LeExtends(a: string, b: string, t: string)
    requires Le(a, b)
    ensures Le(a, b + t)
  {
    if a != [] && b != [] && a[0] == b[0] {
      LeExtends(a[1..], b[1..], t);
      assert (b + t)[1..] == b[1..] + t;
    }
  }

  // ---- Among all maps

  /** Some other map has the same fingerprint. */
  ghost predicate Shared(m: Pairs) {
    exists o: Pairs :: o != m && Fingerprint(o) == Fingerprint(m)
  }

  ghost predicate HasEquals(m: Pairs) {
    exists k :: k in m && ('=' in k || '=' in m[k])
  }

  /** A map of two or more can be taken for a map of one. */
  lemma ManySharesWithOne(m: Pairs) returns (k: string, v: string)
    requires |m| >= 2
    ensures k in m && Fingerprint(map[k := v]) == Fingerprint(m) && map[k := v] != m
  {
    EntryCount(m);
    NotEmpty(m);
    k := FirstEntry(m);
    v := m[k] + [NUL] + Join(Entries(m)[1..]);
    JoinRest(Entries(m));
    PartExtends(k, m[k], [NUL], Join(Entries(m)[1..]));
    SingleFingerprint(k, v);
    OneKey(k, v);
  }

  lemma OneKey(k: string, v: string)
    ensures |map[k := v]| == 1
  {
    assert map[k := v].Keys == {k};
    assert |map[k := v]| == |map[k := v].Keys|;
  }

  lemma PartExtends(k: string, v: string, a: string, b: string)
    ensures Part(k, v + a + b) == Part(k, v) + a + b
  {
    assert k + ['='] + (v + a + b) == k + ['='] + v + a + b;
  }

  lemma TheOneKey(m: Pairs) returns (k: string)
    requires |m| == 1
    ensures k in m && m == map[k := m[k]]
  {
    assert |m.Keys| == 1;
    k :| k in m;
    assert |m.Keys - {k}| == 0;
    assert m.Keys == {k} + (m.Keys - {k});
  }

  lemma EqualsInKey(k: string, v: string)
    requires '=' in k
    ensures Shared(map[k := v])
  {
    hide Fingerprint;
    var i :| 0 <= i < |k| && k[i] == '=';
    assert k == k[..i] + ['='] + k[i + 1..];
    KeyCollides(k[..i], k[i + 1..], v);
    Differ(k[..i], k[i + 1..] + ['='] + v, k, v);
  }

  lemma EqualsInValue(k: string, v: string)
    requires '=' in v
    ensures Shared(map[k := v])
  {
    hide Fingerprint;
    var i :| 0 <= i < |v| && v[i] == '=';
    assert v == v[..i] + ['='] + v[i + 1..];
    KeyCollides(k, v[..i], v[i + 1..]);
    Differ(k + ['='] + v[..i], v[i + 1..], k, v);
  }

  lemma Differ(k: string, v: string, l: string, w: string)
    requires |k| != |l|
    ensures map[k := v] != map[l := w]
  {
    assert k in map[k := v] && k !in map[l := w];
  }

  lemma NoFurtherEquals(k: string, v: string, i: nat)
    requires '=' !in k && '=' !in v && i < |Part(k, v)|
    ensures Part(k, v)[i] == '=' ==> i == |k|
  {
    if i < |k| {
      assert Part(k, v)[i] == k[i] && k[i] in k;
    } else if i > |k| {
      assert Part(k, v)[i] == v[i - |k| - 1] && v[i - |k| - 1] in v;
    }
  }

  /** An entry whose only "=" ends its key is nobody else's fingerprint. */
  lemma OnlyEquals(k: string, v: string, o: Pairs)
    requires '=' !in k && '=' !in v && Fingerprint(o) == Part(k, v)
    ensures o == map[k := v]
  {
    EmptyFingerprint(o);
    NotEmpty(o);
    EntryCount(o);
    var s := Part(k, v);
    var l := FirstEntry(o);
    forall i | 0 <= i < |s| ensures s[i] == '=' ==> i == |k| { NoFurtherEquals(k, v, i); }
    if |o| >= 2 {
      SecondEquals(o, l, s);
    } else {
      var only := TheOneKey(o);
      SingleFingerprint(only, o[only]);
      assert s[|only|] == '=';
      assert only == s[..|only|] && o[only] == s[|only| + 1..] && k == s[..|k|] && v == s[|k| + 1..];
    }
  }

  lemma SecondEquals(o: Pairs, l: string, s: string)
    requires |o| >= 2 && l in o && Entries(o) != [] && Entries(o)[0] == Part(l, o[l]) && Fingerprint(o) == s
    ensures exists i, j :: 0 <= i < j < |s| && s[i] == '=' && s[j] == '='
  {
    hide Sort, PartsOf, Listing;
    EntryCount(o);
    var ps := Entries(o);
    PartMembers(o, ps[1]);
    var second :| second in o && ps[1] == Part(second, o[second]);
    JoinRest(ps);
    var tail := JoinStarts(ps[1..]);
    assert s == ps[0] + [NUL] + (ps[1] + tail);
    assert s[|l|] == '=' && s[|ps[0]| + 1 + |second|] == '=';
  }

  /** A fingerprint is a map's own exactly when the map is empty, or has a single entry without a further "=". */
  lemma SharedExactly(m: Pairs)
    ensures Shared(m) <==> |m| >= 2 || HasEquals(m)
  {
    hide Fingerprint;
    if |m| >= 2 {
      var k, v := ManySharesWithOne(m);
    } else if |m| == 1 {
      var k := TheOneKey(m);
      if '=' in k {
        EqualsInKey(k, m[k]);
      } else if '=' in m[k] {
        EqualsInValue(k, m[k]);
      } else {
        SingleFingerprint(k, m[k]);
        forall o: Pairs | Fingerprint(o) == Fingerprint(m) ensures o == m { OnlyEquals(k, m[k], o); }
      }
    } else {
      NotEmpty(m);
      EmptyFingerprint(m);
      forall o: Pairs | Fingerprint(o) == Fingerprint(m) ensures o == m { EmptyFingerprint(o); }
    }
  }

  // ---- Among maps with keys as Kubernetes allows them

  ghost predicate PlainKeys(m: Pairs) {
    forall k :: k in m ==> '=' !in k
  }

  ghost predicate SharedPlainly(m: Pairs) {
    exists o: Pairs :: PlainKeys(o) && o != m && Fingerprint(o) == Fingerprint(m)
  }

  /** m's one value reads like x and a further entry, not before m's own. */
  ghost predicate ReadsLike(m: Pairs, k: string, x: string, l: string, w: string) {
    m == map[k := x + [NUL] + l + ['='] + w] && '=' !in l && l != k && Le(Part(k, x), Part(l, w))
  }

  lemma PlainIsInjective(m: Pairs)
    requires PlainKeys(m)
    ensures Injective(m)
  {
    forall k, l | k in m && l in m && Part(k, m[k]) == Part(l, m[l]) ensures k == l {
      PartKey(k, m[k]);
      PartKey(l, m[l]);
    }
  }

  lemma ReadsLikeShared(m: Pairs, k: string, x: string, l: string, w: string)
    requires PlainKeys(m) && ReadsLike(m, k, x, l, w)
    ensures SharedPlainly(m)
  {
    hide Fingerprint, Le;
    ValueCollides(k, x, l, w);
    var o := map[k := x, l := w];
    assert k in m && l in o && l !in m;
    assert PlainKeys(o);
  }

  /** The only maps that share a one-entry map's fingerprint are the ones its value reads like. */
  lemma OneSharedReadsLike(m: Pairs, k: string, o: Pairs)
    requires PlainKeys(m) && PlainKeys(o) && k in m && m == map[k := m[k]]
    requires o != m && Fingerprint(o) == Fingerprint(m)
    ensures exists x, l, w :: ReadsLike(m, k, x, l, w)
  {
    hide Le;
    SingleFingerprint(k, m[k]);
    PartKey(k, m[k]);
    EmptyFingerprint(o);
    NotEmpty(o);
    if |o| == 1 {
      var l := TheOneKey(o);
      SingleFingerprint(l, o[l]);
      PartKey(l, o[l]);
      assert false;
    }
    PlainIsInjective(o);
    var k', l, rest, tail := TwoFirst(o);
    PartExtends(k', o[k'], [NUL], rest);
    PartKey(k', o[k'] + [NUL] + rest);
    PartKey(l, o[l]);
    LeExtends(Part(k', o[k']), Part(l, o[l]), tail);
    Regroup(o[k'], l, o[l], tail);
    assert Part(l, o[l]) + tail == Part(l, o[l] + tail);
    assert ReadsLike(m, k, o[k'], l, o[l] + tail);
  }

  lemma Regroup(x: string, l: string, w: string, tail: string)
    ensures x + [NUL] + (Part(l, w) + tail) == x + [NUL] + l + ['='] + (w + tail)
    ensures Part(l, w) + tail == Part(l, w + tail)
  {
    assert l + ['='] + w + tail == l + ['='] + (w + tail);
  }

  /** With keys as Kubernetes allows them: a fingerprint is shared exactly by maps of two or more, and by maps of one
      whose value reads like a value, a NUL and a further entry. */
  lemma SharedPlainlyExactly(m: Pairs)
    requires PlainKeys(m)
    ensures SharedPlainly(m) <==> |m| >= 2 || exists k, x, l, w :: ReadsLike(m, k, x, l, w)
  {
    hide Fingerprint, ReadsLike;
    if |m| >= 2 {
      var k, v := ManySharesWithOne(m);
      assert PlainKeys(map[k := v]);
    } else if k, x, l, w :| ReadsLike(m, k, x, l, w) {
      ReadsLikeShared(m, k, x, l, w);
    } else if o: Pairs :| PlainKeys(o) && o != m && Fingerprint(o) == Fingerprint(m) {
      EmptyFingerprint(m);
      EmptyFingerprint(o);
      NotEmpty(m);
      var k := TheOneKey(m);
      OneSharedReadsLike(m, k, o);
    }
  }

  // ---- Sets of addresses

  ghost predicate SameSet(a: seq<string>, b: seq<string>) {
    forall ip :: ip in a <==> ip in b
  }

  ghost predicate IPsShared(ips: seq<string>) {
    exists o: seq<string> :: !SameSet(o, ips) && IPFingerprint(o) == IPFingerprint(ips)
  }

  /** The one address of ips reads like two, in order. */
  ghost predicate ReadsLikeTwo(ips: seq<string>, a: string, b: string) {
    SameSet(ips, [Part(a, "true") + [NUL] + b]) && a != b && Le(Part(a, "true"), Part(b, "true"))
  }

  lemma IPSetInjective(ips: seq<string>)
    ensures Injective(IPSet(ips))
  {
    forall k, l | k in IPSet(ips) && l in IPSet(ips) && Part(k, "true") == Part(l, "true") ensures k == l {
      SamePartSameKey(k, l, "true");
    }
  }

  lemma SameSetSameMap(a: seq<string>, b: seq<string>)
    ensures IPSet(a) == IPSet(b) <==> SameSet(a, b)
  {
    if IPSet(a) == IPSet(b) {
      forall ip ensures ip in a <==> ip in b {
        assert ip in a <==> ip in IPSet(a);
        assert ip in b <==> ip in IPSet(b);
      }
    }
  }

  /** Entries of addresses, joined, look like the entry of a single address. */
  lemma {:induction false} JoinFlags(parts: seq<string>) returns (a: string)
    requires parts != [] && forall p :: p in parts ==> exists ip: string :: p == Part(ip, "true")
    ensures Join(parts) == Part(a, "true")
    decreases |parts|
  {
    assert parts[0] in parts;
    if |parts| == 1 {
      a :| parts[0] == Part(a, "true");
    } else {
      forall p | p in parts[1..] ensures exists ip: string :: p == Part(ip, "true") { assert p in parts; }
      var rest := JoinFlags(parts[1..]);
      a := parts[0] + [NUL] + rest;
      JoinRest(parts);
      FlagPartsMeet(parts[0], rest, "true");
    }
  }

  lemma EntriesAreFlags(ips: seq<string>, p: string)
    requires p in Entries(IPSet(ips))
    ensures exists ip: string :: p == Part(ip, "true")
  {
    PartMembers(IPSet(ips), p);
  }

  /** A set of two or more can be taken for a single address. */
  lemma ManyShareWithOneIP(ips: seq<string>)
    requires |IPSet(ips)| >= 2
    ensures IPsShared(ips)
  {
    hide Part, Join, Sort, PartsOf, Listing;
    var ps := Entries(IPSet(ips));
    EntryCount(IPSet(ips));
    forall p | p in ps ensures exists ip: string :: p == Part(ip, "true") { EntriesAreFlags(ips, p); }
    var a := JoinFlags(ps);
    IPSetOfOne(a);
    SingleFingerprint(a, "true");
    OneKey(a, "true");
    SameSetSameMap([a], ips);
    assert IPFingerprint([a]) == IPFingerprint(ips);
  }

  lemma OneIPReadsLikeTwo(ips: seq<string>, a: string, o: seq<string>)
    requires SameSet(ips, [a]) && !SameSet(o, ips) && IPFingerprint(o) == IPFingerprint(ips)
    ensures exists b, c :: ReadsLikeTwo(ips, b, c)
  {
    hide Part, Join, Sort, PartsOf, Listing, Le, Fingerprint;
    var os := IPSet(o);
    SameSetSameMap(ips, [a]);
    SameSetSameMap(o, ips);
    IPSetOfOne(a);
    SingleFingerprint(a, "true");
    EmptyFingerprint(os);
    EmptyFingerprint(map[a := "true"]);
    NotEmpty(os);
    if |os| == 1 {
      var b := TheOneKey(os);
      SingleFingerprint(b, "true");
      SamePartSameKey(a, b, "true");
      assert false;
    }
    IPSetInjective(o);
    var b, l, rest, tail := TwoFirst(os);
    var c := RestIsFlag(o);
    LeExtends(Part(b, "true"), Part(l, "true"), tail);
    if b == c {
      LeReflexive(Part(l, "true"));
      LeExtends(Part(l, "true"), Part(l, "true"), tail);
      LeAntisymmetric(Part(b, "true"), Part(l, "true"));
      assert false;
    }
    FlagPartsMeet(Part(b, "true"), c, "true");
    SamePartSameKey(a, Part(b, "true") + [NUL] + c, "true");
    assert ReadsLikeTwo(ips, b, c);
  }

  lemma RestIsFlag(o: seq<string>) returns (c: string)
    requires |Entries(IPSet(o))| >= 2
    ensures Join(Entries(IPSet(o))[1..]) == Part(c, "true")
  {
    hide Part, Join, Sort, PartsOf, Listing;
    var ps := Entries(IPSet(o));
    forall p | p in ps[1..] ensures exists ip: string :: p == Part(ip, "true") {
      assert p in ps;
      EntriesAreFlags(o, p);
    }
    c := JoinFlags(ps[1..]);
  }

  lemma TwoIPsShared(ips: seq<string>, a: string, b: string)
    requires ReadsLikeTwo(ips, a, b)
    ensures IPsShared(ips)
  {
    hide Le;
    IPFingerprintCollides(a, b);
    var x := Part(a, "true") + [NUL] + b;
    SameSetSameMap(ips, [x]);
    assert |x| > |a| && |x| > |b|;
    assert a in [a, b] && a != x;
    assert !SameSet([a, b], ips);
    assert IPFingerprint([a, b]) == IPFingerprint(ips);
  }

  /** A fingerprint of addresses is shared exactly by sets of two or more, and by single addresses that read like
      two. */
  lemma IPsSharedExactly(ips: seq<string>)
    ensures IPsShared(ips) <==> |IPSet(ips)| >= 2 || exists a, b :: ReadsLikeTwo(ips, a, b)
  {
    hide ReadsLikeTwo, Fingerprint;
    if |IPSet(ips)| >= 2 {
      ManyShareWithOneIP(ips);
    } else if a, b :| ReadsLikeTwo(ips, a, b) {
      TwoIPsShared(ips, a, b);
    } else if o: seq<string> :| !SameSet(o, ips) && IPFingerprint(o) == IPFingerprint(ips) {
      SameSetSameMap(o, ips);
      EmptyFingerprint(IPSet(ips));
      EmptyFingerprint(IPSet(o));
      NotEmpty(IPSet(ips));
      var a := TheOneKey(IPSet(ips));
      IPSetOfOne(a);
      SameSetSameMap(ips, [a]);
      OneIPReadsLikeTwo(ips, a, o);
    }
  }
}

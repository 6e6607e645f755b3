/** The ExternalIP addresses a Node should have (pkg/controller/externalip_controller.go). */
module ExternalIPs {
  import opened Text
  import opened Kube
  import opened Sorting

  // ---- The intended result

  function Others(addresses: seq<Address>): seq<Address> {
    if addresses == [] then []
    else if addresses[0].kind == ExternalIP then Others(addresses[1..])
    else [addresses[0]] + Others(addresses[1..])
  }

  function Externals(addresses: seq<Address>): seq<string> {
    if addresses == [] then []
    else if addresses[0].kind == ExternalIP then [addresses[0].addr] + Externals(addresses[1..])
    else Externals(addresses[1..])
  }

  function AsExternal(ips: seq<string>): (out: seq<Address>)
    ensures |out| == |ips| && forall i :: 0 <= i < |ips| ==> out[i] == Address(ExternalIP, ips[i])
  {
    seq(|ips|, i requires 0 <= i < |ips| => Address(ExternalIP, ips[i]))
  }

  ghost function V6First(lib: Lib, xs: seq<string>): seq<string> {
    Filter(lib.isIPv6, xs) + Filter(NotIPv6(lib), xs)
  }

  function NotIPv6(lib: Lib): string -> bool {
    (x: string) => !lib.isIPv6(x)
  }

  ghost function Merged(lib: Lib, addresses: seq<Address>, ips: seq<string>): seq<Address> {
    if ips == [] then addresses
    else Others(addresses) + AsExternal(V6First(lib, Fresh(Externals(addresses) + ips, {})))
  }

  // ---- The stable partition

  function CompareBool(a: bool, b: bool): int {
    if a == b then 0 else if a then 1 else -1
  }

  function FamilyOrder(lib: Lib): (string, string) -> int {
    (a: string, b: string) => CompareBool(lib.isIPv6(b), lib.isIPv6(a))
  }

  /** Sorting with the source's comparison is the stable partition. */
  lemma {:induction false} FamilySort(lib: Lib, xs: seq<string>)
    ensures StableSort(FamilyOrder(lib), xs) == V6First(lib, xs)
  {
    if xs != [] {
      FamilySort(lib, xs[1..]);
      FamilyMembers(lib, xs[1..]);
      FamilyInsert(lib, xs[0], Filter(lib.isIPv6, xs[1..]), Filter(NotIPv6(lib), xs[1..]));
      FamilyStep(lib, xs);
    }
  }

  lemma FamilyMembers(lib: Lib, xs: seq<string>)
    ensures forall y :: y in Filter(lib.isIPv6, xs) ==> lib.isIPv6(y)
    ensures forall y :: y in Filter(NotIPv6(lib), xs) ==> !lib.isIPv6(y)
  {
    forall y ensures (y in Filter(lib.isIPv6, xs) ==> lib.isIPv6(y)) &&
                     (y in Filter(NotIPv6(lib), xs) ==> !lib.isIPv6(y))
    {
      FilterMembers(lib.isIPv6, xs, y);
      FilterMembers(NotIPv6(lib), xs, y);
    }
  }

  lemma FamilyStep(lib: Lib, xs: seq<string>)
    requires xs != []
    ensures var v6, v4 := Filter(lib.isIPv6, xs[1..]), Filter(NotIPv6(lib), xs[1..]);
            V6First(lib, xs) == if lib.isIPv6(xs[0]) then [xs[0]] + v6 + v4 else v6 + [xs[0]] + v4
  {
  }

  lemma {:induction false} FamilyInsert(lib: Lib, x: string, v6: seq<string>, v4: seq<string>)
    requires forall y :: y in v6 ==> lib.isIPv6(y)
    requires forall y :: y in v4 ==> !lib.isIPv6(y)
    ensures StableInsert(FamilyOrder(lib), x, v6 + v4) == if lib.isIPv6(x) then [x] + v6 + v4 else v6 + [x] + v4
  {
    if v6 == [] {
      assert v6 + v4 == v4;
      assert v4 != [] ==> v4[0] in v4;
      assert [x] + v6 + v4 == [x] + v4 == v6 + [x] + v4;
    } else {
      assert v6[0] in v6 && (v6 + v4)[1..] == v6[1..] + v4 && (v6 + v4)[0] == v6[0];
      if !lib.isIPv6(x) {
        forall y | y in v6[1..] ensures lib.isIPv6(y) { assert y in v6; }
        FamilyInsert(lib, x, v6[1..], v4);
        assert [v6[0]] + (v6[1..] + [x] + v4) == v6 + [x] + v4;
      } else {
        assert [x] + (v6 + v4) == [x] + v6 + v4;
      }
    }
  }

  lemma V6FirstElems(lib: Lib, xs: seq<string>)
    ensures forall x :: x in V6First(lib, xs) <==> x in xs
    ensures Elems(V6First(lib, xs)) == Elems(xs)
  {
    forall x ensures x in V6First(lib, xs) <==> x in xs {
      FilterMembers(lib.isIPv6, xs, x);
      FilterMembers(NotIPv6(lib), xs, x);
    }
  }

  lemma V6FirstDistinct(lib: Lib, xs: seq<string>)
    requires Distinct(xs)
    ensures Distinct(V6First(lib, xs))
  {
    FamilySort(lib, xs);
    DistinctLists(xs);
    assert multiset(V6First(lib, xs)) == multiset(Elems(xs));
    ListsDistinct(V6First(lib, xs), Elems(xs));
  }

  /** Partitioning a part beforehand makes no difference. */
  lemma V6FirstAgain(lib: Lib, xs: seq<string>, ys: seq<string>)
    ensures V6First(lib, V6First(lib, xs) + ys) == V6First(lib, xs + ys)
  {
    PartitionHalf(lib.isIPv6, NotIPv6(lib), xs, ys);
    PartitionHalf(NotIPv6(lib), lib.isIPv6, xs, ys);
  }

  lemma PartitionHalf(keep: string -> bool, drop: string -> bool, xs: seq<string>, ys: seq<string>)
    requires forall x :: keep(x) == !drop(x)
    ensures Filter(keep, Filter(keep, xs) + Filter(drop, xs) + ys) == Filter(keep, xs + ys)
    ensures Filter(keep, Filter(drop, xs) + Filter(keep, xs) + ys) == Filter(keep, xs + ys)
  {
    var a, b := Filter(keep, xs), Filter(drop, xs);
    forall x ensures (x in a ==> keep(x)) && (x in b ==> !keep(x)) {
      FilterMembers(keep, xs, x);
      FilterMembers(drop, xs, x);
    }
    FilterAll(keep, a);
    FilterNone(keep, b);
    FilterConcat(keep, a + b, ys);
    FilterConcat(keep, b + a, ys);
    FilterConcat(keep, a, b);
    FilterConcat(keep, b, a);
    FilterConcat(keep, xs, ys);
    assert a + [] == a && [] + a == a;
  }

  // ---- Merging

  lemma {:induction false} SplitConcat(a: seq<Address>, b: seq<Address>)
    ensures Others(a + b) == Others(a) + Others(b)
    ensures Externals(a + b) == Externals(a) + Externals(b)
  {
    if a == [] {
      assert a + b == b;
    } else {
      assert (a + b)[1..] == a[1..] + b;
      SplitConcat(a[1..], b);
    }
  }

  lemma {:induction false} SplitOthers(a: seq<Address>)
    ensures Others(Others(a)) == Others(a) && Externals(Others(a)) == []
  {
    if a != [] {
      SplitOthers(a[1..]);
      if a[0].kind != ExternalIP {
        assert Others(a) == [a[0]] + Others(a[1..]);
        SplitConcat([a[0]], Others(a[1..]));
        SplitOne(a[0]);
      }
    }
  }

  lemma {:induction false} SplitExternals(ips: seq<string>)
    ensures Others(AsExternal(ips)) == [] && Externals(AsExternal(ips)) == ips
  {
    if ips != [] {
      assert AsExternal(ips)[1..] == AsExternal(ips[1..]);
      SplitExternals(ips[1..]);
    }
  }

  /** What a merge leaves behind, seen through Others and Externals. */
  lemma MergedParts(lib: Lib, a: seq<Address>, ips: seq<string>)
    requires ips != []
    ensures Others(Merged(lib, a, ips)) == Others(a)
    ensures Externals(Merged(lib, a, ips)) == V6First(lib, Fresh(Externals(a) + ips, {}))
  {
    var block := V6First(lib, Fresh(Externals(a) + ips, {}));
    SplitConcat(Others(a), AsExternal(block));
    SplitOthers(a);
    SplitExternals(block);
    assert Others(a) + [] == Others(a) && [] + block == block;
  }

  /** Merging in two steps is merging at once, whichever list is empty. */
  lemma MergeIncremental(lib: Lib, a: seq<Address>, e1: seq<string>, e2: seq<string>)
    ensures Merged(lib, Merged(lib, a, e1), e2) == Merged(lib, a, e1 + e2)
  {
    if e1 == [] {
      assert e1 + e2 == e2;
    } else if e2 == [] {
      assert e1 + e2 == e1;
    } else {
      MergedParts(lib, a, e1);
      PartitionIncremental(lib, Externals(a) + e1, e2);
      assert Externals(a) + (e1 + e2) == Externals(a) + e1 + e2;
    }
  }

  lemma PartitionIncremental(lib: Lib, xs: seq<string>, ys: seq<string>)
    ensures V6First(lib, Fresh(V6First(lib, Fresh(xs, {})) + ys, {})) == V6First(lib, Fresh(xs + ys, {}))
  {
    var z := Fresh(xs, {});
    var p := V6First(lib, z);
    FreshElems(xs, {});
    V6FirstDistinct(lib, z);
    V6FirstElems(lib, z);
    assert Elems(p) == Elems(xs);
    FreshAfter(p, ys);
    FreshConcat(xs, ys, {});
    assert {} + Elems(xs) == Elems(xs);
    V6FirstAgain(lib, z, Fresh(ys, Elems(xs)));
  }

  lemma FreshAfter(p: seq<string>, ys: seq<string>)
    requires Distinct(p)
    ensures Fresh(p + ys, {}) == p + Fresh(ys, Elems(p))
  {
    FreshConcat(p, ys, {});
    FreshOfDistinct(p, {});
    assert {} + Elems(p) == Elems(p);
  }

  lemma MergeIdempotent(lib: Lib, a: seq<Address>, ips: seq<string>)
    ensures Merged(lib, Merged(lib, a, ips), ips) == Merged(lib, a, ips)
  {
    if ips != [] {
      MergeIncremental(lib, a, ips, ips);
      NothingFresh(Externals(a), ips);
    }
  }

  lemma NothingFresh(xs: seq<string>, ips: seq<string>)
    ensures Fresh(xs + (ips + ips), {}) == Fresh(xs + ips, {})
  {
    FreshConcat(xs + ips, ips, {});
    assert xs + (ips + ips) == xs + ips + ips;
    assert Elems(ips) <= {} + Elems(xs + ips);
    FreshOfSeen(ips, {} + Elems(xs + ips));
  }

  /** Nothing is lost, and nothing but the rules' addresses is added. */
  lemma MergeAddsOnly(lib: Lib, a: seq<Address>, ips: seq<string>)
    ensures forall x :: x in Merged(lib, a, ips) <==> x in a || (x.kind == ExternalIP && x.addr in ips)
  {
    if ips != [] {
      var xs := Externals(a) + ips;
      FreshElems(xs, {});
      V6FirstElems(lib, Fresh(xs, {}));
      var block := V6First(lib, Fresh(xs, {}));
      forall x ensures x in Merged(lib, a, ips) <==> x in a || (x.kind == ExternalIP && x.addr in ips) {
        SplitMembers(a, x);
        AsExternalMembers(block, x);
        assert x.addr in block <==> x.addr in Elems(Fresh(xs, {}));
        assert x.addr in Elems(xs) <==> x.addr in xs;
      }
    }
  }

  lemma {:induction false} SplitMembers(a: seq<Address>, x: Address)
    ensures x in Others(a) <==> x in a && x.kind != ExternalIP
    ensures x.addr in Externals(a) <==> Address(ExternalIP, x.addr) in a
  {
    if a != [] { SplitMembers(a[1..], x); }
  }

  lemma AsExternalMembers(ips: seq<string>, x: Address)
    ensures x in AsExternal(ips) <==> x.kind == ExternalIP && x.addr in ips
  {
    if x.kind == ExternalIP && x.addr in ips {
      var i :| 0 <= i < |ips| && ips[i] == x.addr;
      assert AsExternal(ips)[i] == x;
    }
  }

  /** An unchanged merge means no address is missing; one that changes although none is missing only reorders
      or drops repetitions. */
  lemma UnchangedMeansPresent(lib: Lib, a: seq<Address>, ips: seq<string>)
    ensures Merged(lib, a, ips) == a ==> MissingIPs(a, ips) == []
    ensures MissingIPs(a, ips) == [] ==> Elems(Merged(lib, a, ips)) == Elems(a)
  {
    MergeAddsOnly(lib, a, ips);
    NoneMissing(a, ips);
    if Merged(lib, a, ips) == a {
      forall ip | ip in ips ensures Address(ExternalIP, ip) in a {
        assert Address(ExternalIP, ip) in Merged(lib, a, ips);
      }
    }
    if MissingIPs(a, ips) == [] {
      forall x ensures x in Merged(lib, a, ips) <==> x in a {
        assert x.kind == ExternalIP ==> x == Address(ExternalIP, x.addr);
      }
    }
  }

  lemma NoneMissing(a: seq<Address>, ips: seq<string>)
    ensures MissingIPs(a, ips) == [] <==> forall ip :: ip in ips ==> Address(ExternalIP, ip) in a
  {
    FreshElems(ips, Elems(Externals(a)));
    ElemsEmpty(MissingIPs(a, ips));
    forall ip ensures ip in Elems(Externals(a)) <==> Address(ExternalIP, ip) in a {
      SplitMembers(a, Address(ExternalIP, ip));
    }
    if MissingIPs(a, ips) == [] {
      forall ip | ip in ips ensures Address(ExternalIP, ip) in a {
        assert ip !in Elems(ips) - Elems(Externals(a));
        assert ip in Elems(ips);
      }
    }
    if forall ip :: ip in ips ==> Address(ExternalIP, ip) in a {
      forall ip ensures ip !in Elems(ips) - Elems(Externals(a)) { }
    }
  }

  // ---- The code

  method MergeExternalIPs(lib: Lib, addresses: seq<Address>, externalIPs: seq<string>)
    returns (out: seq<Address>, changed: bool)
    ensures out == Merged(lib, addresses, externalIPs)
    ensures changed <==> out != addresses
  {
    if |externalIPs| == 0 {
      return addresses, false;
    }
    var others, merged, seen := SplitAddresses(addresses);
    merged := AddRuleIPs(merged, seen, externalIPs, Externals(addresses));
    FamilySort(lib, merged);
    merged := StableSort(FamilyOrder(lib), merged);

    out := AppendExternals(others, merged);
    var same := AddressesEqual(out, addresses);
    if same {
      return addresses, false;
    }
    return out, true;
  }

  method AppendExternals(others: seq<Address>, merged: seq<string>) returns (out: seq<Address>)
    ensures out == others + AsExternal(merged)
  {
    out := others;
    for i := 0 to |merged|
      invariant out == others + AsExternal(merged[..i])
    {
      out := out + [Address(ExternalIP, merged[i])];
      assert AsExternal(merged[..i + 1]) == AsExternal(merged[..i]) + [Address(ExternalIP, merged[i])];
    }
    assert merged[..|merged|] == merged;
  }

  /** The first loop: sets the other addresses aside and drops repeated external ones. */
  method SplitAddresses(addresses: seq<Address>)
    returns (others: seq<Address>, merged: seq<string>, seen: map<string, bool>)
    ensures others == Others(addresses)
    ensures merged == Fresh(Externals(addresses), {}) && seen.Keys == Elems(Externals(addresses))
  {
    others, merged, seen := [], [], map[];
    for i := 0 to |addresses|
      invariant others == Others(addresses[..i])
      invariant merged == Fresh(Externals(addresses[..i]), {})
      invariant seen.Keys == Elems(Externals(addresses[..i]))
    {
      hide Fresh;
      var addr := addresses[i];
      assert addresses[..i + 1] == addresses[..i] + [addr];
      SplitAppend(addresses[..i], addr);
      if addr.kind != ExternalIP {
        others := others + [addr];
        continue;
      }
      FreshStep(Externals(addresses[..i]), addr.addr);
      if addr.addr in seen {
        continue;
      }
      seen := seen[addr.addr := true];
      merged := merged + [addr.addr];
    }
    assert addresses[..|addresses|] == addresses;
  }

  /** The second loop: adds the rules' addresses not seen yet. */
  method AddRuleIPs(existing: seq<string>, seenBefore: map<string, bool>, externalIPs: seq<string>,
                    ghost before: seq<string>)
    returns (merged: seq<string>)
    requires existing == Fresh(before, {}) && seenBefore.Keys == Elems(before)
    ensures merged == Fresh(before + externalIPs, {})
  {
    var seen := seenBefore;
    merged := existing;
    assert before + externalIPs[..0] == before;
    for i := 0 to |externalIPs|
      invariant merged == Fresh(before + externalIPs[..i], {})
      invariant seen.Keys == Elems(before + externalIPs[..i])
    {
      var ip := externalIPs[i];
      assert before + externalIPs[..i + 1] == before + externalIPs[..i] + [ip];
      FreshStep(before + externalIPs[..i], ip);
      if ip in seen {
        continue;
      }
      seen := seen[ip := true];
      merged := merged + [ip];
    }
    assert externalIPs[..|externalIPs|] == externalIPs;
  }

  lemma SplitAppend(a: seq<Address>, addr: Address)
    ensures Others(a + [addr]) == if addr.kind != ExternalIP then Others(a) + [addr] else Others(a)
    ensures Externals(a + [addr]) == if addr.kind == ExternalIP then Externals(a) + [addr.addr] else Externals(a)
  {
    SplitConcat(a, [addr]);
    SplitOne(addr);
    assert Externals(a) + [] == Externals(a) && Others(a) + [] == Others(a);
  }

  lemma SplitOne(addr: Address)
    ensures Others([addr]) == if addr.kind != ExternalIP then [addr] else []
    ensures Externals([addr]) == if addr.kind == ExternalIP then [addr.addr] else []
  {
    assert [addr][1..] == [];
  }

  method AddressesEqual(a: seq<Address>, b: seq<Address>) returns (same: bool)
    ensures same <==> a == b
  {
    if |a| != |b| {
      return false;
    }
    for i := 0 to |a|
      invariant a[..i] == b[..i]
    {
      if a[i] != b[i] {
        return false;
      }
    }
    assert a == a[..|a|] == b[..|b|] == b;
    return true;
  }

  /** The rules' addresses the Node lacks, each once. */
  ghost function MissingIPs(addresses: seq<Address>, ips: seq<string>): seq<string> {
    Fresh(ips, Elems(Externals(addresses)))
  }

  method ExternalIPDrift(addresses: seq<Address>, externalIPs: seq<string>) returns (d: Drift)
    ensures d == Drift(MissingIPs(addresses, externalIPs), [])
  {
    var missing: seq<string> := [];
    ghost var present := Elems(Externals(addresses));
    for i := 0 to |externalIPs|
      invariant missing == Fresh(externalIPs[..i], present)
    {
      var ip := externalIPs[i];
      assert externalIPs[..i + 1] == externalIPs[..i] + [ip];
      FreshConcat(externalIPs[..i], [ip], present);
      FreshElems(externalIPs[..i], present);
      SplitMembers(addresses, Address(ExternalIP, ip));
      assert [ip][1..] == [];
      assert ip in missing <==> ip in Elems(missing);
      if ip !in missing && Address(ExternalIP, ip) !in addresses {
        missing := missing + [ip];
      }
    }
    assert externalIPs[..|externalIPs|] == externalIPs;
    return Drift(missing, []);
  }

  /** An address is reported missing exactly if a rule wants it and the Node lacks it as an ExternalIP; and once. */
  lemma MissingExactly(addresses: seq<Address>, ips: seq<string>, ip: string)
    ensures ip in MissingIPs(addresses, ips) <==> ip in ips && Address(ExternalIP, ip) !in addresses
    ensures Distinct(MissingIPs(addresses, ips))
  {
    FreshElems(ips, Elems(Externals(addresses)));
    SplitMembers(addresses, Address(ExternalIP, ip));
    assert ip in MissingIPs(addresses, ips) <==> ip in Elems(MissingIPs(addresses, ips));
  }

  /** If no addresses are wanted the list stays as it is, in whatever order. */
  lemma NothingWanted(lib: Lib, a: seq<Address>)
    ensures Merged(lib, a, []) == a
  {
  }

  /** In the merged list other addresses come before ExternalIPs, and IPv6 before the rest. */
  lemma MergedOrder(lib: Lib, a: seq<Address>, ips: seq<string>, i: nat, j: nat)
    requires ips != [] && i < j < |Merged(lib, a, ips)|
    ensures var m := Merged(lib, a, ips);
            && (m[j].kind != ExternalIP ==> m[i].kind != ExternalIP)
            && (m[i].kind == ExternalIP && lib.isIPv6(m[j].addr) ==> lib.isIPv6(m[i].addr))
  {
    var xs := Fresh(Externals(a) + ips, {});
    var v6, v4, others := Filter(lib.isIPv6, xs), Filter(NotIPv6(lib), xs), Others(a);
    FamilyMembers(lib, xs);
    var m := Merged(lib, a, ips);
    OthersKind(a);
    if j >= |others| {
      assert m[j] == Address(ExternalIP, (v6 + v4)[j - |others|]);
      if i >= |others| {
        assert m[i] == Address(ExternalIP, (v6 + v4)[i - |others|]);
        assert i - |others| < |v6| ==> v6[i - |others|] in v6;
        assert j - |others| >= |v6| ==> v4[j - |others| - |v6|] in v4;
      } else {
        assert m[i] == others[i] && others[i] in others;
      }
    } else {
      assert m[i] == others[i] && others[i] in others;
    }
  }

  lemma {:induction false} OthersKind(a: seq<Address>)
    ensures forall x :: x in Others(a) ==> x.kind != ExternalIP
  {
    if a != [] { OthersKind(a[1..]); }
  }
}

/** What slices.SortStableFunc leaves behind, for any comparison function; filters; first occurrences. */
module Sorting {
  import opened Text

  function StableInsert<T>(cmp: (T, T) -> int, x: T, ys: seq<T>): (zs: seq<T>)
    ensures multiset(zs) == multiset{x} + multiset(ys)
  {
    if ys == [] || cmp(x, ys[0]) <= 0 then [x] + ys
    else
      assert ys == [ys[0]] + ys[1..];
      [ys[0]] + StableInsert(cmp, x, ys[1..])
  }

  function StableSort<T>(cmp: (T, T) -> int, xs: seq<T>): (ys: seq<T>)
    ensures multiset(ys) == multiset(xs)
  {
    if xs == [] then []
    else
      assert xs == [xs[0]] + xs[1..];
      StableInsert(cmp, xs[0], StableSort(cmp, xs[1..]))
  }

  function Filter<T>(keep: T -> bool, xs: seq<T>): (ys: seq<T>) {
    if xs == [] then []
    else if keep(xs[0]) then [xs[0]] + Filter(keep, xs[1..])
    else Filter(keep, xs[1..])
  }

  lemma {:induction false} FilterMembers<T>(keep: T -> bool, xs: seq<T>, x: T)
    ensures x in Filter(keep, xs) <==> x in xs && keep(x)
  {
    if xs != [] { FilterMembers(keep, xs[1..], x); }
  }

  lemma {:induction false} FilterConcat<T>(keep: T -> bool, xs: seq<T>, ys: seq<T>)
    ensures Filter(keep, xs + ys) == Filter(keep, xs) + Filter(keep, ys)
  {
    if xs == [] {
      assert xs + ys == ys;
    } else {
      assert (xs + ys)[1..] == xs[1..] + ys;
      FilterConcat(keep, xs[1..], ys);
    }
  }

  lemma {:induction false} FilterAll<T>(keep: T -> bool, xs: seq<T>)
    requires forall x <- xs :: keep(x)
    ensures Filter(keep, xs) == xs
  {
    if xs != [] {
      assert xs[0] in xs;
      assert forall x <- xs[1..] :: x in xs;
      FilterAll(keep, xs[1..]);
    }
  }

  lemma {:induction false} FilterNone<T>(keep: T -> bool, xs: seq<T>)
    requires forall x <- xs :: !keep(x)
    ensures Filter(keep, xs) == []
  {
    if xs != [] {
      assert xs[0] in xs;
      assert forall x <- xs[1..] :: x in xs;
      FilterNone(keep, xs[1..]);
    }
  }

  // ---- Sortedness

  /** cmp compares by an integer rank. */
  ghost predicate Ranks<T(!new)>(cmp: (T, T) -> int, rank: T -> int) {
    forall x, y :: cmp(x, y) <= 0 <==> rank(x) <= rank(y)
  }

  ghost predicate SortedBy<T>(rank: T -> int, xs: seq<T>) {
    forall i, j :: 0 <= i < j < |xs| ==> rank(xs[i]) <= rank(xs[j])
  }

  lemma {:induction false} StableSortSorted<T(!new)>(cmp: (T, T) -> int, rank: T -> int, xs: seq<T>)
    requires Ranks(cmp, rank)
    ensures SortedBy(rank, StableSort(cmp, xs))
  {
    if xs != [] {
      StableSortSorted(cmp, rank, xs[1..]);
      InsertSorted(cmp, rank, xs[0], StableSort(cmp, xs[1..]));
    }
  }

  lemma {:induction false} InsertSorted<T(!new)>(cmp: (T, T) -> int, rank: T -> int, x: T, ys: seq<T>)
    requires Ranks(cmp, rank) && SortedBy(rank, ys)
    ensures SortedBy(rank, StableInsert(cmp, x, ys))
  {
    if ys != [] && cmp(x, ys[0]) > 0 {
      var rest := StableInsert(cmp, x, ys[1..]);
      InsertSorted(cmp, rank, x, ys[1..]);
      forall j | 0 <= j < |rest| ensures rank(ys[0]) <= rank(rest[j]) {
        assert rest[j] in multiset(rest);
        assert rest[j] == x || rest[j] in ys[1..];
      }
    } else if ys != [] {
      assert rank(x) <= rank(ys[0]);
    }
  }

  lemma {:induction false} FilterSorted<T>(rank: T -> int, keep: T -> bool, xs: seq<T>)
    requires SortedBy(rank, xs)
    ensures SortedBy(rank, Filter(keep, xs))
  {
    if xs != [] {
      FilterSorted(rank, keep, xs[1..]);
      var rest := Filter(keep, xs[1..]);
      forall j | 0 <= j < |rest| ensures rank(xs[0]) <= rank(rest[j]) {
        FilterMembers(keep, xs[1..], rest[j]);
        var i :| 0 <= i < |xs[1..]| && xs[1..][i] == rest[j];
        assert rank(xs[0]) <= rank(xs[i + 1]);
      }
    }
  }

  // ---- First occurrences

  /** The first occurrences, in order, of what is not in seen. */
  ghost function Fresh(xs: seq<string>, seen: set<string>): seq<string> {
    if xs == [] then []
    else if xs[0] in seen then Fresh(xs[1..], seen)
    else [xs[0]] + Fresh(xs[1..], seen + {xs[0]})
  }

  lemma {:induction false} FreshConcat(xs: seq<string>, ys: seq<string>, seen: set<string>)
    ensures Fresh(xs + ys, seen) == Fresh(xs, seen) + Fresh(ys, seen + Elems(xs))
  {
    if xs == [] {
      assert xs + ys == ys && seen + Elems(xs) == seen;
    } else {
      assert (xs + ys)[1..] == xs[1..] + ys;
      assert Elems(xs) == {xs[0]} + Elems(xs[1..]) by { assert xs == [xs[0]] + xs[1..]; }
      if xs[0] in seen {
        FreshConcat(xs[1..], ys, seen);
        assert seen + Elems(xs[1..]) == seen + Elems(xs);
      } else {
        FreshConcat(xs[1..], ys, seen + {xs[0]});
        assert seen + {xs[0]} + Elems(xs[1..]) == seen + Elems(xs);
      }
    }
  }

  lemma {:induction false} FreshElems(xs: seq<string>, seen: set<string>)
    ensures Elems(Fresh(xs, seen)) == Elems(xs) - seen
    ensures Distinct(Fresh(xs, seen))
  {
    if xs != [] {
      assert xs == [xs[0]] + xs[1..];
      ElemsCons(xs[0], xs[1..]);
      if xs[0] in seen {
        FreshElems(xs[1..], seen);
      } else {
        FreshElems(xs[1..], seen + {xs[0]});
        var rest := Fresh(xs[1..], seen + {xs[0]});
        ElemsCons(xs[0], rest);
        assert xs[0] !in Elems(rest);
        forall j | 0 <= j < |rest| ensures rest[j] != xs[0] { assert rest[j] in Elems(rest); }
      }
    }
  }

  lemma {:induction false} FreshOfDistinct(xs: seq<string>, seen: set<string>)
    requires Distinct(xs) && Elems(xs) !! seen
    ensures Fresh(xs, seen) == xs
  {
    if xs != [] {
      assert xs[0] in Elems(xs);
      forall x | x in Elems(xs[1..]) ensures x != xs[0] && x in Elems(xs) {
        var j :| 0 <= j < |xs[1..]| && xs[1..][j] == x;
        assert xs[j + 1] == x;
      }
      FreshOfDistinct(xs[1..], seen + {xs[0]});
    }
  }

  lemma {:induction false} FreshOfSeen(xs: seq<string>, seen: set<string>)
    requires Elems(xs) <= seen
    ensures Fresh(xs, seen) == []
  {
    FreshElems(xs, seen);
    ElemsEmpty(Fresh(xs, seen));
  }

  /** x first occurs in xs at q. */
  ghost predicate FirstIs(xs: seq<string>, q: nat, x: string) {
    q < |xs| && xs[q] == x && x !in xs[..q]
  }

  lemma FirstShifts(xs: seq<string>, q: nat, x: string)
    requires xs != [] && xs[0] != x && FirstIs(xs[1..], q, x)
    ensures FirstIs(xs, q + 1, x)
  {
    assert xs[..q + 1] == [xs[0]] + xs[1..][..q];
  }

  /** The entries of Fresh keep the order of their first occurrences. */
  lemma {:induction false} FreshKeepsOrder(xs: seq<string>, seen: set<string>, i: nat, j: nat)
    returns (p: nat, q: nat)
    requires i < j < |Fresh(xs, seen)|
    ensures p < q < |xs| && xs[p] == Fresh(xs, seen)[i] && FirstIs(xs, q, Fresh(xs, seen)[j])
  {
    var x := Fresh(xs, seen)[j];
    FreshElems(xs, seen);
    assert x in Elems(Fresh(xs, seen));
    if xs[0] in seen {
      p, q := FreshKeepsOrder(xs[1..], seen, i, j);
      FirstShifts(xs, q, x);
      p, q := p + 1, q + 1;
    } else {
      assert Fresh(xs, seen)[0] != x;
      if i > 0 {
        p, q := FreshKeepsOrder(xs[1..], seen + {xs[0]}, i - 1, j - 1);
        FirstShifts(xs, q, x);
        p, q := p + 1, q + 1;
      } else {
        FreshElems(xs[1..], seen + {xs[0]});
        assert Fresh(xs[1..], seen + {xs[0]})[j - 1] in Elems(Fresh(xs[1..], seen + {xs[0]}));
        q := FirstAt(xs[1..], x);
        FirstShifts(xs, q, x);
        p, q := 0, q + 1;
      }
    }
  }

  lemma {:induction false} FirstAt(xs: seq<string>, x: string) returns (q: nat)
    requires x in xs
    ensures FirstIs(xs, q, x)
  {
    if xs[0] == x {
      q := 0;
    } else {
      q := FirstAt(xs[1..], x);
      FirstShifts(xs, q, x);
      q := q + 1;
    }
  }

  lemma FreshStep(xs: seq<string>, x: string)
    ensures Fresh(xs + [x], {}) == Fresh(xs, {}) + (if x in Elems(xs) then [] else [x])
    ensures Elems(xs + [x]) == Elems(xs) + {x}
  {
    FreshConcat(xs, [x], {});
    assert {} + Elems(xs) == Elems(xs);
    assert [x][1..] == [];
    assert Fresh([x], Elems(xs)) == if x in Elems(xs) then [] else [x];
  }
}

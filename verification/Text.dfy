/** Options, Go's string order, and sorted lists of strings. */
module Text {

  datatype Option<+T> = None | Some(value: T)

  /** Go's lexicographic string order (over code points, which orders UTF-8 text like its bytes). */
  predicate Le(a: string, b: string) {
    a == [] || (b != [] && (a[0] < b[0] || (a[0] == b[0] && Le(a[1..], b[1..]))))
  }

  /** A prefix comes first; otherwise the first place where they differ decides. */
  lemma {:induction false} LeExactly(a: string, b: string)
    ensures Le(a, b) <==> a <= b || exists i :: 0 <= i < |a| && i < |b| && a[..i] == b[..i] && a[i] < b[i]
  {
    forall i | 0 <= i < |a| && i < |b| && a[..i] == b[..i] && a[i] < b[i] ensures a[0] <= b[0] {
      if i > 0 { assert a[0] == a[..i][0] && b[0] == b[..i][0]; }
    }
    if a != [] && b != [] && a[0] == b[0] {
      LeExactly(a[1..], b[1..]);
      if i :| 0 <= i < |a[1..]| && i < |b[1..]| && a[1..][..i] == b[1..][..i] && a[1..][i] < b[1..][i] {
        assert a[..i + 1] == [a[0]] + a[1..][..i] && b[..i + 1] == [b[0]] + b[1..][..i];
        assert a[i + 1] < b[i + 1];
      }
      if i :| 0 <= i < |a| && i < |b| && a[..i] == b[..i] && a[i] < b[i] {
        assert a[1..][..i - 1] == a[..i][1..] && b[1..][..i - 1] == b[..i][1..];
        assert a[1..][i - 1] < b[1..][i - 1];
      }
      assert a <= b <==> a[1..] <= b[1..] by {
        if a[1..] <= b[1..] { assert a == [a[0]] + a[1..] && b == [b[0]] + b[1..]; }
      }
    } else if a != [] && b != [] && a[0] < b[0] {
      assert a[..0] == b[..0];
    }
  }

  lemma {:induction false} LeReflexive(a: string)
    ensures Le(a, a)
  {
    if a != [] { LeReflexive(a[1..]); }
  }

  lemma {:induction false} LeAntisymmetric(a: string, b: string)
    requires Le(a, b) && Le(b, a)
    ensures a == b
  {
    if a != [] {
      LeAntisymmetric(a[1..], b[1..]);
      assert a == [a[0]] + a[1..] && b == [b[0]] + b[1..];
    }
  }

  lemma {:induction false} LeTransitive(a: string, b: string, c: string)
    requires Le(a, b) && Le(b, c)
    ensures Le(a, c)
  {
    if a != [] && a[0] == b[0] == c[0] { LeTransitive(a[1..], b[1..], c[1..]); }
  }

  lemma {:induction false} LeTotal(a: string, b: string)
    ensures Le(a, b) || Le(b, a)
  {
    if a != [] && b != [] && a[0] == b[0] { LeTotal(a[1..], b[1..]); }
  }

  ghost predicate Sorted(xs: seq<string>) {
    forall i, j :: 0 <= i < j < |xs| ==> Le(xs[i], xs[j])
  }

  ghost predicate Distinct<T>(xs: seq<T>) {
    forall i, j :: 0 <= i < j < |xs| ==> xs[i] != xs[j]
  }

  ghost function Elems<T>(xs: seq<T>): set<T> {
    set x | x in xs
  }

  function Insert(x: string, xs: seq<string>): (ys: seq<string>)
    requires Sorted(xs)
    ensures Sorted(ys) && multiset(ys) == multiset(xs) + multiset{x}
  {
    if xs == [] then [x]
    else if Le(x, xs[0]) then
      assert forall j :: 0 <= j < |xs| ==> Le(x, xs[j]) by {
        forall j | 0 < j < |xs| ensures Le(x, xs[j]) { LeTransitive(x, xs[0], xs[j]); }
      }
      [x] + xs
    else
      var rest := Insert(x, xs[1..]);
      assert xs == [xs[0]] + xs[1..];
      assert forall y :: y in rest ==> Le(xs[0], y) by {
        LeTotal(x, xs[0]);
        forall y | y in rest ensures Le(xs[0], y) {
          assert y in multiset(rest);
          assert y == x || y in xs[1..];
        }
      }
      [xs[0]] + rest
  }

  /** What slices.Sort leaves behind. */
  function Sort(xs: seq<string>): (ys: seq<string>)
    ensures Sorted(ys) && multiset(ys) == multiset(xs)
  {
    if xs == [] then []
    else
      assert xs == [xs[0]] + xs[1..];
      Insert(xs[0], Sort(xs[1..]))
  }

  lemma SameMultiset<T>(ys: seq<T>, xs: seq<T>)
    requires multiset(ys) == multiset(xs)
    ensures |ys| == |xs| && forall x :: x in ys <==> x in xs
  {
    assert |multiset(ys)| == |multiset(xs)|;
    forall x ensures x in ys <==> x in xs {
      assert x in ys <==> x in multiset(ys);
      assert x in xs <==> x in multiset(xs);
    }
  }

  /** A multiset has only one sorted listing, so sorting forgets the order it was given. */
  lemma {:induction false} SortedUnique(xs: seq<string>, ys: seq<string>)
    requires Sorted(xs) && Sorted(ys) && multiset(xs) == multiset(ys)
    ensures xs == ys
  {
    hide Le, Sorted;
    SameMultiset(xs, ys);
    if xs != [] {
      assert xs[0] in xs && ys[0] in ys;
      HeadIsLeast(xs, ys[0]);
      HeadIsLeast(ys, xs[0]);
      LeAntisymmetric(xs[0], ys[0]);
      WithoutHead(xs);
      WithoutHead(ys);
      TailSorted(xs);
      TailSorted(ys);
      SortedUnique(xs[1..], ys[1..]);
      assert xs == [xs[0]] + xs[1..] && ys == [ys[0]] + ys[1..];
    }
  }

  lemma TailSorted(xs: seq<string>)
    requires Sorted(xs) && xs != []
    ensures Sorted(xs[1..])
  {
    hide Le;
  }

  lemma WithoutHead<T>(xs: seq<T>)
    requires xs != []
    ensures multiset(xs[1..]) == multiset(xs) - multiset{xs[0]}
  {
    assert xs == [xs[0]] + xs[1..];
  }

  lemma HeadIsLeast(xs: seq<string>, x: string)
    requires Sorted(xs) && x in xs
    ensures Le(xs[0], x)
  {
    var i :| 0 <= i < |xs| && xs[i] == x;
    LeReflexive(x);
  }

  lemma {:induction false} DistinctCount<T>(xs: seq<T>, x: T)
    requires Distinct(xs)
    ensures multiset(xs)[x] == if x in xs then 1 else 0
  {
    if xs != [] {
      assert xs == [xs[0]] + xs[1..];
      DistinctCount(xs[1..], x);
    }
  }

  /** xs lists s, each element once. */
  ghost predicate Lists<T>(xs: seq<T>, s: set<T>) {
    multiset(xs) == multiset(s)
  }

  /** One step of a loop that ranges over todo and keeps the members of all. */
  lemma ListsStep<T>(xs: seq<T>, all: set<T>, todo: set<T>, x: T)
    requires x in todo && Lists(xs, all - todo)
    ensures Lists(if x in all then xs + [x] else xs, all - (todo - {x}))
  {
    if x in all {
      assert all - (todo - {x}) == all - todo + {x};
      assert multiset(all - todo + {x}) == multiset(all - todo) + multiset{x};
    } else {
      assert all - (todo - {x}) == all - todo;
    }
  }

  lemma ListsNothing<T>(all: set<T>, todo: set<T>)
    requires all <= todo
    ensures Lists([], all - todo)
  {
    assert all - todo == {};
  }

  lemma ListsElems<T>(xs: seq<T>, s: set<T>)
    requires Lists(xs, s)
    ensures forall x :: x in xs <==> x in s
    ensures Elems(xs) == s && (xs == [] <==> s == {})
  {
    forall x ensures x in xs <==> x in s {
      assert x in xs <==> x in multiset(xs);
      assert x in s <==> x in multiset(s);
    }
    ElemsEmpty(xs);
  }

  lemma ListsDistinct<T>(xs: seq<T>, s: set<T>)
    requires Lists(xs, s)
    ensures Distinct(xs)
  {
    forall i, j | 0 <= i < j < |xs| ensures xs[i] != xs[j] {
      RepeatCount(xs, i, j);
      assert multiset(s)[xs[i]] <= 1;
    }
  }

  lemma {:induction false} DistinctLists<T>(xs: seq<T>)
    requires Distinct(xs)
    ensures Lists(xs, Elems(xs))
  {
    forall x ensures multiset(xs)[x] == multiset(Elems(xs))[x] {
      DistinctCount(xs, x);
      assert x in xs <==> x in Elems(xs);
    }
  }

  lemma ElemsCons<T>(x: T, xs: seq<T>)
    ensures Elems([x] + xs) == {x} + Elems(xs)
  {
  }

  lemma ElemsEmpty<T>(xs: seq<T>)
    ensures xs == [] <==> Elems(xs) == {}
  {
    if xs != [] { assert xs[0] in Elems(xs); }
  }

  /** The sorted, duplicate-free listing of a set. */
  ghost function SortedOf(s: set<string>): (xs: seq<string>)
    ensures Sorted(xs) && Lists(xs, s)
    decreases |s|
  {
    if s == {} then []
    else
      var m :| m in s;
      assert multiset(s) == multiset(s - {m}) + multiset{m};
      Insert(m, SortedOf(s - {m}))
  }

  lemma RepeatCount<T>(xs: seq<T>, i: nat, j: nat)
    requires i < j < |xs|
    ensures xs[i] == xs[j] ==> multiset(xs)[xs[i]] >= 2
  {
    assert xs == xs[..j] + xs[j..];
    assert xs[..j][i] == xs[i] && xs[j..][0] == xs[j];
    assert xs[i] in multiset(xs[..j]) && xs[j] in multiset(xs[j..]);
  }

  /** Sorting any listing of a set gives its one sorted listing. */
  lemma SortIsSortedOf(xs: seq<string>, s: set<string>, todo: set<string>)
    requires Lists(xs, s - todo) && todo == {}
    ensures Sort(xs) == SortedOf(s)
  {
    assert s - todo == s;
    SortedUnique(Sort(xs), SortedOf(s));
  }
}

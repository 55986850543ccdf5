/** Stable sorting by a comparison function, as Python's `sorted` does. */
module Sorting {
  import opened VersionOrder

  ghost predicate SortedBy<T>(cmp: (T, T) -> int, xs: seq<T>) {
    forall i, j :: 0 <= i < j < |xs| ==> cmp(xs[i], xs[j]) <= 0
  }

  ghost predicate StrictlySortedBy<T>(cmp: (T, T) -> int, xs: seq<T>) {
    forall i, j :: 0 <= i < j < |xs| ==> cmp(xs[i], xs[j]) < 0
  }

  ghost predicate Below<T>(cmp: (T, T) -> int, xs: seq<T>, x: T) {
    forall i :: 0 <= i < |xs| ==> cmp(xs[i], x) <= 0
  }

  /** Insert behind everything that does not compare greater. */
  function Insert<T>(cmp: (T, T) -> int, xs: seq<T>, x: T): seq<T> {
    if xs == [] || cmp(xs[|xs| - 1], x) <= 0 then xs + [x]
    else Insert(cmp, xs[..|xs| - 1], x) + [xs[|xs| - 1]]
  }

  /** Insertion from the left: equal elements keep their order. */
  function Sort<T>(cmp: (T, T) -> int, xs: seq<T>): seq<T> {
    if xs == [] then [] else Insert(cmp, Sort(cmp, xs[..|xs| - 1]), xs[|xs| - 1])
  }

  lemma {:induction false} InsertKeeps<T>(cmp: (T, T) -> int, xs: seq<T>, x: T)
    ensures multiset(Insert(cmp, xs, x)) == multiset(xs) + multiset{x}
  {
    if xs == [] || cmp(xs[|xs| - 1], x) <= 0 {
    } else {
      InsertKeeps(cmp, xs[..|xs| - 1], x);
      assert xs == xs[..|xs| - 1] + [xs[|xs| - 1]];
    }
  }

  lemma AppendSorted<T>(cmp: (T, T) -> int, xs: seq<T>, x: T)
    requires SortedBy(cmp, xs) && Below(cmp, xs, x)
    ensures SortedBy(cmp, xs + [x])
  {
  }

  lemma BelowLast<T(!new)>(cmp: (T, T) -> int, xs: seq<T>, x: T, i: nat)
    requires TotalPreorder(cmp) && SortedBy(cmp, xs) && i < |xs| && cmp(xs[|xs| - 1], x) <= 0
    ensures cmp(xs[i], x) <= 0
  {
    if i < |xs| - 1 {
      assert cmp(xs[i], xs[|xs| - 1]) <= 0;
    }
  }

  lemma {:induction false} InsertSorted<T(!new)>(cmp: (T, T) -> int, xs: seq<T>, x: T)
    requires TotalPreorder(cmp) && SortedBy(cmp, xs)
    ensures SortedBy(cmp, Insert(cmp, xs, x))
  {
    if xs == [] {
    } else if cmp(xs[|xs| - 1], x) <= 0 {
      forall i | 0 <= i < |xs| ensures cmp(xs[i], x) <= 0 {
        BelowLast(cmp, xs, x, i);
      }
      AppendSorted(cmp, xs, x);
    } else {
      var n := |xs| - 1;
      InsertSorted(cmp, xs[..n], x);
      assert cmp(x, xs[n]) <= 0;
      InsertedBelow(cmp, xs, x);
      AppendSorted(cmp, Insert(cmp, xs[..n], x), xs[n]);
    }
  }

  lemma InsertedBelow<T>(cmp: (T, T) -> int, xs: seq<T>, x: T)
    requires SortedBy(cmp, xs) && xs != [] && cmp(x, xs[|xs| - 1]) <= 0
    ensures Below(cmp, Insert(cmp, xs[..|xs| - 1], x), xs[|xs| - 1])
  {
    var n := |xs| - 1;
    var r := Insert(cmp, xs[..n], x);
    InsertKeeps(cmp, xs[..n], x);
    forall i | 0 <= i < |r| ensures cmp(r[i], xs[n]) <= 0 {
      assert r[i] in multiset(r);
      if r[i] != x {
        assert r[i] in xs[..n];
        var k :| 0 <= k < n && xs[..n][k] == r[i];
        assert cmp(xs[k], xs[n]) <= 0;
      }
    }
  }

  /** `sorted` sorts, and loses and invents nothing. */
  lemma {:induction false} SortCorrect<T(!new)>(cmp: (T, T) -> int, xs: seq<T>)
    requires TotalPreorder(cmp)
    ensures SortedBy(cmp, Sort(cmp, xs)) && multiset(Sort(cmp, xs)) == multiset(xs)
    ensures forall x :: x in Sort(cmp, xs) <==> x in xs
  {
    if xs != [] {
      var n := |xs| - 1;
      SortCorrect(cmp, xs[..n]);
      InsertSorted(cmp, Sort(cmp, xs[..n]), xs[n]);
      InsertKeeps(cmp, Sort(cmp, xs[..n]), xs[n]);
      assert xs == xs[..n] + [xs[n]];
    }
    SameElements(Sort(cmp, xs), xs);
  }

  lemma SameElements<T>(xs: seq<T>, ys: seq<T>)
    requires multiset(xs) == multiset(ys)
    ensures forall x :: x in xs <==> x in ys
  {
    forall x ensures x in xs <==> x in ys {
      assert x in xs <==> x in multiset(xs);
      assert x in ys <==> x in multiset(ys);
    }
  }

  /** The last element of a strictly sorted list comes after every other. */
  lemma LastIsGreatest<T(!new)>(cmp: (T, T) -> int, xs: seq<T>, x: T)
    requires StrictlySortedBy(cmp, xs) && x in xs
    ensures x == xs[|xs| - 1] || cmp(x, xs[|xs| - 1]) < 0
  {
    var k :| 0 <= k < |xs| && xs[k] == x;
  }

  lemma SameLast<T(!new)>(cmp: (T, T) -> int, xs: seq<T>, ys: seq<T>)
    requires TotalPreorder(cmp) && StrictlySortedBy(cmp, xs) && StrictlySortedBy(cmp, ys)
    requires xs != [] && forall x :: x in xs <==> x in ys
    ensures ys != [] && xs[|xs| - 1] == ys[|ys| - 1]
  {
    assert xs[|xs| - 1] in ys;
    assert ys[|ys| - 1] in xs;
    LastIsGreatest(cmp, ys, xs[|xs| - 1]);
    LastIsGreatest(cmp, xs, ys[|ys| - 1]);
    assert cmp(xs[|xs| - 1], ys[|ys| - 1]) == -cmp(ys[|ys| - 1], xs[|xs| - 1]);
  }

  lemma DropLast<T(!new)>(cmp: (T, T) -> int, xs: seq<T>, x: T)
    requires (forall a :: cmp(a, a) == 0) && StrictlySortedBy(cmp, xs) && xs != []
    ensures x in xs[..|xs| - 1] <==> x in xs && x != xs[|xs| - 1]
  {
    if x in xs[..|xs| - 1] {
      var k :| 0 <= k < |xs| - 1 && xs[k] == x;
      assert cmp(xs[k], xs[|xs| - 1]) < 0;
    }
    if x in xs && x != xs[|xs| - 1] {
      var k :| 0 <= k < |xs| && xs[k] == x;
      assert xs[..|xs| - 1][k] == x;
    }
  }

  lemma HasFirst<T>(ys: seq<T>)
    requires ys != []
    ensures ys[0] in ys
  {
  }

  lemma EmptyListing<T>(xs: seq<T>, ys: seq<T>)
    requires xs == [] && forall x :: x in ys ==> x in xs
    ensures ys == []
  {
    if ys != [] {
      HasFirst(ys);
    }
  }

  /** A strictly sorted listing of given elements is unique. */
  lemma {:induction false} ListingUnique<T(!new)>(cmp: (T, T) -> int, xs: seq<T>, ys: seq<T>)
    requires TotalPreorder(cmp) && StrictlySortedBy(cmp, xs) && StrictlySortedBy(cmp, ys)
    requires forall x :: x in xs <==> x in ys
    ensures xs == ys
    decreases |xs|
  {
    if xs == [] {
      EmptyListing(xs, ys);
    } else {
      SameLast(cmp, xs, ys);
      var m, n := |xs| - 1, |ys| - 1;
      forall x ensures x in xs[..m] <==> x in ys[..n] {
        DropLast(cmp, xs, x);
        DropLast(cmp, ys, x);
      }
      ListingUnique(cmp, xs[..m], ys[..n]);
      assert xs == xs[..m] + [xs[m]] && ys == ys[..n] + [ys[n]];
    }
  }
}

/** The stable sort of Array.prototype.sort with a comparator `key(a) - key(b)`. */
module Sorting {
  import opened Prelude

  function Insert<T>(x: T, ys: seq<T>, key: T -> int): seq<T> {
    if ys == [] || key(x) <= key(ys[0]) then [x] + ys else [ys[0]] + Insert(x, ys[1..], key)
  }

  function SortBy<T>(xs: seq<T>, key: T -> int): seq<T> {
    if xs == [] then [] else Insert(xs[0], SortBy(xs[1..], key), key)
  }

  ghost predicate Sorted<T>(xs: seq<T>, key: T -> int) {
    forall i, j :: 0 <= i < j < |xs| ==> key(xs[i]) <= key(xs[j])
  }

  /** The elements with one key, in the order they stand. */
  function WithKey<T>(xs: seq<T>, key: T -> int, k: int): seq<T> {
    if xs == [] then []
    else if key(xs[0]) == k then [xs[0]] + WithKey(xs[1..], key, k)
    else WithKey(xs[1..], key, k)
  }

  /** `ys` is `xs` reordered by key, equal keys keeping their order. */
  ghost predicate IsStableSort<T>(xs: seq<T>, ys: seq<T>, key: T -> int) {
    Sorted(ys, key) && forall k :: WithKey(ys, key, k) == WithKey(xs, key, k)
  }

  lemma {:induction false} InsertSorted<T>(x: T, ys: seq<T>, key: T -> int)
    requires Sorted(ys, key)
    ensures Sorted(Insert(x, ys, key), key)
    ensures forall y :: y in Insert(x, ys, key) ==> y == x || y in ys
  {
    if ys != [] && key(x) > key(ys[0]) {
      var rest := Insert(x, ys[1..], key);
      InsertSorted(x, ys[1..], key);
      forall y | y in rest ensures key(ys[0]) <= key(y) {
        if y != x { AboveHead(ys, y, key); }
      }
      assert forall i :: 0 <= i < |rest| ==> rest[i] in rest;
    }
  }

  lemma AboveHead<T>(ys: seq<T>, y: T, key: T -> int)
    requires ys != [] && Sorted(ys, key) && y in ys[1..]
    ensures key(ys[0]) <= key(y)
  {
    var i :| 0 <= i < |ys[1..]| && ys[1..][i] == y;
    assert ys[i + 1] == y;
  }

  lemma {:induction false} InsertKeepsKeys<T>(x: T, ys: seq<T>, key: T -> int, k: int)
    ensures WithKey(Insert(x, ys, key), key, k) ==
            if key(x) == k then [x] + WithKey(ys, key, k) else WithKey(ys, key, k)
  {
    if ys != [] && key(x) > key(ys[0]) {
      InsertKeepsKeys(x, ys[1..], key, k);
    } else {
      assert ([x] + ys)[1..] == ys;
    }
  }

  lemma {:induction false} SortByKeepsKeys<T>(xs: seq<T>, key: T -> int, k: int)
    ensures WithKey(SortBy(xs, key), key, k) == WithKey(xs, key, k)
  {
    if xs != [] {
      SortByKeepsKeys(xs[1..], key, k);
      InsertKeepsKeys(xs[0], SortBy(xs[1..], key), key, k);
    }
  }

  lemma {:induction false} SortBySorted<T>(xs: seq<T>, key: T -> int)
    ensures Sorted(SortBy(xs, key), key)
  {
    if xs != [] {
      SortBySorted(xs[1..], key);
      InsertSorted(xs[0], SortBy(xs[1..], key), key);
    }
  }

  lemma {:induction false} WithKeyIn<T>(xs: seq<T>, key: T -> int, k: int)
    ensures forall i :: 0 <= i < |xs| && key(xs[i]) == k ==> WithKey(xs, key, k) != []
    ensures WithKey(xs, key, k) != [] ==> exists i :: 0 <= i < |xs| && key(xs[i]) == k
  {
    if xs != [] {
      WithKeyIn(xs[1..], key, k);
      if WithKey(xs, key, k) != [] && key(xs[0]) != k {
        var i :| 0 <= i < |xs[1..]| && key(xs[1..][i]) == k;
        assert key(xs[i + 1]) == k;
      }
    }
  }

  lemma HeadHasKey<T>(xs: seq<T>, key: T -> int)
    requires xs != []
    ensures WithKey(xs, key, key(xs[0])) != []
  {
  }

  lemma {:induction false} StableSortIsUnique<T>(a: seq<T>, b: seq<T>, key: T -> int)
    requires Sorted(a, key) && Sorted(b, key)
    requires forall k :: WithKey(a, key, k) == WithKey(b, key, k)
    ensures a == b
  {
    if a == [] {
      if b != [] { HeadHasKey(b, key); }
    } else {
      var k := key(a[0]);
      WithKeyIn(a, key, k);
      WithKeyIn(b, key, k);
      WithKeyIn(a, key, key(b[0]));
      WithKeyIn(b, key, key(b[0]));
      assert WithKey(a, key, key(b[0])) == WithKey(b, key, key(b[0]));
      assert key(b[0]) == k;
      assert WithKey(a, key, k)[0] == a[0] && WithKey(b, key, k)[0] == b[0];
      forall m ensures WithKey(a[1..], key, m) == WithKey(b[1..], key, m) {
        assert WithKey(a, key, m) == WithKey(b, key, m);
        if m == k {
          assert WithKey(a[1..], key, m) == WithKey(a, key, m)[1..];
          assert WithKey(b[1..], key, m) == WithKey(b, key, m)[1..];
        }
      }
      StableSortIsUnique(a[1..], b[1..], key);
    }
  }

  /** The sort is the only stable rearrangement, so any engine's stable sort returns it. */
  lemma SortByIff<T>(xs: seq<T>, ys: seq<T>, key: T -> int)
    ensures ys == SortBy(xs, key) <==> IsStableSort(xs, ys, key)
  {
    SortBySorted(xs, key);
    forall k { SortByKeepsKeys(xs, key, k); }
    if IsStableSort(xs, ys, key) {
      forall k ensures WithKey(ys, key, k) == WithKey(SortBy(xs, key), key, k) {
        SortByKeepsKeys(xs, key, k);
      }
      StableSortIsUnique(ys, SortBy(xs, key), key);
    }
  }

  lemma {:induction false} SortByMultiset<T>(xs: seq<T>, key: T -> int)
    ensures multiset(SortBy(xs, key)) == multiset(xs)
  {
    if xs != [] {
      SortByMultiset(xs[1..], key);
      InsertMultiset(xs[0], SortBy(xs[1..], key), key);
      assert xs == [xs[0]] + xs[1..];
    }
  }

  lemma {:induction false} InsertMultiset<T>(x: T, ys: seq<T>, key: T -> int)
    ensures multiset(Insert(x, ys, key)) == multiset{x} + multiset(ys)
  {
    if ys != [] && key(x) > key(ys[0]) {
      InsertMultiset(x, ys[1..], key);
      assert ys == [ys[0]] + ys[1..];
    }
  }

  lemma {:induction false} WithKeyFilter<T>(xs: seq<T>, key: T -> int, k: int, keep: T -> bool)
    ensures WithKey(Filter(xs, keep), key, k) == Filter(WithKey(xs, key, k), keep)
  {
    if xs != [] {
      WithKeyFilter(xs[1..], key, k, keep);
      var rest := Filter(xs[1..], keep);
      assert ([xs[0]] + rest)[1..] == rest;
      var same := WithKey(xs[1..], key, k);
      assert ([xs[0]] + same)[1..] == same;
    }
  }

  lemma {:induction false} FilterSorted<T>(xs: seq<T>, key: T -> int, keep: T -> bool)
    requires Sorted(xs, key)
    ensures Sorted(Filter(xs, keep), key)
  {
    if xs != [] {
      FilterSorted(xs[1..], key, keep);
      forall x | x in Filter(xs[1..], keep) ensures key(xs[0]) <= key(x) {
        assert x in xs[1..];
      }
    }
  }

  /** Filtering before or after the sort makes no difference. */
  lemma SortThenFilter<T>(xs: seq<T>, key: T -> int, keep: T -> bool)
    ensures Filter(SortBy(xs, key), keep) == SortBy(Filter(xs, keep), key)
  {
    SortBySorted(xs, key);
    FilterSorted(SortBy(xs, key), key, keep);
    forall k ensures WithKey(Filter(SortBy(xs, key), keep), key, k) == WithKey(Filter(xs, keep), key, k) {
      SortByKeepsKeys(xs, key, k);
      WithKeyFilter(SortBy(xs, key), key, k, keep);
      WithKeyFilter(xs, key, k, keep);
    }
    SortByIff(Filter(xs, keep), Filter(SortBy(xs, key), keep), key);
  }

  /** Sorting a sorted list changes nothing. */
  lemma SortAgain<T>(xs: seq<T>, key: T -> int)
    ensures SortBy(SortBy(xs, key), key) == SortBy(xs, key)
  {
    SortBySorted(xs, key);
    SortByIff(SortBy(xs, key), SortBy(xs, key), key);
  }

  lemma {:induction false} TwoWithKey<T>(xs: seq<T>, key: T -> int, i: nat, j: nat)
    requires i < j < |xs| && key(xs[i]) == key(xs[j])
    ensures |WithKey(xs, key, key(xs[i]))| >= 2
  {
    if i > 0 {
      TwoWithKey(xs[1..], key, i - 1, j - 1);
    } else {
      WithKeyIn(xs[1..], key, key(xs[0]));
      assert xs[1..][j - 1] == xs[j];
    }
  }

  lemma {:induction false} OneWithKey<T>(xs: seq<T>, key: T -> int, k: int)
    requires forall i, j :: 0 <= i < j < |xs| ==> key(xs[i]) != key(xs[j])
    ensures |WithKey(xs, key, k)| <= 1
  {
    if xs != [] {
      OneWithKey(xs[1..], key, k);
      WithKeyIn(xs[1..], key, k);
      assert forall i :: 0 <= i < |xs[1..]| ==> xs[1..][i] == xs[i + 1];
    }
  }

  /** Distinct keys come out strictly increasing. */
  lemma SortedDistinctKeys<T>(xs: seq<T>, key: T -> int)
    requires forall i, j :: 0 <= i < j < |xs| ==> key(xs[i]) != key(xs[j])
    ensures var s := SortBy(xs, key);
            && (forall i, j :: 0 <= i < j < |s| ==> key(s[i]) < key(s[j]))
            && multiset(s) == multiset(xs)
            && forall x :: x in s <==> x in xs
  {
    var s := SortBy(xs, key);
    SortBySorted(xs, key);
    SortByMultiset(xs, key);
    assert forall x :: x in s <==> x in multiset(s);
    assert forall x :: x in xs <==> x in multiset(xs);
    forall i, j | 0 <= i < j < |s| ensures key(s[i]) < key(s[j]) {
      if key(s[i]) == key(s[j]) {
        TwoWithKey(s, key, i, j);
        SortByKeepsKeys(xs, key, key(s[i]));
        OneWithKey(xs, key, key(s[i]));
      }
    }
  }
}

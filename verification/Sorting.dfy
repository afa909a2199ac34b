/** The stable sort the standard library promises, and what stability means for any selection of elements. */
module Sorting {

  ghost predicate Sorted<T>(s: seq<T>, key: T -> real) {
    forall i, j :: 0 <= i < j < |s| ==> key(s[i]) <= key(s[j])
  }

  /** `x` goes before every element whose key is not smaller, so it stays ahead of its equals. */
  function Insert<T>(x: T, s: seq<T>, key: T -> real): seq<T> {
    if s == [] || key(x) <= key(s[0]) then [x] + s else [s[0]] + Insert(x, s[1..], key)
  }

  function StableSort<T>(s: seq<T>, key: T -> real): seq<T> {
    if s == [] then [] else Insert(s[0], StableSort(s[1..], key), key)
  }

  function Filter<T>(s: seq<T>, keep: T -> bool): seq<T> {
    if s == [] then []
    else if keep(s[0]) then [s[0]] + Filter(s[1..], keep)
    else Filter(s[1..], keep)
  }

  function Map<T, U>(s: seq<T>, f: T -> U): (r: seq<U>)
    ensures |r| == |s| && forall i :: 0 <= i < |s| ==> r[i] == f(s[i])
  {
    if s == [] then [] else [f(s[0])] + Map(s[1..], f)
  }

  lemma {:induction false} InsertPermutes<T>(x: T, s: seq<T>, key: T -> real)
    ensures multiset(Insert(x, s, key)) == multiset([x] + s)
    decreases |s|
  {
    if s != [] && key(x) > key(s[0]) {
      InsertPermutes(x, s[1..], key);
      assert s == [s[0]] + s[1..];
    }
  }

  lemma {:induction false} InsertOrders<T>(x: T, s: seq<T>, key: T -> real)
    requires Sorted(s, key)
    ensures Sorted(Insert(x, s, key), key)
    decreases |s|
  {
    if s != [] && key(x) > key(s[0]) {
      InsertOrders(x, s[1..], key);
      var r := Insert(x, s[1..], key);
      forall i | 0 <= i < |r|
        ensures key(s[0]) <= key(r[i])
      {
        InsertedFrom(x, s[1..], key, i);
      }
    }
  }

  lemma InsertedFrom<T>(x: T, s: seq<T>, key: T -> real, i: nat)
    requires i < |Insert(x, s, key)|
    ensures Insert(x, s, key)[i] == x || Insert(x, s, key)[i] in s
  {
    InsertPermutes(x, s, key);
    assert Insert(x, s, key)[i] in multiset(Insert(x, s, key));
    assert Insert(x, s, key)[i] in [x] + s;
  }

  /** Sorting permutes and orders. */
  lemma {:induction false} StableSortSorts<T>(s: seq<T>, key: T -> real)
    ensures multiset(StableSort(s, key)) == multiset(s)
    ensures Sorted(StableSort(s, key), key)
    decreases |s|
  {
    if s != [] {
      StableSortSorts(s[1..], key);
      InsertPermutes(s[0], StableSort(s[1..], key), key);
      InsertOrders(s[0], StableSort(s[1..], key), key);
      assert s == [s[0]] + s[1..];
    }
  }

  lemma {:induction false} InsertFront<T>(x: T, s: seq<T>, key: T -> real)
    requires forall i :: 0 <= i < |s| ==> key(x) <= key(s[i])
    ensures Insert(x, s, key) == [x] + s
  {
  }

  /** What is sorted already stays as it is. */
  lemma {:induction false} SortedStays<T>(s: seq<T>, key: T -> real)
    requires Sorted(s, key)
    ensures StableSort(s, key) == s
    decreases |s|
  {
    if s != [] {
      SortedStays(s[1..], key);
      InsertFront(s[0], s[1..], key);
    }
  }

  lemma {:induction false} FilterAppend<T>(a: seq<T>, b: seq<T>, keep: T -> bool)
    ensures Filter(a + b, keep) == Filter(a, keep) + Filter(b, keep)
    decreases |a|
  {
    if a == [] {
      assert a + b == b;
    } else {
      assert (a + b)[1..] == a[1..] + b;
      FilterAppend(a[1..], b, keep);
    }
  }

  lemma {:induction false} FilterAt<T>(s: seq<T>, keep: T -> bool, k: nat)
    requires k < |Filter(s, keep)|
    ensures Filter(s, keep)[k] in s && keep(Filter(s, keep)[k])
    decreases |s|
  {
    if s != [] {
      var skip := if keep(s[0]) then 1 else 0;
      if k >= skip {
        FilterAt(s[1..], keep, k - skip);
      }
    }
  }

  lemma {:induction false} FilterInsert<T>(x: T, s: seq<T>, key: T -> real, keep: T -> bool)
    requires Sorted(s, key)
    ensures Filter(Insert(x, s, key), keep) == if keep(x) then Insert(x, Filter(s, keep), key) else Filter(s, keep)
    decreases |s|
  {
    if s == [] || key(x) <= key(s[0]) {
      forall i | 0 <= i < |Filter(s, keep)|
        ensures key(x) <= key(Filter(s, keep)[i])
      {
        FilterAt(s, keep, i);
      }
      InsertFront(x, Filter(s, keep), key);
      assert ([x] + s)[1..] == s;
    } else {
      FilterInsert(x, s[1..], key, keep);
      assert ([s[0]] + Insert(x, s[1..], key))[1..] == Insert(x, s[1..], key);
      assert ([s[0]] + Filter(s[1..], keep))[1..] == Filter(s[1..], keep);
    }
  }

  /** Stability: selecting any of the elements commutes with sorting them. */
  lemma {:induction false} FilterSorts<T>(s: seq<T>, key: T -> real, keep: T -> bool)
    ensures Filter(StableSort(s, key), keep) == StableSort(Filter(s, keep), key)
    decreases |s|
  {
    if s != [] {
      FilterSorts(s[1..], key, keep);
      StableSortSorts(s[1..], key);
      FilterInsert(s[0], StableSort(s[1..], key), key, keep);
      assert ([s[0]] + Filter(s[1..], keep))[1..] == Filter(s[1..], keep);
    }
  }

  /** A selection that was in order already comes out exactly as it went in. */
  lemma SelectionKept<T>(s: seq<T>, key: T -> real, keep: T -> bool)
    requires Sorted(Filter(s, keep), key)
    ensures Filter(StableSort(s, key), keep) == Filter(s, keep)
  {
    FilterSorts(s, key, keep);
    SortedStays(Filter(s, keep), key);
  }

  lemma {:induction false} MapInsert<T, U>(x: T, s: seq<T>, key: T -> real, f: T -> U, key': U -> real)
    requires forall t :: key'(f(t)) == key(t)
    ensures Map(Insert(x, s, key), f) == Insert(f(x), Map(s, f), key')
    decreases |s|
  {
    if s != [] && key(x) > key(s[0]) {
      MapInsert(x, s[1..], key, f, key');
      assert ([s[0]] + Insert(x, s[1..], key))[1..] == Insert(x, s[1..], key);
      assert Map(s, f)[1..] == Map(s[1..], f);
    } else {
      assert ([x] + s)[1..] == s;
    }
  }

  /** Relabelling elements without touching their keys commutes with sorting them. */
  lemma {:induction false} MapSorts<T, U>(s: seq<T>, key: T -> real, f: T -> U, key': U -> real)
    requires forall t :: key'(f(t)) == key(t)
    ensures Map(StableSort(s, key), f) == StableSort(Map(s, f), key')
    decreases |s|
  {
    if s != [] {
      MapSorts(s[1..], key, f, key');
      MapInsert(s[0], StableSort(s[1..], key), key, f, key');
      assert Map(s, f)[1..] == Map(s[1..], f);
    }
  }
}

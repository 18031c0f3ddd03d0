/** The two list operations the engine relies on: a list comprehension with a
    condition (`Filter`) and Python's stable `list.sort(key=...)` (`SortBy`). */
module Seqs {

  /** `[x for x in s if p(x)]`. */
  function Filter<T>(s: seq<T>, p: T -> bool): (r: seq<T>)
    ensures |r| <= |s|
  {
    if s == [] then []
    else (if p(s[0]) then [s[0]] else []) + Filter(s[1..], p)
  }

  /** The comprehension keeps exactly the elements that pass the condition. */
  lemma {:induction false} FilterMembers<T>(s: seq<T>, p: T -> bool)
    ensures forall i :: 0 <= i < |Filter(s, p)| ==> Filter(s, p)[i] in s && p(Filter(s, p)[i])
    ensures forall i :: 0 <= i < |s| && p(s[i]) ==> s[i] in Filter(s, p)
  {
    if s != [] {
      FilterMembers(s[1..], p);
      var rest := Filter(s[1..], p);
      assert Filter(s, p) == (if p(s[0]) then [s[0]] else []) + rest;
      forall i | 0 <= i < |s| && p(s[i]) ensures s[i] in Filter(s, p) {
        if i > 0 {
          assert s[i] == s[1..][i - 1];
        }
      }
    }
  }

  /** Filtering a concatenation filters each part and keeps them in order:
      the comprehension never reorders what it keeps. */
  lemma {:induction false} FilterAppend<T>(a: seq<T>, b: seq<T>, p: T -> bool)
    ensures Filter(a + b, p) == Filter(a, p) + Filter(b, p)
  {
    if a == [] {
      assert a + b == b;
    } else {
      var head := if p(a[0]) then [a[0]] else [];
      assert (a + b)[0] == a[0];
      assert (a + b)[1..] == a[1..] + b;
      assert Filter(a + b, p) == head + Filter(a[1..] + b, p);
      FilterAppend(a[1..], b, p);
      assert Filter(a, p) == head + Filter(a[1..], p);
    }
  }

  /** Every occurrence of a kept value survives, and no other value does. */
  lemma {:induction false} FilterCount<T>(s: seq<T>, p: T -> bool, x: T)
    ensures multiset(Filter(s, p))[x] == if p(x) then multiset(s)[x] else 0
  {
    if s != [] {
      FilterCount(s[1..], p, x);
      assert s == [s[0]] + s[1..];
    }
  }

  /** A list whose elements all pass the condition is kept whole. */
  lemma {:induction false} FilterAll<T>(s: seq<T>, p: T -> bool)
    requires forall i :: 0 <= i < |s| ==> p(s[i])
    ensures Filter(s, p) == s
  {
    if s != [] {
      FilterAll(s[1..], p);
    }
  }

  /** Filtering twice with the same condition is filtering once. */
  lemma FilterIdempotent<T>(s: seq<T>, p: T -> bool)
    ensures Filter(Filter(s, p), p) == Filter(s, p)
  {
    FilterMembers(s, p);
    FilterAll(Filter(s, p), p);
  }

  predicate SortedBy<T>(s: seq<T>, key: T -> real)
  {
    forall i, j :: 0 <= i < j < |s| ==> key(s[i]) <= key(s[j])
  }

  /** Places `x` after every element whose key is not larger (so equal keys keep
      their arrival order). */
  function Insert<T>(x: T, s: seq<T>, key: T -> real): (r: seq<T>)
    ensures |r| == |s| + 1
  {
    if s == [] then [x]
    else if key(x) < key(s[0]) then [x] + s
    else [s[0]] + Insert(x, s[1..], key)
  }

  /** Stable insertion sort by `key`. */
  function SortBy<T>(s: seq<T>, key: T -> real): (r: seq<T>)
    ensures |r| == |s|
  {
    if s == [] then []
    else Insert(s[|s| - 1], SortBy(s[..|s| - 1], key), key)
  }

  lemma {:induction false} InsertPermutes<T>(x: T, s: seq<T>, key: T -> real)
    ensures multiset(Insert(x, s, key)) == multiset(s) + multiset{x}
  {
    if s != [] && key(x) >= key(s[0]) {
      var rest := Insert(x, s[1..], key);
      InsertPermutes(x, s[1..], key);
      assert s == [s[0]] + s[1..];
      assert multiset(Insert(x, s, key)) == multiset([s[0]]) + multiset(rest);
    }
  }

  lemma {:induction false} InsertSorted<T>(x: T, s: seq<T>, key: T -> real)
    requires SortedBy(s, key)
    ensures SortedBy(Insert(x, s, key), key)
    ensures Insert(x, s, key)[0] == x || (s != [] && Insert(x, s, key)[0] == s[0])
  {
    if s != [] && key(x) >= key(s[0]) {
      InsertSorted(x, s[1..], key);
      var rest := Insert(x, s[1..], key);
      assert key(s[0]) <= key(rest[0]);
      forall j | 0 <= j < |rest| ensures key(s[0]) <= key(rest[j]) {
        if j > 0 {
          assert key(rest[0]) <= key(rest[j]);
        }
      }
    }
  }

  /** Inserting a key no smaller than the last one appends. */
  lemma {:induction false} InsertAtEnd<T>(x: T, s: seq<T>, key: T -> real)
    requires SortedBy(s, key)
    requires s != [] ==> key(s[|s| - 1]) <= key(x)
    ensures Insert(x, s, key) == s + [x]
  {
    if s != [] {
      assert key(s[0]) <= key(s[|s| - 1]);
      InsertAtEnd(x, s[1..], key);
      assert [s[0]] + (s[1..] + [x]) == s + [x];
    }
  }

  /** `SortBy` returns a sorted permutation of its input. */
  lemma {:induction false} SortBySpec<T>(s: seq<T>, key: T -> real)
    ensures SortedBy(SortBy(s, key), key)
    ensures multiset(SortBy(s, key)) == multiset(s)
  {
    if s != [] {
      var init := s[..|s| - 1];
      SortBySpec(init, key);
      InsertSorted(s[|s| - 1], SortBy(init, key), key);
      InsertPermutes(s[|s| - 1], SortBy(init, key), key);
      assert s == init + [s[|s| - 1]];
    }
  }

  /** Sorting a list that is already sorted changes nothing. */
  lemma {:induction false} SortBySorted<T>(s: seq<T>, key: T -> real)
    requires SortedBy(s, key)
    ensures SortBy(s, key) == s
  {
    if s != [] {
      var init := s[..|s| - 1];
      SortBySorted(init, key);
      InsertAtEnd(s[|s| - 1], init, key);
      assert init + [s[|s| - 1]] == s;
    }
  }

  /** Sorting after appending one element inserts that element into the sorted rest. */
  lemma SortByAppend<T>(s: seq<T>, x: T, key: T -> real)
    ensures SortBy(s + [x], key) == Insert(x, SortBy(s, key), key)
  {
    assert (s + [x])[..|s|] == s;
  }

  /** The last element of a sort carries the largest key of the input. */
  lemma SortByLastIsMax<T>(s: seq<T>, key: T -> real)
    requires s != []
    ensures forall x :: x in s ==> key(x) <= key(SortBy(s, key)[|s| - 1])
  {
    var r := SortBy(s, key);
    SortBySpec(s, key);
    forall x | x in s ensures key(x) <= key(r[|s| - 1]) {
      assert x in multiset(r);
      var i :| 0 <= i < |r| && r[i] == x;
      if i < |s| - 1 {
        assert key(r[i]) <= key(r[|s| - 1]);
      }
    }
  }

  /** The first element of a sort carries the smallest key of the input. */
  lemma SortByFirstIsMin<T>(s: seq<T>, key: T -> real)
    requires s != []
    ensures forall x :: x in s ==> key(SortBy(s, key)[0]) <= key(x)
  {
    var r := SortBy(s, key);
    SortBySpec(s, key);
    forall x | x in s ensures key(r[0]) <= key(x) {
      assert x in multiset(r);
      var i :| 0 <= i < |r| && r[i] == x;
      if i > 0 {
        assert key(r[0]) <= key(r[i]);
      }
    }
  }

  /** Filtering keeps a sorted list sorted. */
  lemma {:induction false} FilterSorted<T>(s: seq<T>, p: T -> bool, key: T -> real)
    requires SortedBy(s, key)
    ensures SortedBy(Filter(s, p), key)
  {
    if s != [] {
      FilterSorted(s[1..], p, key);
      FilterMembers(s[1..], p);
      var rest := Filter(s[1..], p);
      forall j | 0 <= j < |rest| ensures key(s[0]) <= key(rest[j]) {
        assert rest[j] in s[1..];
      }
    }
  }

  /** The elements whose key is exactly `v`. */
  function KeyIs<T>(key: T -> real, v: real): T -> bool
  {
    x => key(x) == v
  }

  /** A list none of whose elements passes filters to nothing. */
  lemma {:induction false} FilterNone<T>(s: seq<T>, p: T -> bool)
    requires forall i :: 0 <= i < |s| ==> !p(s[i])
    ensures Filter(s, p) == []
  {
    if s != [] {
      assert forall i :: 0 <= i < |s[1..]| ==> s[1..][i] == s[i + 1];
      FilterNone(s[1..], p);
    }
  }

  /** Filtering a list with one element in front. */
  lemma FilterCons<T>(x: T, s: seq<T>, p: T -> bool)
    ensures Filter([x] + s, p) == (if p(x) then [x] else []) + Filter(s, p)
  {
    assert ([x] + s)[1..] == s;
  }

  lemma SortedTail<T>(s: seq<T>, key: T -> real)
    requires SortedBy(s, key) && s != []
    ensures SortedBy(s[1..], key)
    ensures forall i :: 0 <= i < |s| ==> key(s[0]) <= key(s[i])
  {
    var tail := s[1..];
    forall i, j | 0 <= i < j < |tail| ensures key(tail[i]) <= key(tail[j]) {
      assert tail[i] == s[i + 1] && tail[j] == s[j + 1];
    }
  }

  /** No element of a sorted list has a key below its head's. */
  lemma NoKeyBelowHead<T>(s: seq<T>, key: T -> real, v: real)
    requires SortedBy(s, key) && s != [] && v < key(s[0])
    ensures Filter(s, KeyIs(key, v)) == []
  {
    SortedTail(s, key);
    FilterNone(s, KeyIs(key, v));
  }

  /** Inserting into a sorted list puts the new element after every element of
      the same key. */
  lemma {:induction false} InsertAfterEqualKeys<T>(x: T, s: seq<T>, key: T -> real, v: real)
    requires SortedBy(s, key)
    ensures Filter(Insert(x, s, key), KeyIs(key, v)) ==
            Filter(s, KeyIs(key, v)) + (if key(x) == v then [x] else [])
  {
    var p := KeyIs(key, v);
    if s == [] {
      FilterCons(x, [], p);
    } else if key(x) < key(s[0]) {
      assert Insert(x, s, key) == [x] + s;
      FilterCons(x, s, p);
      if key(x) == v {
        NoKeyBelowHead(s, key, v);
      }
    } else {
      var tail := s[1..];
      SortedTail(s, key);
      InsertAfterEqualKeys(x, tail, key, v);
      assert Insert(x, s, key) == [s[0]] + Insert(x, tail, key);
      FilterCons(s[0], Insert(x, tail, key), p);
      assert s == [s[0]] + tail;
      FilterCons(s[0], tail, p);
    }
  }

  lemma FilterSnoc<T>(s: seq<T>, x: T, p: T -> bool)
    ensures Filter(s + [x], p) == Filter(s, p) + (if p(x) then [x] else [])
  {
    FilterAppend(s, [x], p);
    FilterCons(x, [], p);
  }

  lemma SortByIsSorted<T>(s: seq<T>, key: T -> real)
    ensures SortedBy(SortBy(s, key), key)
  {
    SortBySpec(s, key);
  }

  /** The sort is stable: the elements of any one key keep their input order. */
  lemma {:induction false} SortByStable<T>(s: seq<T>, key: T -> real, v: real)
    ensures Filter(SortBy(s, key), KeyIs(key, v)) == Filter(s, KeyIs(key, v))
  {
    if s != [] {
      var p := KeyIs(key, v);
      var init := s[..|s| - 1];
      var last := s[|s| - 1];
      var sortedInit := SortBy(init, key);
      var extra := if key(last) == v then [last] else [];
      assert SortBy(s, key) == Insert(last, sortedInit, key);
      SortByIsSorted(init, key);
      InsertAfterEqualKeys(last, sortedInit, key, v);
      assert Filter(SortBy(s, key), p) == Filter(sortedInit, p) + extra;
      SortByStable(init, key, v);
      assert Filter(sortedInit, p) == Filter(init, p);
      assert s == init + [last];
      FilterSnoc(init, last, p);
    }
  }
}

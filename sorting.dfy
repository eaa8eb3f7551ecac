/** Python's `list.sort(key=..., reverse=True)`: a stable sort into
    descending key order, written as an insertion sort. */
module Sorting {

  /** Keys never increase from left to right. */
  predicate SortedDesc<T>(s: seq<T>, key: T -> int) {
    forall i, j {:trigger key(s[i]), key(s[j])} :: 0 <= i < j < |s| ==> key(s[i]) >= key(s[j])
  }

  /** Inserts `x` after every leading element whose key is at least its own. */
  function InsertDesc<T>(x: T, s: seq<T>, key: T -> int): (r: seq<T>)
    ensures multiset(r) == multiset(s) + multiset{x} && |r| == |s| + 1
  {
    assert s != [] ==> s == [s[0]] + s[1..];
    if s == [] then [x]
    else if key(s[0]) >= key(x) then [s[0]] + InsertDesc(x, s[1..], key)
    else [x] + s
  }

  /** Insertion into a descending sequence leaves it descending. */
  lemma {:induction false} InsertDescSorted<T>(x: T, s: seq<T>, key: T -> int)
    requires SortedDesc(s, key)
    ensures SortedDesc(InsertDesc(x, s, key), key)
  {
    if s != [] && key(s[0]) >= key(x) {
      var rest := InsertDesc(x, s[1..], key);
      InsertDescSorted(x, s[1..], key);
      forall i | 0 <= i < |rest| ensures key(s[0]) >= key(rest[i]) {
        assert rest[i] in multiset(rest);
        if rest[i] != x {
          assert rest[i] in multiset(s[1..]);
          var j :| 0 <= j < |s[1..]| && s[1..][j] == rest[i];
          assert s[1..][j] == s[j + 1];
        }
      }
      assert InsertDesc(x, s, key) == [s[0]] + rest;
    }
  }

  /** `sorted(s, key=key, reverse=True)`. */
  function SortDesc<T>(s: seq<T>, key: T -> int): (r: seq<T>)
    ensures multiset(r) == multiset(s) && |r| == |s|
  {
    if s == [] then []
    else
      var init, last := s[..|s| - 1], s[|s| - 1];
      assert s == init + [last];
      assert multiset(s) == multiset(init) + multiset{last};
      InsertDesc(last, SortDesc(init, key), key)
  }

  /** The sort leaves the keys in descending order. */
  lemma {:induction false} SortDescSorted<T>(s: seq<T>, key: T -> int)
    ensures SortedDesc(SortDesc(s, key), key)
  {
    if s != [] {
      SortDescSorted(s[..|s| - 1], key);
      InsertDescSorted(s[|s| - 1], SortDesc(s[..|s| - 1], key), key);
    }
  }

  /** The elements of `s` whose key is `v`, in their order in `s`. */
  function WithKey<T>(s: seq<T>, key: T -> int, v: int): seq<T> {
    if s == [] then []
    else (if key(s[0]) == v then [s[0]] else []) + WithKey(s[1..], key, v)
  }

  lemma {:induction false} WithKeyAppend<T>(a: seq<T>, b: seq<T>, key: T -> int, v: int)
    ensures WithKey(a + b, key, v) == WithKey(a, key, v) + WithKey(b, key, v)
  {
    if a == [] {
      assert a + b == b;
    } else {
      var head := if key(a[0]) == v then [a[0]] else [];
      assert a + b == [a[0]] + (a[1..] + b) && a == [a[0]] + a[1..];
      WithKeyCons(a[0], a[1..] + b, key, v);
      WithKeyCons(a[0], a[1..], key, v);
      WithKeyAppend(a[1..], b, key, v);
      assert head + (WithKey(a[1..], key, v) + WithKey(b, key, v)) ==
             (head + WithKey(a[1..], key, v)) + WithKey(b, key, v);
    }
  }

  lemma {:induction false} WithKeyNone<T>(s: seq<T>, key: T -> int, v: int)
    requires forall i :: 0 <= i < |s| ==> key(s[i]) < v
    ensures WithKey(s, key, v) == []
  {
    if s != [] {
      WithKeyNone(s[1..], key, v);
    }
  }

  lemma WithKeyCons<T>(y: T, r: seq<T>, key: T -> int, v: int)
    ensures WithKey([y] + r, key, v) == (if key(y) == v then [y] else []) + WithKey(r, key, v)
  {
    assert ([y] + r)[0] == y && ([y] + r)[1..] == r;
  }

  lemma SortedDescTail<T>(s: seq<T>, key: T -> int)
    requires s != [] && SortedDesc(s, key)
    ensures SortedDesc(s[1..], key)
    ensures forall i :: 0 <= i < |s| ==> key(s[i]) <= key(s[0])
  {
    forall i, j | 0 <= i < j < |s[1..]| ensures key(s[1..][i]) >= key(s[1..][j]) {
      assert s[1..][i] == s[i + 1] && s[1..][j] == s[j + 1];
    }
  }

  /** Insertion keeps `x` behind every element of equal key. */
  lemma {:induction false} WithKeyInsert<T>(x: T, s: seq<T>, key: T -> int, v: int)
    requires SortedDesc(s, key)
    ensures WithKey(InsertDesc(x, s, key), key, v) ==
            WithKey(s, key, v) + (if key(x) == v then [x] else [])
    decreases |s|, 1
  {
    if s == [] {
      assert InsertDesc(x, s, key) == [x] + [];
      WithKeyCons(x, [], key, v);
    } else if key(s[0]) >= key(x) {
      WithKeyInsertPast(x, s, key, v);
    } else {
      assert InsertDesc(x, s, key) == [x] + s;
      WithKeyCons(x, s, key, v);
      if key(x) == v {
        SortedDescTail(s, key);
        WithKeyNone(s, key, v);
      }
    }
  }

  /** The case of `WithKeyInsert` where `x` goes past the first element. */
  lemma {:induction false} WithKeyInsertPast<T>(x: T, s: seq<T>, key: T -> int, v: int)
    requires SortedDesc(s, key) && s != [] && key(s[0]) >= key(x)
    ensures WithKey(InsertDesc(x, s, key), key, v) ==
            WithKey(s, key, v) + (if key(x) == v then [x] else [])
    decreases |s|, 0
  {
    var rest := InsertDesc(x, s[1..], key);
    var a, w, b := (if key(s[0]) == v then [s[0]] else []), WithKey(s[1..], key, v), (if key(x) == v then [x] else []);
    calc {
      WithKey(InsertDesc(x, s, key), key, v);
      { assert InsertDesc(x, s, key) == [s[0]] + rest; }
      WithKey([s[0]] + rest, key, v);
      { WithKeyCons(s[0], rest, key, v); }
      a + WithKey(rest, key, v);
      { SortedDescTail(s, key); WithKeyInsert(x, s[1..], key, v); }
      a + (w + b);
      (a + w) + b;
      { WithKeyCons(s[0], s[1..], key, v); assert [s[0]] + s[1..] == s; }
      WithKey(s, key, v) + b;
    }
  }

  /** Stability: among elements of equal key the sort keeps the input order. */
  lemma {:induction false} SortDescStable<T>(s: seq<T>, key: T -> int, v: int)
    ensures WithKey(SortDesc(s, key), key, v) == WithKey(s, key, v)
  {
    if s != [] {
      var init, last := s[..|s| - 1], s[|s| - 1];
      var b := if key(last) == v then [last] else [];
      calc {
        WithKey(SortDesc(s, key), key, v);
        WithKey(InsertDesc(last, SortDesc(init, key), key), key, v);
        { SortDescSorted(init, key); WithKeyInsert(last, SortDesc(init, key), key, v); }
        WithKey(SortDesc(init, key), key, v) + b;
        { SortDescStable(init, key, v); }
        WithKey(init, key, v) + b;
        { WithKeyCons(last, [], key, v); assert [last] + [] == [last]; }
        WithKey(init, key, v) + WithKey([last], key, v);
        { WithKeyAppend(init, [last], key, v); assert init + [last] == s; }
        WithKey(s, key, v);
      }
    }
  }

  /** No element occurs twice. */
  predicate NoDuplicates<T(==)>(s: seq<T>) {
    forall i, j :: 0 <= i < j < |s| ==> s[i] != s[j]
  }

  lemma {:induction false} InsertDescNoDuplicates<T>(x: T, s: seq<T>, key: T -> int)
    requires NoDuplicates(s) && x !in s
    ensures NoDuplicates(InsertDesc(x, s, key))
  {
    if s != [] && key(s[0]) >= key(x) {
      var rest := InsertDesc(x, s[1..], key);
      assert x !in s[1..] && NoDuplicates(s[1..]) by {
        forall i | 0 <= i < |s[1..]| ensures s[1..][i] == s[i + 1] { }
      }
      InsertDescNoDuplicates(x, s[1..], key);
      assert s[0] !in rest by {
        assert s[0] !in s[1..];
        assert multiset(rest) == multiset(s[1..]) + multiset{x};
        assert s[0] !in multiset(rest);
      }
      assert InsertDesc(x, s, key) == [s[0]] + rest;
    }
  }

  /** Sorting a sequence without duplicates gives one without duplicates. */
  lemma {:induction false} SortDescNoDuplicates<T>(s: seq<T>, key: T -> int)
    requires NoDuplicates(s)
    ensures NoDuplicates(SortDesc(s, key))
  {
    if s != [] {
      var init, last := s[..|s| - 1], s[|s| - 1];
      assert NoDuplicates(init) && last !in init by {
        forall i | 0 <= i < |init| ensures init[i] == s[i] { }
      }
      SortDescNoDuplicates(init, key);
      assert last !in multiset(SortDesc(init, key));
      InsertDescNoDuplicates(last, SortDesc(init, key), key);
    }
  }

  /** The first element of key `v` heads the elements of key `v`. */
  lemma {:induction false} FirstWithKey<T>(s: seq<T>, key: T -> int, v: int, j: nat)
    requires j < |s| && key(s[j]) == v
    requires forall i :: 0 <= i < j ==> key(s[i]) != v
    ensures WithKey(s, key, v) != [] && WithKey(s, key, v)[0] == s[j]
  {
    if j > 0 {
      FirstWithKey(s[1..], key, v, j - 1);
    }
  }

  /** A sequence whose elements have pairwise distinct images in `bound` is
      no longer than `bound` is large. */
  lemma {:induction false} DistinctImagesBounded<T, U>(s: seq<T>, f: T -> U, bound: set<U>)
    requires forall i :: 0 <= i < |s| ==> f(s[i]) in bound
    requires forall i, j :: 0 <= i < j < |s| ==> f(s[i]) != f(s[j])
    ensures |s| <= |bound|
  {
    if s != [] {
      var init, last := s[..|s| - 1], s[|s| - 1];
      forall i | 0 <= i < |init| ensures f(init[i]) in bound - {f(last)} {
        assert init[i] == s[i];
      }
      forall i, j | 0 <= i < j < |init| ensures f(init[i]) != f(init[j]) {
        assert init[i] == s[i] && init[j] == s[j];
      }
      DistinctImagesBounded(init, f, bound - {f(last)});
    }
  }
}

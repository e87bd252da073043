/**
 * Python's `list.sort` and `sorted` with a key: a stable sort. It is modelled
 * by an insertion sort that takes the elements in input order and inserts
 * each one after every element whose key is not larger, which is what makes
 * it stable.
 */
module Sorting {

  ghost predicate SortedBy<T>(s: seq<T>, key: T -> int)
  {
    forall i, j :: 0 <= i < j < |s| ==> key(s[i]) <= key(s[j])
  }

  /** Sorted by key, and among equal keys by the element itself (ints only). */
  ghost predicate SortedByThenValue(s: seq<int>, key: int -> int)
  {
    forall i, j :: 0 <= i < j < |s| ==>
      key(s[i]) < key(s[j]) || (key(s[i]) == key(s[j]) && s[i] < s[j])
  }

  ghost predicate StrictlyIncreasing(s: seq<int>)
  {
    forall i, j :: 0 <= i < j < |s| ==> s[i] < s[j]
  }

  /** Inserts x after every leading element whose key is at most key(x). */
  function InsertBy<T>(x: T, s: seq<T>, key: T -> int): (r: seq<T>)
    ensures |r| == |s| + 1
    ensures multiset(r) == multiset(s) + multiset{x}
  {
    if s == [] then [x]
    else if key(s[0]) <= key(x) then
      assert s == [s[0]] + s[1..];
      [s[0]] + InsertBy(x, s[1..], key)
    else [x] + s
  }

  lemma {:induction false} InsertBySorted<T>(x: T, s: seq<T>, key: T -> int)
    requires SortedBy(s, key)
    ensures SortedBy(InsertBy(x, s, key), key)
  {
    if s != [] && key(s[0]) <= key(x) {
      var tail := s[1..];
      var rest := InsertBy(x, tail, key);
      InsertBySorted(x, tail, key);
      InsertByFrom(x, tail, key);
      forall m | 0 <= m < |rest| ensures key(s[0]) <= key(rest[m]) {
        if rest[m] != x {
          var k :| 0 <= k < |tail| && tail[k] == rest[m];
          assert s[k + 1] == rest[m];
        }
      }
      PrependSorted(s[0], rest, key);
    }
  }

  /** Every element of the insertion result is x or comes from s. */
  lemma {:induction false} InsertByFrom<T>(x: T, s: seq<T>, key: T -> int)
    ensures forall m :: 0 <= m < |InsertBy(x, s, key)| ==>
      InsertBy(x, s, key)[m] == x || exists k :: 0 <= k < |s| && s[k] == InsertBy(x, s, key)[m]
  {
    if s != [] && key(s[0]) <= key(x) {
      InsertByFrom(x, s[1..], key);
      var r, rest := InsertBy(x, s, key), InsertBy(x, s[1..], key);
      forall m | 0 <= m < |r| && r[m] != x ensures exists k :: 0 <= k < |s| && s[k] == r[m] {
        if m == 0 {
          assert s[0] == r[m];
        } else {
          assert r[m] == rest[m - 1];
          var k :| 0 <= k < |s[1..]| && s[1..][k] == rest[m - 1];
          assert s[k + 1] == r[m];
        }
      }
    } else if s != [] {
      forall m | 0 <= m < |[x] + s| && ([x] + s)[m] != x ensures exists k :: 0 <= k < |s| && s[k] == ([x] + s)[m] {
        assert s[m - 1] == ([x] + s)[m];
      }
    }
  }

  lemma PrependSorted<T>(a: T, rest: seq<T>, key: T -> int)
    requires SortedBy(rest, key)
    requires forall m :: 0 <= m < |rest| ==> key(a) <= key(rest[m])
    ensures SortedBy([a] + rest, key)
  {
    var r := [a] + rest;
    forall i, j | 0 <= i < j < |r| ensures key(r[i]) <= key(r[j]) {
      assert r[j] == rest[j - 1];
      if i > 0 {
        assert r[i] == rest[i - 1];
      }
    }
  }

  /** The stable sort of s by key. */
  function SortBy<T>(s: seq<T>, key: T -> int): (r: seq<T>)
    ensures multiset(r) == multiset(s)
    ensures |r| == |s|
    ensures SortedBy(r, key)
  {
    if s == [] then []
    else
      assert s == s[..|s| - 1] + [s[|s| - 1]];
      var sortedInit := SortBy(s[..|s| - 1], key);
      InsertBySorted(s[|s| - 1], sortedInit, key);
      InsertBy(s[|s| - 1], sortedInit, key)
  }

  /** Ties-then-value order on two elements. */
  predicate Before(a: int, b: int, key: int -> int)
  {
    key(a) < key(b) || (key(a) == key(b) && a < b)
  }

  lemma PrependKeepsTies(a: int, rest: seq<int>, key: int -> int)
    requires SortedByThenValue(rest, key)
    requires forall m :: 0 <= m < |rest| ==> Before(a, rest[m], key)
    ensures SortedByThenValue([a] + rest, key)
  {
    var r := [a] + rest;
    forall i, j | 0 <= i < j < |r| ensures Before(r[i], r[j], key) {
      assert r[j] == rest[j - 1];
      if i > 0 {
        assert r[i] == rest[i - 1];
      }
    }
  }

  lemma {:induction false} InsertByKeepsTies(x: int, s: seq<int>, key: int -> int)
    requires SortedByThenValue(s, key)
    requires forall k :: 0 <= k < |s| ==> s[k] < x
    ensures SortedByThenValue(InsertBy(x, s, key), key)
  {
    if s != [] && key(s[0]) <= key(x) {
      var tail := s[1..];
      assert forall k :: 0 <= k < |tail| ==> tail[k] == s[k + 1];
      InsertByKeepsTies(x, tail, key);
      var rest := InsertBy(x, tail, key);
      InsertByFrom(x, tail, key);
      forall m | 0 <= m < |rest| ensures Before(s[0], rest[m], key) {
        if rest[m] != x {
          var k :| 0 <= k < |tail| && tail[k] == rest[m];
          assert s[k + 1] == rest[m];
        }
      }
      PrependKeepsTies(s[0], rest, key);
    }
  }

  /**
   * Sorting a strictly increasing sequence (such as `range(n)`) by a key
   * orders the result by key and breaks ties by the element itself: the
   * stability of the sort.
   */
  lemma {:induction false} SortByKeepsTies(s: seq<int>, key: int -> int)
    requires StrictlyIncreasing(s)
    ensures SortedByThenValue(SortBy(s, key), key)
  {
    if s != [] {
      var init := s[..|s| - 1];
      SortByKeepsTies(init, key);
      var r := SortBy(init, key);
      forall m | 0 <= m < |r| ensures r[m] < s[|s| - 1] {
        assert r[m] in multiset(init);
        var k :| 0 <= k < |init| && init[k] == r[m];
        assert s[k] == r[m];
      }
      InsertByKeepsTies(s[|s| - 1], r, key);
    }
  }

  /** The elements of s whose key is v, in their order in s. */
  function KeyFilter<T>(s: seq<T>, key: T -> int, v: int): (r: seq<T>)
    ensures forall m :: 0 <= m < |r| ==> key(r[m]) == v
  {
    if s == [] then [] else (if key(s[0]) == v then [s[0]] else []) + KeyFilter(s[1..], key, v)
  }

  lemma {:induction false} KeyFilterAppend<T>(a: seq<T>, b: seq<T>, key: T -> int, v: int)
    ensures KeyFilter(a + b, key, v) == KeyFilter(a, key, v) + KeyFilter(b, key, v)
  {
    if a != [] {
      assert (a + b)[0] == a[0];
      assert (a + b)[1..] == a[1..] + b;
      KeyFilterAppend(a[1..], b, key, v);
    } else {
      assert a + b == b;
    }
  }

  lemma {:induction false} KeyFilterNone<T>(s: seq<T>, key: T -> int, v: int)
    requires forall m :: 0 <= m < |s| ==> key(s[m]) != v
    ensures KeyFilter(s, key, v) == []
  {
    if s != [] {
      assert forall m :: 0 <= m < |s[1..]| ==> s[1..][m] == s[m + 1];
      KeyFilterNone(s[1..], key, v);
    }
  }

  /** Inserting x into a sorted sequence puts it after every element with its key. */
  lemma {:induction false} InsertByFilter<T>(x: T, s: seq<T>, key: T -> int, v: int)
    requires SortedBy(s, key)
    ensures KeyFilter(InsertBy(x, s, key), key, v) == KeyFilter(s, key, v) + if key(x) == v then [x] else []
  {
    var r := InsertBy(x, s, key);
    if s == [] {
    } else if key(s[0]) <= key(x) {
      var rest := InsertBy(x, s[1..], key);
      assert r[0] == s[0] && r[1..] == rest;
      InsertByFilter(x, s[1..], key, v);
    } else {
      assert r[0] == x && r[1..] == s;
      if key(x) == v {
        KeyFilterNone(s, key, v);
      }
    }
  }

  /**
   * The sort is stable: for every key value, the elements with that key come
   * out in the order they went in.
   */
  lemma {:induction false} SortByStable<T>(s: seq<T>, key: T -> int, v: int)
    ensures KeyFilter(SortBy(s, key), key, v) == KeyFilter(s, key, v)
  {
    if s != [] {
      var init, x := s[..|s| - 1], s[|s| - 1];
      assert s == init + [x];
      var sortedInit := SortBy(init, key);
      assert SortBy(s, key) == InsertBy(x, sortedInit, key);
      SortByStable(init, key, v);
      InsertByFilter(x, sortedInit, key, v);
      KeyFilterAppend(init, [x], key, v);
      assert KeyFilter([x], key, v) == if key(x) == v then [x] else [];
    }
  }

  /** The offsets 0 .. n-1 in ascending order, as `range(n)` gives them. */
  function Range(n: nat): (r: seq<int>)
    ensures |r| == n
    ensures forall i :: 0 <= i < n ==> r[i] == i
  {
    seq(n, i => i)
  }
}

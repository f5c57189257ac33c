/** Ordering of rows by a numeric key: JavaScript's stable
    `Array.prototype.sort` with a numeric comparator, and the database's
    `orderBy`, for which the stable order is one choice among the orders
    of rows with equal keys. */
module Sorting {

  /** `s` is in non-decreasing order of `key`. */
  ghost predicate SortedBy<T>(s: seq<T>, key: T -> real) {
    forall i, j :: 0 <= i < j < |s| ==> key(s[i]) <= key(s[j])
  }

  /** A sorted sequence stays sorted when an element no larger than all of
      its elements is put in front. */
  lemma SortedCons<T>(a: T, t: seq<T>, key: T -> real)
    requires SortedBy(t, key)
    requires forall y :: y in t ==> key(a) <= key(y)
    ensures SortedBy([a] + t, key)
  {
    var s := [a] + t;
    forall i, j | 0 <= i < j < |s| ensures key(s[i]) <= key(s[j]) {
      if i == 0 {
        assert s[j] == t[j - 1];
        assert s[j] in t;
      } else {
        assert s[i] == t[i - 1] && s[j] == t[j - 1];
      }
    }
  }

  /** The first element of a sorted sequence has the least key. */
  lemma SortedFirstIsLeast<T>(s: seq<T>, key: T -> real)
    requires SortedBy(s, key) && s != []
    ensures forall y :: y in s ==> key(s[0]) <= key(y)
    ensures forall y :: y in s[1..] ==> key(s[0]) <= key(y)
  {
    forall y | y in s ensures key(s[0]) <= key(y) {
      var k :| 0 <= k < |s| && s[k] == y;
      assert k == 0 || key(s[0]) <= key(s[k]);
    }
    forall y | y in s[1..] ensures y in s {
      var k :| 0 <= k < |s[1..]| && s[1..][k] == y;
      assert s[k + 1] == y;
    }
  }

  /** An element no larger than the head of a sorted sequence can be put
      in front of it. */
  lemma SortedFront<T>(x: T, s: seq<T>, key: T -> real)
    requires SortedBy(s, key)
    requires s == [] || key(x) <= key(s[0])
    ensures SortedBy([x] + s, key)
  {
    if s != [] {
      SortedFirstIsLeast(s, key);
    }
    SortedCons(x, s, key);
  }

  /** A bound on every element of `t` and on `x` bounds every element of
      a sequence holding exactly those. */
  lemma BoundOfMultiset<T>(h: T, t: seq<T>, x: T, rest: seq<T>, key: T -> real)
    requires forall y :: y in t ==> key(h) <= key(y)
    requires key(h) <= key(x)
    requires multiset(rest) == multiset(t) + multiset{x}
    ensures forall y :: y in rest ==> key(h) <= key(y)
  {
    forall y | y in rest ensures key(h) <= key(y) {
      assert y in multiset(rest);
      assert y in multiset(t) || y == x;
      assert y in multiset(t) ==> y in t;
    }
  }

  /** Inserts `x` in front of the first element whose key is not smaller. */
  function Insert<T>(x: T, s: seq<T>, key: T -> real): (r: seq<T>)
    requires SortedBy(s, key)
    ensures SortedBy(r, key)
    ensures multiset(r) == multiset(s) + multiset{x}
  {
    if s == [] || key(x) <= key(s[0]) then
      SortedFront(x, s, key);
      [x] + s
    else
      SortedFirstIsLeast(s, key);
      var rest := Insert(x, s[1..], key);
      assert s == [s[0]] + s[1..];
      BoundOfMultiset(s[0], s[1..], x, rest, key);
      SortedCons(s[0], rest, key);
      [s[0]] + rest
  }

  /** Stable insertion sort by `key`, ascending. */
  function SortBy<T>(s: seq<T>, key: T -> real): (r: seq<T>)
    ensures SortedBy(r, key)
    ensures multiset(r) == multiset(s)
    ensures |r| == |s|
  {
    if s == [] then []
    else
      assert s == [s[0]] + s[1..];
      Insert(s[0], SortBy(s[1..], key), key)
  }

  /** Sorting keeps exactly the elements it was given. */
  lemma SortByMembers<T>(s: seq<T>, key: T -> real)
    ensures forall x :: x in SortBy(s, key) <==> x in s
  {
    var r := SortBy(s, key);
    forall x ensures x in r <==> x in s {
      assert x in r <==> x in multiset(r);
      assert x in s <==> x in multiset(s);
    }
  }
}

/** `Array.prototype.sort` with a numeric comparator `(a, b) => key(a) - key(b)`.
    The sort is stable (ECMAScript 2019 and later), which the insertion sort
    below is too: an element is inserted in front of the first element whose
    key is not smaller, so equal keys keep their input order. */
module Sorting {

  ghost predicate SortedBy<T>(s: seq<T>, key: T -> int) {
    forall i, j :: 0 <= i < j < |s| ==> key(s[i]) <= key(s[j])
  }

  function Insert<T>(x: T, s: seq<T>, key: T -> int): (r: seq<T>)
    requires SortedBy(s, key)
    ensures SortedBy(r, key)
    ensures multiset(r) == multiset(s) + multiset{x}
    ensures |r| == |s| + 1
  {
    if |s| == 0 || key(x) <= key(s[0]) then [x] + s
    else
      var rest := Insert(x, s[1..], key);
      assert s == [s[0]] + s[1..];
      ConsSorted(s[0], rest, x, s[1..], key);
      [s[0]] + rest
  }

  lemma ConsSorted<T>(h: T, rest: seq<T>, x: T, tail: seq<T>, key: T -> int)
    requires SortedBy(rest, key)
    requires multiset(rest) == multiset(tail) + multiset{x}
    requires key(h) < key(x)
    requires forall y | y in tail :: key(h) <= key(y)
    ensures SortedBy([h] + rest, key)
  {
    forall j | 0 <= j < |rest|
      ensures key(h) <= key(rest[j])
    {
      assert rest[j] in multiset(rest);
    }
  }

  function SortBy<T>(s: seq<T>, key: T -> int): (r: seq<T>)
    ensures SortedBy(r, key)
    ensures multiset(r) == multiset(s)
    ensures |r| == |s|
  {
    if |s| == 0 then []
    else
      assert s == [s[0]] + s[1..];
      Insert(s[0], SortBy(s[1..], key), key)
  }

  /** The elements of `s` whose key is `k`, in their order in `s`. */
  function WithKey<T>(s: seq<T>, key: T -> int, k: int): (r: seq<T>)
    ensures |r| <= |s|
  {
    if |s| == 0 then [] else (if key(s[0]) == k then [s[0]] else []) + WithKey(s[1..], key, k)
  }

  lemma {:induction false} InsertWithKey<T>(x: T, s: seq<T>, key: T -> int, k: int)
    requires SortedBy(s, key)
    ensures WithKey(Insert(x, s, key), key, k) == (if key(x) == k then [x] else []) + WithKey(s, key, k)
  {
    if |s| == 0 || key(x) <= key(s[0]) {
      assert ([x] + s)[1..] == s;
    } else {
      var rest := Insert(x, s[1..], key);
      InsertWithKey(x, s[1..], key, k);
      assert ([s[0]] + rest)[1..] == rest;
    }
  }

  /** The sort is stable: elements with equal keys keep their input order. */
  lemma {:induction false} SortByStable<T>(s: seq<T>, key: T -> int, k: int)
    ensures WithKey(SortBy(s, key), key, k) == WithKey(s, key, k)
  {
    if |s| > 0 {
      SortByStable(s[1..], key, k);
      InsertWithKey(s[0], SortBy(s[1..], key), key, k);
    }
  }

  lemma SortByStableAll<T>(s: seq<T>, key: T -> int)
    ensures forall k :: WithKey(SortBy(s, key), key, k) == WithKey(s, key, k)
  {
    forall k
      ensures WithKey(SortBy(s, key), key, k) == WithKey(s, key, k)
    {
      SortByStable(s, key, k);
    }
  }

  /** Sorting keeps exactly the elements it was given. */
  lemma SortByMembers<T>(s: seq<T>, key: T -> int, x: T)
    ensures x in SortBy(s, key) <==> x in s
  {
    assert x in SortBy(s, key) <==> x in multiset(SortBy(s, key));
  }

  /** A projection that separates the elements of `s` also separates the
      elements of any permutation of `s`. */
  lemma {:induction false} PermutationKeepsDistinct<T, K>(s: seq<T>, r: seq<T>, f: T -> K)
    requires multiset(r) == multiset(s)
    requires forall i, j :: 0 <= i < j < |s| ==> f(s[i]) != f(s[j])
    ensures forall i, j :: 0 <= i < j < |r| ==> f(r[i]) != f(r[j])
  {
    forall i, j | 0 <= i < j < |r|
      ensures f(r[i]) != f(r[j])
    {
      if f(r[i]) == f(r[j]) {
        assert r[i] in multiset(s) && r[j] in multiset(s);
        var p :| 0 <= p < |s| && s[p] == r[i];
        var q :| 0 <= q < |s| && s[q] == r[j];
        if r[i] == r[j] {
          // r[i] occurs twice in r, hence twice in s: two positions with equal keys.
          TwoPositions(r, i, j);
          assert multiset(s)[s[p]] >= 2;
          var p' := OtherPosition(s, p);
          assert false;
        } else {
          assert false;
        }
      }
    }
  }

  /** A sorted sequence whose keys are pairwise distinct is strictly increasing. */
  lemma SortedDistinctIsStrict<T>(r: seq<T>, key: T -> int)
    requires SortedBy(r, key)
    requires forall i, j :: 0 <= i < j < |r| ==> key(r[i]) != key(r[j])
    ensures forall i, j :: 0 <= i < j < |r| ==> key(r[i]) < key(r[j])
  {
  }

  lemma TwoPositions<T>(r: seq<T>, i: int, j: int)
    requires 0 <= i < j < |r| && r[i] == r[j]
    ensures multiset(r)[r[i]] >= 2
  {
    var x := r[i];
    assert r == r[..i] + [x] + r[i + 1..j] + [x] + r[j + 1..];
    assert multiset(r) == multiset(r[..i]) + multiset{x} + multiset(r[i + 1..j]) + multiset{x} + multiset(r[j + 1..]);
  }

  /** An element occurring at least twice occurs at a second position. */
  lemma OtherPosition<T>(s: seq<T>, p: int) returns (p': int)
    requires 0 <= p < |s| && multiset(s)[s[p]] >= 2
    ensures 0 <= p' < |s| && p' != p && s[p'] == s[p]
  {
    var x := s[p];
    assert s == s[..p] + [x] + s[p + 1..];
    assert multiset(s) == multiset(s[..p]) + multiset{x} + multiset(s[p + 1..]);
    if x in s[..p] {
      var k :| 0 <= k < p && s[..p][k] == x;
      p' := k;
    } else {
      assert x in multiset(s[p + 1..]);
      var k :| 0 <= k < |s[p + 1..]| && s[p + 1..][k] == x;
      p' := p + 1 + k;
    }
  }
}

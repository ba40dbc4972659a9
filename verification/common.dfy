/** Shared building blocks: optional values, results, bytes, and the few
    sequence operations the application code performs with `Array.prototype`
    methods (`filter`, `includes`, `new Set(...)`). */
module Common {

  datatype Option<+T> = None | Some(value: T) {
    function GetOr(default: T): T {
      match this
      case Some(v) => v
      case None => default
    }
  }

  datatype Result<+T, +E> = Ok(value: T) | Err(error: E)

  newtype byte = b: int | 0 <= b < 256

  /** JavaScript `t || d` on an optional millisecond timestamp: a missing
      timestamp and the timestamp 0 are both falsy and yield `d`. */
  function TimeOr(t: Option<int>, d: int): (r: int)
    ensures t.Some? && t.value != 0 ==> r == t.value
    ensures (t.None? || t.value == 0) ==> r == d
  {
    if t.Some? && t.value != 0 then t.value else d
  }

  /** JavaScript `s || d` on an optional string: the empty string is falsy. */
  function TextOr(s: Option<string>, d: Option<string>): (r: Option<string>)
    ensures s.Some? && s.value != "" ==> r == s
    ensures (s.None? || s.value == "") ==> r == d
  {
    if s.Some? && s.value != "" then s else d
  }

  /** A JavaScript value that is a non-empty string (a truthy string). */
  predicate Truthy(s: Option<string>) {
    s.Some? && s.value != ""
  }

  predicate NoDups<T(==)>(s: seq<T>) {
    forall i, j :: 0 <= i < j < |s| ==> s[i] != s[j]
  }

  /** `s.filter(p)`: keeps, in order, the elements satisfying `p`. */
  function Filter<T>(p: T -> bool, s: seq<T>): (r: seq<T>)
    ensures |r| <= |s|
    ensures forall x | x in r :: x in s && p(x)
    ensures forall x | x in s && p(x) :: x in r
    ensures forall i :: 0 <= i < |r| ==> p(r[i])
  {
    if |s| == 0 then []
    else (if p(s[0]) then [s[0]] else []) + Filter(p, s[1..])
  }

  lemma {:induction false} FilterConcat<T>(p: T -> bool, a: seq<T>, b: seq<T>)
    ensures Filter(p, a + b) == Filter(p, a) + Filter(p, b)
  {
    if |a| > 0 {
      assert (a + b)[1..] == a[1..] + b;
      FilterConcat(p, a[1..], b);
    } else {
      assert a + b == b;
    }
  }

  /** Filtering keeps a sequence whose every element passes. */
  lemma {:induction false} FilterKeepsAll<T>(p: T -> bool, s: seq<T>)
    requires forall i :: 0 <= i < |s| ==> p(s[i])
    ensures Filter(p, s) == s
  {
    if |s| > 0 {
      FilterKeepsAll(p, s[1..]);
    }
  }

  /** Filtering drops a sequence whose every element fails. */
  lemma {:induction false} FilterDropsAll<T>(p: T -> bool, s: seq<T>)
    requires forall i :: 0 <= i < |s| ==> !p(s[i])
    ensures Filter(p, s) == []
  {
    if |s| > 0 {
      FilterDropsAll(p, s[1..]);
    }
  }

  /** The first element a filter keeps is the first element of the input
      that passes. */
  lemma {:induction false} FilterHead<T>(p: T -> bool, s: seq<T>)
    ensures forall i | 0 <= i < |s| && p(s[i]) && (forall j | 0 <= j < i :: !p(s[j])) ::
      |Filter(p, s)| > 0 && Filter(p, s)[0] == s[i]
  {
    if |s| > 0 {
      FilterHead(p, s[1..]);
      forall i | 0 <= i < |s| && p(s[i]) && (forall j | 0 <= j < i :: !p(s[j]))
        ensures |Filter(p, s)| > 0 && Filter(p, s)[0] == s[i]
      {
        if i > 0 {
          assert !p(s[0]);
          assert Filter(p, s) == Filter(p, s[1..]);
          assert s[1..][i - 1] == s[i];
          forall j | 0 <= j < i - 1
            ensures !p(s[1..][j])
          {
            assert s[1..][j] == s[j + 1];
          }
        }
      }
    }
  }

  /** A coarser filter applied first changes nothing. */
  lemma {:induction false} FilterFilter<T>(p: T -> bool, q: T -> bool, s: seq<T>)
    requires forall i :: 0 <= i < |s| ==> p(s[i]) ==> q(s[i])
    ensures Filter(p, Filter(q, s)) == Filter(p, s)
  {
    if |s| > 0 {
      FilterFilter(p, q, s[1..]);
      var x := Filter(q, s);
      if q(s[0]) {
        assert x == [s[0]] + Filter(q, s[1..]);
        assert x[0] == s[0] && x[1..] == Filter(q, s[1..]);
      } else {
        assert x == Filter(q, s[1..]);
      }
    }
  }

  /** Filtering twice with the same predicate is filtering once. */
  lemma FilterIdempotent<T>(p: T -> bool, s: seq<T>)
    ensures Filter(p, Filter(p, s)) == Filter(p, s)
  {
    FilterFilter(p, p, s);
  }

  /** `s.filter(x => x !== v)`: every occurrence of `v` goes, nothing else does. */
  function RemoveAll<T(==)>(s: seq<T>, v: T): (r: seq<T>)
    ensures |r| <= |s|
    ensures forall x | x in r :: x in s && x != v
    ensures forall x | x in s && x != v :: x in r
    ensures NoDups(s) ==> NoDups(r)
  {
    if |s| == 0 then []
    else if s[0] == v then RemoveAll(s[1..], v)
    else
      var rest := RemoveAll(s[1..], v);
      NoDupsCons(s[0], rest);
      [s[0]] + rest
  }

  /** Removing an element that was appended last gives back the list before it. */
  lemma {:induction false} RemoveAllSnoc<T>(s: seq<T>, x: T)
    requires x !in s
    ensures RemoveAll(s + [x], x) == s
  {
    if |s| == 0 {
      assert [x][1..] == [];
    } else {
      assert (s + [x])[1..] == s[1..] + [x];
      RemoveAllSnoc(s[1..], x);
      assert s == [s[0]] + s[1..];
    }
  }

  /** `Array.from(new Set(s))`: the first occurrence of each element, in order. */
  function Dedup<T(==)>(s: seq<T>): (r: seq<T>)
    ensures NoDups(r)
    ensures forall x | x in r :: x in s
    ensures forall x | x in s :: x in r
    ensures |r| <= |s|
  {
    if |s| == 0 then []
    else
      var rest := RemoveAll(Dedup(s[1..]), s[0]);
      NoDupsCons(s[0], rest);
      [s[0]] + rest
  }

  /** Prepending an element absent from a duplicate-free sequence keeps it duplicate-free. */
  lemma NoDupsCons<T>(x: T, s: seq<T>)
    ensures NoDups(s) && x !in s ==> NoDups([x] + s)
  {
    forall i, j | NoDups(s) && x !in s && 0 <= i < j < |[x] + s|
      ensures ([x] + s)[i] != ([x] + s)[j]
    {
      if i > 0 {
        assert ([x] + s)[i] == s[i - 1];
      }
    }
  }

  /** Number of occurrences of `x` in `s`. */
  function Count<T(==)>(s: seq<T>, x: T): (n: nat)
    ensures n <= |s|
    ensures n == 0 <==> x !in s
  {
    if |s| == 0 then 0 else (if s[0] == x then 1 else 0) + Count(s[1..], x)
  }

  /** Index of the first occurrence of `x` in `s`, or -1 (`Array.prototype.indexOf`). */
  function IndexOf<T(==)>(s: seq<T>, x: T): (i: int)
    ensures -1 <= i < |s|
    ensures i == -1 <==> x !in s
    ensures 0 <= i ==> s[i] == x && x !in s[..i]
  {
    if |s| == 0 then -1
    else if s[0] == x then 0
    else var j := IndexOf(s[1..], x); if j == -1 then -1 else j + 1
  }

  /** The first `n` elements (JavaScript `history.length = n` truncation). */
  function Take<T>(s: seq<T>, n: nat): (r: seq<T>)
    ensures |r| == if |s| <= n then |s| else n
    ensures forall i :: 0 <= i < |r| ==> r[i] == s[i]
  {
    if |s| <= n then s else s[..n]
  }

  /** A duplicate-free sequence is as long as the set of its elements. */
  lemma {:induction false} NoDupsCard<T>(s: seq<T>)
    requires NoDups(s)
    ensures |set x | x in s| == |s|
  {
    if |s| > 0 {
      var rest := set x | x in s[1..];
      NoDupsCard(s[1..]);
      assert (set x | x in s) == rest + {s[0]};
      assert s[0] !in rest;
    } else {
      assert (set x | x in s) == {};
    }
  }
}

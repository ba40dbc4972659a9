/** An insertion-ordered dictionary: a JavaScript `Map`, or a plain object
    with string keys, as the sequence of its entries. Assigning to a key that
    is present replaces the value in place; assigning to a new key appends an
    entry. This is the iteration order `Map.prototype.values`,
    `Object.keys` and `Object.values` expose. */
module Dict {
  import opened Common

  type Dict<K, V> = seq<(K, V)>

  function Keys<K, V>(d: Dict<K, V>): (ks: seq<K>)
    ensures |ks| == |d|
    ensures forall i :: 0 <= i < |d| ==> ks[i] == d[i].0
  {
    seq(|d|, i requires 0 <= i < |d| => d[i].0)
  }

  function Values<K, V>(d: Dict<K, V>): (vs: seq<V>)
    ensures |vs| == |d|
    ensures forall i :: 0 <= i < |d| ==> vs[i] == d[i].1
  {
    seq(|d|, i requires 0 <= i < |d| => d[i].1)
  }

  /** No key occurs twice, as in every JavaScript object or `Map`. */
  predicate Wf<K(==), V>(d: Dict<K, V>) {
    NoDups(Keys(d))
  }

  /** `d.get(k)` / `d[k]`: the value of the first entry with key `k`. */
  function Get<K(==), V>(d: Dict<K, V>, k: K): (r: Option<V>)
    ensures r.Some? <==> k in Keys(d)
    ensures r.Some? ==> (k, r.value) in d
  {
    var i := IndexOf(Keys(d), k);
    if i == -1 then None else Some(d[i].1)
  }

  /** `d.set(k, v)` / `d[k] = v`: replaces in place, or appends. */
  function Put<K(==), V>(d: Dict<K, V>, k: K, v: V): (r: Dict<K, V>)
    ensures Keys(r) == if k in Keys(d) then Keys(d) else Keys(d) + [k]
    ensures Wf(d) ==> Wf(r)
  {
    var i := IndexOf(Keys(d), k);
    if i == -1 then
      var r := d + [(k, v)];
      assert Keys(r) == Keys(d) + [k];
      NoDupsSnoc(Keys(d), k);
      r
    else
      var r := d[i := (k, v)];
      assert Keys(r) == Keys(d);
      r
  }

  lemma NoDupsSnoc<T>(s: seq<T>, x: T)
    ensures NoDups(s) && x !in s ==> NoDups(s + [x])
  {
  }

  lemma IndexOfSnoc<T>(s: seq<T>, x: T, y: T)
    requires x !in s
    ensures IndexOf(s + [x], y) == if y in s then IndexOf(s, y) else if y == x then |s| else -1
  {
    if y in s {
      var j := IndexOf(s, y);
      assert (s + [x])[..j] == s[..j];
      IndexOfUnique(s + [x], y, j);
    } else if y == x {
      assert (s + [x])[..|s|] == s;
      IndexOfUnique(s + [x], y, |s|);
    }
  }

  /** The first position holding `y` is what `IndexOf` returns. */
  lemma IndexOfUnique<T>(s: seq<T>, y: T, j: int)
    requires 0 <= j < |s| && s[j] == y && y !in s[..j]
    ensures IndexOf(s, y) == j
  {
  }

  /** Reading a key back after `Put`. */
  lemma GetPut<K, V>(d: Dict<K, V>, k: K, v: V, k': K)
    ensures Get(Put(d, k, v), k') == if k' == k then Some(v) else Get(d, k')
  {
    var i := IndexOf(Keys(d), k);
    if i == -1 {
      IndexOfSnoc(Keys(d), k, k');
      assert Keys(Put(d, k, v)) == Keys(d) + [k];
    } else {
      assert Keys(Put(d, k, v)) == Keys(d);
    }
  }

  /** A second write to the same key undoes the first. */
  lemma PutPut<K, V>(d: Dict<K, V>, k: K, v: V, w: V)
    ensures Put(Put(d, k, v), k, w) == Put(d, k, w)
  {
    var i := IndexOf(Keys(d), k);
    if i == -1 {
      assert Keys(Put(d, k, v)) == Keys(d) + [k];
      IndexOfSnoc(Keys(d), k, k);
    } else {
      assert Keys(Put(d, k, v)) == Keys(d);
    }
  }

  /** In a well-formed dictionary, each entry is what its key reads back. */
  lemma GetAt<K, V>(d: Dict<K, V>, i: int)
    requires Wf(d) && 0 <= i < |d|
    ensures Get(d, d[i].0) == Some(d[i].1)
  {
    assert Keys(d)[..i] == Keys(d[..i]);
    IndexOfUnique(Keys(d), d[i].0, i);
  }

  /** `s.forEach(x => d.set(key(x), x))`. */
  function PutAll<K(==), V>(d: Dict<K, V>, s: seq<V>, key: V -> K): (r: Dict<K, V>)
    ensures Wf(d) ==> Wf(r)
    decreases |s|
  {
    if |s| == 0 then d else PutAll(Put(d, key(s[0]), s[0]), s[1..], key)
  }

  /** The last element of `s` whose key is `k`: the one a run of `set`s leaves behind. */
  function LastWithKey<K(==), V>(s: seq<V>, key: V -> K, k: K): (r: Option<V>)
    ensures r.Some? ==> r.value in s && key(r.value) == k
    ensures r.None? ==> forall i :: 0 <= i < |s| ==> key(s[i]) != k
  {
    if |s| == 0 then None
    else
      var rest := LastWithKey(s[1..], key, k);
      if rest.Some? then rest else if key(s[0]) == k then Some(s[0]) else None
  }

  /** After `PutAll`, a key reads back the last element of `s` carrying it,
      or its old value when no element of `s` carries it. */
  lemma {:induction false} GetPutAll<K, V>(d: Dict<K, V>, s: seq<V>, key: V -> K, k: K)
    ensures Get(PutAll(d, s, key), k)
         == if LastWithKey(s, key, k).Some? then LastWithKey(s, key, k) else Get(d, k)
    decreases |s|
  {
    if |s| > 0 {
      GetPutAll(Put(d, key(s[0]), s[0]), s[1..], key, k);
      GetPut(d, key(s[0]), s[0], k);
    }
  }

  /** Each entry is stored under the key `key` computes from its value, as
      in `map.set(key(x), x)`. */
  predicate KeyedBy<K(==), V>(d: Dict<K, V>, key: V -> K) {
    forall i :: 0 <= i < |d| ==> d[i].0 == key(d[i].1)
  }

  lemma PutKeyed<K, V>(d: Dict<K, V>, v: V, key: V -> K)
    requires KeyedBy(d, key)
    ensures KeyedBy(Put(d, key(v), v), key)
  {
  }

  lemma {:induction false} PutAllKeyed<K, V>(d: Dict<K, V>, s: seq<V>, key: V -> K)
    requires KeyedBy(d, key)
    ensures KeyedBy(PutAll(d, s, key), key)
    decreases |s|
  {
    if |s| > 0 {
      PutKeyed(d, s[0], key);
      PutAllKeyed(Put(d, key(s[0]), s[0]), s[1..], key);
    }
  }

  /** In a well-formed keyed dictionary, a value is stored exactly when its
      key reads it back. */
  lemma ValuesMember<K, V>(d: Dict<K, V>, key: V -> K, v: V)
    requires Wf(d) && KeyedBy(d, key)
    ensures v in Values(d) <==> Get(d, key(v)) == Some(v)
  {
    if v in Values(d) {
      var i :| 0 <= i < |d| && Values(d)[i] == v;
      GetAt(d, i);
    }
    if Get(d, key(v)) == Some(v) {
      var i :| 0 <= i < |d| && d[i] == (key(v), v);
      assert Values(d)[i] == v;
    }
  }

  /** The values of a well-formed keyed dictionary have pairwise distinct keys. */
  lemma KeyedDistinct<K, V>(d: Dict<K, V>, key: V -> K)
    requires Wf(d) && KeyedBy(d, key)
    ensures forall i, j :: 0 <= i < j < |Values(d)| ==> key(Values(d)[i]) != key(Values(d)[j])
  {
    forall i, j | 0 <= i < j < |Values(d)|
      ensures key(Values(d)[i]) != key(Values(d)[j])
    {
      assert Keys(d)[i] == key(Values(d)[i]) && Keys(d)[j] == key(Values(d)[j]);
    }
  }

  /** Reading a dictionary whose first entry is `(k, v)`. */
  lemma GetCons<K, V>(k: K, v: V, rest: Dict<K, V>, k': K)
    requires Wf([(k, v)] + rest)
    ensures Get([(k, v)] + rest, k') == if k' == k then Some(v) else Get(rest, k')
    ensures Wf(rest) && k !in Keys(rest)
  {
    KeysCons(k, v, rest);
    var ks := Keys(rest);
    forall i, j | 0 <= i < j < |ks|
      ensures ks[i] != ks[j]
    {
      assert ([k] + ks)[i + 1] != ([k] + ks)[j + 1];
    }
    if k' != k && k' in ks {
      GetConsLater(k, v, rest, k');
    }
  }

  lemma KeysCons<K, V>(k: K, v: V, rest: Dict<K, V>)
    ensures Keys([(k, v)] + rest) == [k] + Keys(rest)
  {
  }

  lemma GetConsLater<K, V>(k: K, v: V, rest: Dict<K, V>, k': K)
    requires Keys([(k, v)] + rest) == [k] + Keys(rest)
    requires k' != k && k' in Keys(rest)
    ensures Get([(k, v)] + rest, k') == Get(rest, k')
  {
    var d := [(k, v)] + rest;
    var j := IndexOf(Keys(rest), k');
    assert Keys(d)[..j + 1] == [k] + Keys(rest)[..j];
    IndexOfUnique(Keys(d), k', j + 1);
  }

  /** A key is present after `PutAll` exactly when it was before or some element carries it. */
  lemma KeysPutAll<K, V>(d: Dict<K, V>, s: seq<V>, key: V -> K, k: K)
    ensures k in Keys(PutAll(d, s, key)) <==> k in Keys(d) || exists i :: 0 <= i < |s| && key(s[i]) == k
  {
    GetPutAll(d, s, key, k);
  }

  /** Elements whose keys are pairwise distinct and all new each add one entry. */
  lemma {:induction false} PutAllFresh<K, V>(d: Dict<K, V>, s: seq<V>, key: V -> K)
    requires forall i, j :: 0 <= i < j < |s| ==> key(s[i]) != key(s[j])
    requires forall i :: 0 <= i < |s| ==> key(s[i]) !in Keys(d)
    ensures |PutAll(d, s, key)| == |d| + |s|
    decreases |s|
  {
    if |s| > 0 {
      var d' := Put(d, key(s[0]), s[0]);
      assert Keys(d') == Keys(d) + [key(s[0])];
      forall i | 0 <= i < |s[1..]|
        ensures key(s[1..][i]) !in Keys(d')
      {
        assert s[1..][i] == s[i + 1];
      }
      PutAllFresh(d', s[1..], key);
    }
  }

  /** Every key of the dictionary, as a set. */
  function KeySet<K, V>(d: Dict<K, V>): set<K> {
    set i | 0 <= i < |d| :: d[i].0
  }

  lemma KeySetMember<K, V>(d: Dict<K, V>, k: K)
    ensures k in KeySet(d) <==> k in Keys(d)
  {
    if k in Keys(d) {
      var i :| 0 <= i < |Keys(d)| && Keys(d)[i] == k;
      assert d[i].0 == k;
    }
  }

  /** Two dictionaries hold the same keys with the same values (order aside). */
  ghost predicate SameContent<K(!new), V(!new)>(a: Dict<K, V>, b: Dict<K, V>) {
    forall k :: Get(a, k) == Get(b, k)
  }
}

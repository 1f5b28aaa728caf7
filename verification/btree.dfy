/** `BTreeMap<Bytes, V>`: a map with byte-string keys whose iteration order is
    the lexicographic key order. It is represented by its entries in that
    order, so `values()` is a plain projection. */
module BTree {
  import opened Bytes
  import opened Wrappers
  import Lex

  datatype Entry<V> = Entry(key: Bytes, value: V)

  /** The entries of a `BTreeMap<Bytes, V>`, in iteration order. */
  type BTreeMap<V> = seq<Entry<V>>

  /** `BTreeMap::new()`. */
  function Empty<V>(): BTreeMap<V> {
    []
  }

  /** Keys strictly increase: each key occurs once and iteration follows
      the key order. */
  ghost predicate Valid<V>(m: BTreeMap<V>) {
    forall i, j :: 0 <= i < j < |m| ==> Lex.Lt(m[i].key, m[j].key)
  }

  /** `m.get(&k).cloned()`. */
  function Get<V>(m: BTreeMap<V>, k: Bytes): (r: Option<V>)
    ensures r.None? <==> forall i :: 0 <= i < |m| ==> m[i].key != k
    ensures r.Some? ==> exists i :: 0 <= i < |m| && m[i] == Entry(k, r.value)
  {
    if |m| == 0 then None
    else if m[0].key == k then Some(m[0].value)
    else
      var r := Get(m[1..], k);
      assert forall i :: 0 < i < |m| ==> m[i] == m[1..][i - 1];
      r
  }

  /** In a valid map every entry is what `get` returns for its key. */
  lemma GetEntry<V>(m: BTreeMap<V>, i: nat)
    requires Valid(m) && i < |m|
    ensures Get(m, m[i].key) == Some(m[i].value)
  {
  }

  /** `m.values()`: the values in key order. */
  function Values<V>(m: BTreeMap<V>): (r: seq<V>)
    ensures |r| == |m|
    ensures forall i :: 0 <= i < |m| ==> r[i] == m[i].value
  {
    seq(|m|, i requires 0 <= i < |m| => m[i].value)
  }

  /** `m.keys()`: the keys in iteration order. */
  function Keys<V>(m: BTreeMap<V>): (r: seq<Bytes>)
    ensures |r| == |m|
    ensures forall i :: 0 <= i < |m| ==> r[i] == m[i].key
  {
    seq(|m|, i requires 0 <= i < |m| => m[i].key)
  }

  /** `keys()` lists exactly the keys `get` finds something under. */
  lemma KeysMatchGet<V>(m: BTreeMap<V>)
    ensures forall k :: Get(m, k).Some? <==> k in Keys(m)
  {
  }

  /** `values()` lists, position by position, what `get` returns for the
      keys in iteration order, and lists every value `get` can return. */
  lemma ValuesMatchKeys<V>(m: BTreeMap<V>)
    requires Valid(m)
    ensures forall i :: 0 <= i < |m| ==> Get(m, m[i].key) == Some(Values(m)[i])
    ensures forall k :: Get(m, k).Some? ==> Get(m, k).value in Values(m)
  {
    forall i | 0 <= i < |m|
      ensures Get(m, m[i].key) == Some(Values(m)[i])
    {
      GetEntry(m, i);
    }
    forall k | Get(m, k).Some?
      ensures Get(m, k).value in Values(m)
    {
      var i :| 0 <= i < |m| && m[i] == Entry(k, Get(m, k).value);
      assert Values(m)[i] == Get(m, k).value;
    }
  }

  /** A key below the first key of a valid map is below every key. */
  lemma BelowFirst<V>(m: BTreeMap<V>, k: Bytes)
    requires Valid(m) && |m| > 0 && Lex.Lt(k, m[0].key)
    ensures forall i :: 0 <= i < |m| ==> Lex.Lt(k, m[i].key)
  {
    forall i | 0 < i < |m|
      ensures Lex.Lt(k, m[i].key)
    {
      Lex.LtTransitive(k, m[0].key, m[i].key);
    }
  }

  /** `r` is `m` after `m.insert(k, v)`: still a valid map, `k` now holds
      `v`, every other key holds what it held, one entry more exactly when
      `k` was new, and no entry appears that was not there or is not `k`'s. */
  ghost predicate InsertedFrom<V>(m: BTreeMap<V>, k: Bytes, v: V, r: BTreeMap<V>) {
    && Valid(r)
    && Get(r, k) == Some(v)
    && (forall k' :: k' != k ==> Get(r, k') == Get(m, k'))
    && |r| == (if Get(m, k).Some? then |m| else |m| + 1)
    && (forall i :: 0 <= i < |r| ==> r[i].key == k || r[i] in m)
  }

  lemma ReplaceFirst<V>(m: BTreeMap<V>, k: Bytes, v: V)
    requires Valid(m) && |m| > 0 && m[0].key == k
    ensures InsertedFrom(m, k, v, [Entry(k, v)] + m[1..])
  {
  }

  lemma PrependBelowFirst<V>(m: BTreeMap<V>, k: Bytes, v: V)
    requires Valid(m) && |m| > 0 && Lex.Lt(k, m[0].key)
    ensures InsertedFrom(m, k, v, [Entry(k, v)] + m)
  {
    BelowFirst(m, k);
    var r := [Entry(k, v)] + m;
    assert forall i :: 0 < i < |r| ==> r[i] == m[i - 1];
    assert r[1..] == m;
  }

  lemma KeepFirst<V>(m: BTreeMap<V>, k: Bytes, v: V, rest: BTreeMap<V>)
    requires Valid(m) && |m| > 0 && Lex.Lt(m[0].key, k)
    requires InsertedFrom(m[1..], k, v, rest)
    ensures InsertedFrom(m, k, v, [m[0]] + rest)
  {
    var r := [m[0]] + rest;
    assert forall i :: 0 < i < |m| ==> m[i] == m[1..][i - 1];
    assert forall i :: 0 < i < |r| ==> r[i] == rest[i - 1];
    assert r[1..] == rest;
    assert m[0].key != k && Get(m, k) == Get(m[1..], k);
    forall i | 0 <= i < |rest|
      ensures Lex.Lt(m[0].key, rest[i].key)
    {
      if rest[i].key != k {
        var j :| 0 <= j < |m[1..]| && m[1..][j] == rest[i];
      }
    }
  }

  /** `m.insert(k, v)`: adds the entry, or replaces the value of an
      existing key in place. */
  function Insert<V>(m: BTreeMap<V>, k: Bytes, v: V): (r: BTreeMap<V>)
    requires Valid(m)
    ensures InsertedFrom(m, k, v, r)
  {
    if |m| == 0 then [Entry(k, v)]
    else if m[0].key == k then
      ReplaceFirst(m, k, v);
      [Entry(k, v)] + m[1..]
    else if Lex.Lt(k, m[0].key) then
      PrependBelowFirst(m, k, v);
      [Entry(k, v)] + m
    else
      Lex.LtTrichotomy(k, m[0].key);
      var rest := Insert(m[1..], k, v);
      KeepFirst(m, k, v, rest);
      [m[0]] + rest
  }
}

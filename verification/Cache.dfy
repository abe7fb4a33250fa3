/** The least-recently-used cache of `createCache` (`src/lib/utils.js`).
    A JavaScript `Map` iterates in insertion order, and the cache re-inserts a
    key on every hit, so the entry sequence below runs from least to most
    recently used. */
module Cache {
  import opened Js

  datatype Cache<K, V> = Cache(entries: seq<(K, V)>, maxSize: int)

  /** `createCache(maxSize)`. */
  function Create<K, V>(maxSize: int): (c: Cache<K, V>)
    ensures |c.entries| == 0 && c.maxSize == maxSize
  {
    Cache([], maxSize)
  }

  function KeysOf<K, V>(es: seq<(K, V)>): (ks: seq<K>)
    ensures |ks| == |es|
    ensures forall i :: 0 <= i < |es| ==> ks[i] == es[i].0
  {
    if |es| == 0 then [] else [es[0].0] + KeysOf(es[1..])
  }

  /** A `Map` holds each key at most once. */
  ghost predicate DistinctKeys<K, V>(es: seq<(K, V)>) {
    forall i, j :: 0 <= i < j < |es| ==> es[i].0 != es[j].0
  }

  predicate Has<K(==), V>(c: Cache<K, V>, k: K) {
    k in KeysOf(c.entries)
  }

  /** The value stored under `k`, if any. */
  function Lookup<K(==), V>(es: seq<(K, V)>, k: K): (r: Option<V>)
    ensures r.None? <==> k !in KeysOf(es)
    ensures r.Some? ==> (k, r.value) in es
  {
    if |es| == 0 then None
    else if es[0].0 == k then Some(es[0].1)
    else Lookup(es[1..], k)
  }

  function KeyIsNot<K(==), V>(k: K): ((K, V)) -> bool {
    (e: (K, V)) => e.0 != k
  }

  /** `cache.delete(k)`. */
  function Delete<K(==), V>(es: seq<(K, V)>, k: K): (r: seq<(K, V)>)
    ensures k !in KeysOf(r)
  {
    DeleteLookup(es, k);
    Filter(es, KeyIsNot(k))
  }

  lemma {:induction false} DeleteLookup<K, V>(es: seq<(K, V)>, k: K)
    ensures k !in KeysOf(Filter(es, KeyIsNot(k)))
    ensures forall j :: j != k ==> Lookup(Filter(es, KeyIsNot(k)), j) == Lookup(es, j)
  {
    if |es| > 0 {
      DeleteLookup(es[1..], k);
    }
  }

  lemma {:induction false} AppendLookup<K, V>(es: seq<(K, V)>, k: K, v: V)
    requires k !in KeysOf(es)
    ensures Lookup(es + [(k, v)], k) == Some(v)
    ensures forall j :: j != k ==> Lookup(es + [(k, v)], j) == Lookup(es, j)
    ensures KeysOf(es + [(k, v)]) == KeysOf(es) + [k]
  {
    if |es| > 0 {
      assert (es + [(k, v)])[1..] == es[1..] + [(k, v)];
      AppendLookup(es[1..], k, v);
    } else {
      assert es + [(k, v)] == [(k, v)];
    }
  }

  lemma {:induction false} DeleteKeys<K, V>(es: seq<(K, V)>, k: K)
    requires DistinctKeys(es)
    ensures DistinctKeys(Delete(es, k))
    ensures |Delete(es, k)| == (if k in KeysOf(es) then |es| - 1 else |es|)
    ensures forall j :: j in KeysOf(Delete(es, k)) <==> j in KeysOf(es) && j != k
  {
    if |es| > 0 {
      DeleteKeys(es[1..], k);
      assert Delete(es, k) == Filter(es, KeyIsNot(k));
      if es[0].0 == k {
        assert k !in KeysOf(es[1..]);
        FilterAll(es[1..], KeyIsNot(k));
      }
    }
  }

  /** `get(k)`: the stored value and the cache with `k` moved to the most recent
      position, or `null` and the cache untouched. */
  function Get<K(==), V>(c: Cache<K, V>, k: K): (r: (Cache<K, V>, Option<V>))
    ensures r.1 == Lookup(c.entries, k)
    ensures r.1.None? ==> r.0 == c
    ensures r.1.Some? ==> r.0.entries == Delete(c.entries, k) + [(k, r.1.value)]
    ensures r.0.maxSize == c.maxSize
  {
    match Lookup(c.entries, k)
    case None => (c, None)
    case Some(v) => (c.(entries := Delete(c.entries, k) + [(k, v)]), Some(v))
  }

  /** `set(k, v)`: replace and refresh an existing key; otherwise, when the
      cache is full, evict the least recently used key first. */
  function Set<K(==), V>(c: Cache<K, V>, k: K, v: V): (r: Cache<K, V>)
    ensures r.maxSize == c.maxSize
    ensures |r.entries| > 0 && r.entries[|r.entries| - 1] == (k, v)
  {
    var kept :=
      if Has(c, k) then Delete(c.entries, k)
      else if |c.entries| >= c.maxSize && |c.entries| > 0 then Delete(c.entries, c.entries[0].0)
      else c.entries;
    c.(entries := kept + [(k, v)])
  }

  /** `clear()`. */
  function Clear<K, V>(c: Cache<K, V>): (r: Cache<K, V>)
    ensures |r.entries| == 0 && r.maxSize == c.maxSize
  {
    c.(entries := [])
  }

  /** `size()`. */
  function Size<K, V>(c: Cache<K, V>): nat {
    |c.entries|
  }

  // ---------------------------------------------------------------------------
  // Properties

  /** The cache invariant: each key once, and never more entries than the
      bound (a bound below 1 still admits the one entry just set). */
  ghost predicate Valid<K, V>(c: Cache<K, V>) {
    && DistinctKeys(c.entries)
    && |c.entries| <= (if c.maxSize < 1 then 1 else c.maxSize)
  }

  lemma CreateValid<K, V>(maxSize: int)
    ensures Valid(Create<K, V>(maxSize))
  {
  }

  /** A miss returns `null` and changes nothing. */
  lemma GetMiss<K, V>(c: Cache<K, V>, k: K)
    requires !Has(c, k)
    ensures Get(c, k) == (c, None)
  {
  }

  /** A hit keeps the same keys and values and only makes `k` most recent. */
  lemma {:induction false} GetHit<K, V>(c: Cache<K, V>, k: K)
    requires Valid(c) && Has(c, k)
    ensures Valid(Get(c, k).0)
    ensures Size(Get(c, k).0) == Size(c)
    ensures forall j :: Lookup(Get(c, k).0.entries, j) == Lookup(c.entries, j)
    ensures KeysOf(Get(c, k).0.entries)[Size(c) - 1] == k
  {
    var v := Lookup(c.entries, k).value;
    var d := Delete(c.entries, k);
    DeleteKeys(c.entries, k);
    DeleteLookup(c.entries, k);
    AppendLookup(d, k, v);
  }

  /** Appending a fresh key keeps the keys distinct and makes it findable. */
  lemma AppendFresh<K, V>(kept: seq<(K, V)>, k: K, v: V)
    requires DistinctKeys(kept) && k !in KeysOf(kept)
    ensures DistinctKeys(kept + [(k, v)])
    ensures Lookup(kept + [(k, v)], k) == Some(v)
  {
    AppendLookup(kept, k, v);
    forall i | 0 <= i < |kept|
      ensures kept[i].0 != k
    {
      assert KeysOf(kept)[i] == kept[i].0;
    }
  }

  /** After `set(k, v)`, `get(k)` returns `v`, and the cache stays valid. */
  lemma SetThenGet<K, V>(c: Cache<K, V>, k: K, v: V)
    requires Valid(c)
    ensures Valid(Set(c, k, v))
    ensures Lookup(Set(c, k, v).entries, k) == Some(v)
    ensures Get(Set(c, k, v), k).1 == Some(v)
  {
    var es := c.entries;
    var kept;
    if Has(c, k) {
      kept := Delete(es, k);
      DeleteKeys(es, k);
    } else if |es| >= c.maxSize && |es| > 0 {
      kept := Delete(es, es[0].0);
      DeleteKeys(es, es[0].0);
      assert KeysOf(es)[0] == es[0].0;
    } else {
      kept := es;
    }
    assert Set(c, k, v).entries == kept + [(k, v)];
    AppendFresh(kept, k, v);
  }

  /** Overwriting a key evicts nothing: the other keys keep their values and
      the size is unchanged. */
  lemma SetExisting<K, V>(c: Cache<K, V>, k: K, v: V)
    requires Valid(c) && Has(c, k)
    ensures Size(Set(c, k, v)) == Size(c)
    ensures forall j :: j != k ==> Lookup(Set(c, k, v).entries, j) == Lookup(c.entries, j)
  {
    var d := Delete(c.entries, k);
    DeleteKeys(c.entries, k);
    DeleteLookup(c.entries, k);
    AppendLookup(d, k, v);
  }

  /** A new key in a full cache evicts exactly the least recently used key. */
  lemma SetEvicts<K, V>(c: Cache<K, V>, k: K, v: V)
    requires Valid(c) && !Has(c, k) && |c.entries| >= c.maxSize && |c.entries| > 0
    ensures Size(Set(c, k, v)) == Size(c)
    ensures !Has(Set(c, k, v), c.entries[0].0)
    ensures forall j :: j != k && j != c.entries[0].0 ==>
              Lookup(Set(c, k, v).entries, j) == Lookup(c.entries, j)
  {
    var lru := c.entries[0].0;
    var d := Delete(c.entries, lru);
    DeleteKeys(c.entries, lru);
    DeleteLookup(c.entries, lru);
    assert KeysOf(c.entries)[0] == lru;
    AppendLookup(d, k, v);
    assert lru != k;
    assert lru !in KeysOf(d + [(k, v)]);
  }

  /** A new key with room to spare evicts nothing. */
  lemma SetGrows<K, V>(c: Cache<K, V>, k: K, v: V)
    requires Valid(c) && !Has(c, k) && |c.entries| < c.maxSize
    ensures Size(Set(c, k, v)) == Size(c) + 1
    ensures forall j :: j != k ==> Lookup(Set(c, k, v).entries, j) == Lookup(c.entries, j)
  {
    AppendLookup(c.entries, k, v);
  }

  /** `size()` is the number of distinct keys stored. */
  lemma {:induction false} SizeCountsKeys<K, V>(es: seq<(K, V)>)
    requires DistinctKeys(es)
    ensures |set i | 0 <= i < |es| :: es[i].0| == |es|
  {
    if |es| > 0 {
      SizeCountsKeys(es[1..]);
      var tail := set i | 0 <= i < |es[1..]| :: es[1..][i].0;
      var all := set i | 0 <= i < |es| :: es[i].0;
      assert all == {es[0].0} + tail by {
        forall x | x in all
          ensures x in {es[0].0} + tail
        {
          var i :| 0 <= i < |es| && es[i].0 == x;
          if i > 0 {
            assert es[1..][i - 1].0 == x;
          }
        }
      }
      assert es[0].0 !in tail;
    }
  }
}

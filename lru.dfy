/**
  The contract of a bounded least-recently-used cache, as the selector in
  src/macos.rs relies on it (`LruCache::new`, `get`, `put`).

  The cache's state is a sequence of entries in recency order: the first
  entry is the least recently used one, the last entry the most recently used
  one. Keys are distinct. `get` moves a hit to the most-recent end; `put`
  either replaces the value of a present key (moving it to the most-recent
  end) or appends a new entry, evicting the least recently used entry first
  when the cache is full.
 */
module Lru {

  datatype Option<T> = None | Some(value: T)

  datatype Entry<K, V> = Entry(key: K, value: V)

  /** Some entry of `s` has key `k`. */
  predicate HasKey<K(==), V>(s: seq<Entry<K, V>>, k: K)
    decreases |s|
  {
    s != [] && (s[0].key == k || HasKey(s[1..], k))
  }

  /** No key occurs twice in `s`. */
  predicate DistinctKeys<K(==), V>(s: seq<Entry<K, V>>)
    decreases |s|
  {
    s == [] || (!HasKey(s[1..], s[0].key) && DistinctKeys(s[1..]))
  }

  /** The invariant of a cache of capacity `cap`. */
  predicate WellFormed<K(==), V>(s: seq<Entry<K, V>>, cap: nat)
  {
    |s| <= cap && DistinctKeys(s)
  }

  /** The value stored under `k`, if any. */
  function Lookup<K(==), V>(s: seq<Entry<K, V>>, k: K): (r: Option<V>)
    ensures r.Some? <==> HasKey(s, k)
    ensures r.Some? ==> Entry(k, r.value) in s
    decreases |s|
  {
    if s == [] then None
    else if s[0].key == k then Some(s[0].value)
    else Lookup(s[1..], k)
  }

  /** `s` without its entries for `k`, the others kept in their order. */
  function Remove<K(==), V>(s: seq<Entry<K, V>>, k: K): (r: seq<Entry<K, V>>)
    ensures |r| <= |s|
    ensures !HasKey(r, k)
    ensures forall e | e in r :: e in s && e.key != k
    decreases |s|
  {
    if s == [] then []
    else if s[0].key == k then Remove(s[1..], k)
    else [s[0]] + Remove(s[1..], k)
  }

  /** The state after `get(k)`: a hit becomes the most recently used entry;
      a miss leaves the state as it is. */
  function AfterGet<K(==), V>(s: seq<Entry<K, V>>, k: K): (r: seq<Entry<K, V>>)
    ensures forall e | e in r :: e in s
    ensures !HasKey(s, k) ==> r == s
    ensures HasKey(s, k) ==> r != [] && r[|r| - 1] == Entry(k, Lookup(s, k).value)
  {
    match Lookup(s, k)
    case None => s
    case Some(v) => Remove(s, k) + [Entry(k, v)]
  }

  /** Whether `put(k, _)` on `s` evicts the least recently used entry: `k`
      is new and the cache is full. */
  predicate Evicts<K(==), V>(s: seq<Entry<K, V>>, cap: nat, k: K)
  {
    !HasKey(s, k) && |s| >= cap
  }

  /** Some entry with key `a` is less recently used than some entry with
      key `b`. */
  predicate Before<K(==), V>(s: seq<Entry<K, V>>, a: K, b: K)
    decreases |s|
  {
    s != [] && ((s[0].key == a && HasKey(s[1..], b)) || Before(s[1..], a, b))
  }

  /** The state after `put(k, v)` on a cache of capacity `cap`. */
  function AfterPut<K(==), V>(s: seq<Entry<K, V>>, cap: nat, k: K, v: V): (r: seq<Entry<K, V>>)
    requires 0 < cap
    ensures r != [] && r[|r| - 1] == Entry(k, v)
    ensures forall e | e in r :: e == Entry(k, v) || e in s
  {
    if HasKey(s, k) then Remove(s, k) + [Entry(k, v)]
    else if |s| >= cap then s[1..] + [Entry(k, v)]
    else s + [Entry(k, v)]
  }

  /** Appending an entry adds exactly its key. */
  lemma {:induction false} HasKeyAppend<K, V>(s: seq<Entry<K, V>>, e: Entry<K, V>, j: K)
    ensures HasKey(s + [e], j) <==> HasKey(s, j) || e.key == j
    decreases |s|
  {
    if s != [] {
      assert (s + [e])[1..] == s[1..] + [e];
      HasKeyAppend(s[1..], e, j);
    }
  }

  /** Appending an entry: earlier entries take precedence in a lookup. */
  lemma {:induction false} LookupAppend<K, V>(s: seq<Entry<K, V>>, e: Entry<K, V>, j: K)
    ensures Lookup(s + [e], j) ==
      if HasKey(s, j) then Lookup(s, j)
      else if e.key == j then Some(e.value)
      else None
    decreases |s|
  {
    if s != [] {
      assert (s + [e])[1..] == s[1..] + [e];
      LookupAppend(s[1..], e, j);
    }
  }

  /** Removing `k` forgets `k` and keeps every other mapping. */
  lemma {:induction false} RemoveLookup<K, V>(s: seq<Entry<K, V>>, k: K, j: K)
    ensures Lookup(Remove(s, k), j) == if j == k then None else Lookup(s, j)
    decreases |s|
  {
    if s != [] {
      RemoveLookup(s[1..], k, j);
    }
  }

  /** Removing a key keeps keys distinct, and shortens the sequence by
      exactly one when the key was present. */
  lemma {:induction false} RemoveDistinct<K, V>(s: seq<Entry<K, V>>, k: K)
    requires DistinctKeys(s)
    ensures DistinctKeys(Remove(s, k))
    ensures |Remove(s, k)| == if HasKey(s, k) then |s| - 1 else |s|
    decreases |s|
  {
    if s != [] {
      RemoveDistinct(s[1..], k);
      if s[0].key != k {
        RemoveLookup(s[1..], k, s[0].key);
        assert Remove(s, k)[1..] == Remove(s[1..], k);
      }
    }
  }

  /** Appending an entry with a new key keeps keys distinct. */
  lemma {:induction false} AppendDistinct<K, V>(s: seq<Entry<K, V>>, e: Entry<K, V>)
    requires DistinctKeys(s) && !HasKey(s, e.key)
    ensures DistinctKeys(s + [e])
    decreases |s|
  {
    if s != [] {
      assert (s + [e])[1..] == s[1..] + [e];
      HasKeyAppend(s[1..], e, s[0].key);
      AppendDistinct(s[1..], e);
    }
  }

  /** `get` keeps the invariant, the length and every mapping: only the
      recency order changes. */
  lemma GetPreserves<K, V>(s: seq<Entry<K, V>>, cap: nat, k: K)
    requires WellFormed(s, cap)
    ensures WellFormed(AfterGet(s, k), cap)
    ensures |AfterGet(s, k)| == |s|
    ensures forall j :: Lookup(AfterGet(s, k), j) == Lookup(s, j)
  {
    if HasKey(s, k) {
      var v := Lookup(s, k).value;
      RemoveDistinct(s, k);
      AppendDistinct(Remove(s, k), Entry(k, v));
      forall j ensures Lookup(AfterGet(s, k), j) == Lookup(s, j) {
        LookupAppend(Remove(s, k), Entry(k, v), j);
        RemoveLookup(s, k, j);
      }
    }
  }

  /** `put` keeps the invariant; the cache grows by one exactly when the key
      is new and the cache is not full. */
  lemma PutPreserves<K, V>(s: seq<Entry<K, V>>, cap: nat, k: K, v: V)
    requires 0 < cap && WellFormed(s, cap)
    ensures WellFormed(AfterPut(s, cap, k, v), cap)
    ensures |AfterPut(s, cap, k, v)| == if HasKey(s, k) || |s| == cap then |s| else |s| + 1
  {
    if HasKey(s, k) {
      RemoveDistinct(s, k);
      AppendDistinct(Remove(s, k), Entry(k, v));
    } else if |s| >= cap {
      assert HasKey(s, k) <== HasKey(s[1..], k);
      AppendDistinct(s[1..], Entry(k, v));
    } else {
      AppendDistinct(s, Entry(k, v));
    }
  }

  /** After `put(k, v)`, `k` maps to `v`; every other key keeps its value,
      except the least recently used one when it was evicted. */
  lemma PutLookup<K, V>(s: seq<Entry<K, V>>, cap: nat, k: K, v: V, j: K)
    requires 0 < cap && DistinctKeys(s)
    ensures Lookup(AfterPut(s, cap, k, v), k) == Some(v)
    ensures j != k ==>
              Lookup(AfterPut(s, cap, k, v), j) ==
              (if Evicts(s, cap, k) && j == s[0].key then None else Lookup(s, j))
  {
    if HasKey(s, k) {
      LookupAppend(Remove(s, k), Entry(k, v), k);
      LookupAppend(Remove(s, k), Entry(k, v), j);
      RemoveLookup(s, k, j);
    } else if |s| >= cap {
      LookupAppend(s[1..], Entry(k, v), k);
      LookupAppend(s[1..], Entry(k, v), j);
    } else {
      LookupAppend(s, Entry(k, v), k);
      LookupAppend(s, Entry(k, v), j);
    }
  }

  /** A full cache that receives a new key evicts exactly its least recently
      used entry and stays full. */
  lemma PutEvictsLeastRecent<K, V>(s: seq<Entry<K, V>>, cap: nat, k: K, v: V)
    requires 0 < cap && WellFormed(s, cap) && Evicts(s, cap, k)
    ensures !HasKey(AfterPut(s, cap, k, v), s[0].key)
    ensures |AfterPut(s, cap, k, v)| == cap
  {
    PutLookup(s, cap, k, v, s[0].key);
    PutPreserves(s, cap, k, v);
  }

  /** A `get` that hits protects its key from the next eviction, as long as
      some other entry is present to be evicted instead. */
  lemma GetProtectsFromEviction<K, V>(s: seq<Entry<K, V>>, cap: nat, k: K, j: K, v: V)
    requires 0 < cap && WellFormed(s, cap) && HasKey(s, k) && |s| >= 2 && j != k
    ensures Lookup(AfterPut(AfterGet(s, k), cap, j, v), k) == Lookup(s, k)
  {
    var g := AfterGet(s, k);
    GetPreserves(s, cap, k);
    RemoveDistinct(s, k);
    assert g[0] == Remove(s, k)[0];
    assert g[0].key != k;
    PutLookup(g, cap, j, v, k);
  }

  /** Removing `k` keeps the relative order of the other keys. */
  lemma {:induction false} RemoveKeepsOrder<K, V>(s: seq<Entry<K, V>>, k: K, a: K, b: K)
    requires a != k && b != k
    ensures Before(Remove(s, k), a, b) <==> Before(s, a, b)
    decreases |s|
  {
    if s != [] {
      RemoveKeepsOrder(s[1..], k, a, b);
      if s[0].key != k {
        var r := Remove(s[1..], k);
        assert Remove(s, k) == [s[0]] + r;
        assert ([s[0]] + r)[1..] == r;
        RemoveLookup(s[1..], k, b);
      }
    }
  }

  /** Appending an entry with another key keeps the relative order of
      `a` and `b`. */
  lemma {:induction false} AppendKeepsOrder<K, V>(s: seq<Entry<K, V>>, e: Entry<K, V>, a: K, b: K)
    requires a != e.key && b != e.key
    ensures Before(s + [e], a, b) <==> Before(s, a, b)
    decreases |s|
  {
    if s != [] {
      assert (s + [e])[1..] == s[1..] + [e];
      HasKeyAppend(s[1..], e, b);
      AppendKeepsOrder(s[1..], e, a, b);
    }
  }

  /** An appended entry is more recent than every key already present. */
  lemma {:induction false} AppendIsMostRecent<K, V>(s: seq<Entry<K, V>>, e: Entry<K, V>, a: K)
    requires HasKey(s, a)
    ensures Before(s + [e], a, e.key)
    decreases |s|
  {
    assert (s + [e])[1..] == s[1..] + [e];
    if s[0].key == a {
      HasKeyAppend(s[1..], e, e.key);
    } else {
      AppendIsMostRecent(s[1..], e, a);
    }
  }

  /** `get(k)` keeps the recency order of every other pair of keys, and a
      hit makes `k` more recent than every other key present. */
  lemma AfterGetKeepsOrder<K, V>(s: seq<Entry<K, V>>, k: K, a: K, b: K)
    requires a != k
    ensures b != k ==> (Before(AfterGet(s, k), a, b) <==> Before(s, a, b))
    ensures HasKey(s, k) && HasKey(s, a) ==> Before(AfterGet(s, k), a, k)
  {
    if HasKey(s, k) {
      var e := Entry(k, Lookup(s, k).value);
      if b != k {
        AppendKeepsOrder(Remove(s, k), e, a, b);
        RemoveKeepsOrder(s, k, a, b);
      }
      if HasKey(s, a) {
        RemoveLookup(s, k, a);
        AppendIsMostRecent(Remove(s, k), e, a);
      }
    }
  }

  /** `put(k, v)` keeps the recency order of every other pair of keys that
      survive it, and makes `k` more recent than every surviving key. */
  lemma AfterPutKeepsOrder<K, V>(s: seq<Entry<K, V>>, cap: nat, k: K, v: V, a: K, b: K)
    requires 0 < cap && a != k && (Evicts(s, cap, k) ==> a != s[0].key)
    ensures b != k ==> (Before(AfterPut(s, cap, k, v), a, b) <==> Before(s, a, b))
    ensures HasKey(s, a) ==> Before(AfterPut(s, cap, k, v), a, k)
  {
    var e := Entry(k, v);
    if HasKey(s, k) {
      if b != k {
        AppendKeepsOrder(Remove(s, k), e, a, b);
        RemoveKeepsOrder(s, k, a, b);
      }
      if HasKey(s, a) {
        RemoveLookup(s, k, a);
        AppendIsMostRecent(Remove(s, k), e, a);
      }
    } else if |s| >= cap {
      if b != k {
        AppendKeepsOrder(s[1..], e, a, b);
      }
      if HasKey(s, a) {
        AppendIsMostRecent(s[1..], e, a);
      }
    } else {
      if b != k {
        AppendKeepsOrder(s, e, a, b);
      }
      if HasKey(s, a) {
        AppendIsMostRecent(s, e, a);
      }
    }
  }

  /**
    A bounded LRU cache: the state that `lru::LruCache<K, V>` keeps, seen as
    its recency-ordered entry sequence.
   */
  class LruCache<K(==), V> {
    const cap: nat
    var entries: seq<Entry<K, V>>

    ghost predicate Valid()
      reads this
    {
      0 < cap && WellFormed(entries, cap)
    }

    /** `LruCache::new(cap)`: an empty cache; the capacity is non-zero. */
    constructor (capacity: nat)
      requires 0 < capacity
      ensures Valid() && cap == capacity && entries == []
    {
      cap := capacity;
      entries := [];
    }

    /** `get(k)`: the stored value, if any; a hit becomes most recent. */
    method Get(k: K) returns (r: Option<V>)
      requires Valid()
      modifies this
      ensures Valid()
      ensures r == Lookup(old(entries), k)
      ensures entries == AfterGet(old(entries), k)
    {
      r := Lookup(entries, k);
      GetPreserves(entries, cap, k);
      entries := AfterGet(entries, k);
    }

    /** `put(k, v)`: store `v` under `k` as the most recent entry, evicting
        the least recent entry when `k` is new and the cache is full. */
    method Put(k: K, v: V)
      requires Valid()
      modifies this
      ensures Valid()
      ensures entries == AfterPut(old(entries), cap, k, v)
    {
      PutPreserves(entries, cap, k, v);
      entries := AfterPut(entries, cap, k, v);
    }
  }
}

/**
 A model of SimpleAgedCache: an in-memory key/value store in which every
 entry carries its own absolute expiry instant. Reads evict lazily: `get`
 drops an expired (or absent) key, `size` and `isEmpty` first sweep out
 every expired entry.

 Time is an integer count of milliseconds. Each operation reads the clock
 once; that reading is the `now` parameter of the operation.
 */
module AgedCache {
  import opened Wrappers

  /** Java's 32-bit `int`, the type of the retention argument and of `size()`. */
  newtype Int32 = x: int | -0x8000_0000 <= x < 0x8000_0000

  const MaxInt: Int32 := 0x7fff_ffff

  /** CacheEntry: the stored value and the instant after which it is gone. */
  datatype Entry<V> = Entry(value: V, expiry: int)

  /** CacheEntry.isExpired: the clock reads strictly after the expiry instant. */
  predicate IsExpired<V>(e: Entry<V>, now: int) {
    now > e.expiry
  }

  type Store<K, V> = map<K, Entry<V>>

  // ---------------------------------------------------------------------
  // The operations on the store, as functions of the old store and the clock
  // ---------------------------------------------------------------------

  /** The entry `put` creates: alive up to and including `now + retention`. */
  function NewEntry<V>(value: V, retention: Int32, now: int): (e: Entry<V>)
    ensures e.value == value
    ensures IsExpired(e, now) <==> retention < 0
    ensures forall t :: IsExpired(e, t) <==> t > now + retention as int
  {
    Entry(value, now + retention as int)
  }

  /** The store after `put(key, value, retention)`: the entry for `key` is
      replaced wholesale, every other key keeps its entry. */
  function AfterPut<K, V>(m: Store<K, V>, key: K, value: V, retention: Int32, now: int): (r: Store<K, V>)
    ensures r.Keys == m.Keys + {key}
    ensures r[key] == NewEntry(value, retention, now)
    ensures forall k :: k in m && k != key ==> r[k] == m[k]
  {
    m[key := NewEntry(value, retention, now)]
  }

  /** The live view of the store: exactly the entries not expired at `now`,
      unchanged. This is what `cleanUp` leaves behind. */
  function Live<K, V>(m: Store<K, V>, now: int): (r: Store<K, V>)
    ensures r.Keys <= m.Keys
    ensures forall k :: k in r ==> r[k] == m[k] && !IsExpired(r[k], now)
    ensures forall k :: k in m && !IsExpired(m[k], now) ==> k in r
  {
    map k | k in m && !IsExpired(m[k], now) :: m[k]
  }

  /** The keys a sweep at `now` removes. */
  function ExpiredKeys<K, V>(m: Store<K, V>, now: int): (s: set<K>)
    ensures s <= m.Keys
    ensures s !! Live(m, now).Keys
    ensures forall k :: k in m ==> (k in s <==> IsExpired(m[k], now))
  {
    set k | k in m && IsExpired(m[k], now)
  }

  /** What `get(key)` returns: the value exactly when the key is in the live view. */
  function Lookup<K, V>(m: Store<K, V>, key: K, now: int): (r: Option<V>)
    ensures r.Some? <==> key in Live(m, now)
    ensures r.Some? ==> r.value == m[key].value
  {
    if key in m && !IsExpired(m[key], now) then Some(m[key].value) else None
  }

  /** The store after `get(key)`: untouched on a hit, without `key` on a miss.
      Either way the live view is the same as before. */
  function AfterGet<K, V>(m: Store<K, V>, key: K, now: int): (r: Store<K, V>)
    ensures Lookup(m, key, now).Some? ==> r == m
    ensures Lookup(m, key, now).None? ==> r.Keys == m.Keys - {key}
    ensures forall k :: k in r ==> k in m && r[k] == m[k]
    ensures Live(r, now) == Live(m, now)
  {
    if Lookup(m, key, now).Some? then m else m - {key}
  }

  /** ConcurrentHashMap.size(): the entry count, capped at Integer.MAX_VALUE. */
  function JavaSize(n: nat): (r: Int32)
    ensures 0 <= r as int <= n
    ensures r == MaxInt || r as int == n
  {
    if n <= MaxInt as int then n as Int32 else MaxInt
  }

  // ---------------------------------------------------------------------
  // Properties of the operations
  // ---------------------------------------------------------------------

  /** An entry is still live at its expiry instant and gone one millisecond later. */
  lemma ExpiryBoundary<V>(e: Entry<V>)
    ensures !IsExpired(e, e.expiry)
    ensures IsExpired(e, e.expiry + 1)
  {
  }

  /** A `get` at the instant of the `put` returns the value exactly when the
      retention is not negative. */
  lemma PutThenGet<K, V>(m: Store<K, V>, key: K, value: V, retention: Int32, now: int)
    ensures Lookup(AfterPut(m, key, value, retention, now), key, now)
         == if retention >= 0 then Some(value) else None
  {
  }

  /** With retention `t`, the value is readable at `t0 + t` and gone at `t0 + t + 1`. */
  lemma RetentionWindow<K, V>(m: Store<K, V>, key: K, value: V, retention: Int32, t0: int)
    ensures Lookup(AfterPut(m, key, value, retention, t0), key, t0 + retention as int) == Some(value)
    ensures Lookup(AfterPut(m, key, value, retention, t0), key, t0 + retention as int + 1) == None
  {
  }

  /** A second `put` on the same key discards the first entry, value and timing. */
  lemma PutOverwrites<K, V>(m: Store<K, V>, key: K, v1: V, r1: Int32, t1: int, v2: V, r2: Int32, t2: int)
    ensures AfterPut(AfterPut(m, key, v1, r1, t1), key, v2, r2, t2) == AfterPut(m, key, v2, r2, t2)
  {
  }

  /** `put` and `get` on one key never change what any other key reads, at any time. */
  lemma OtherKeysIndependent<K, V>(m: Store<K, V>, key: K, other: K, value: V, retention: Int32, now: int, later: int)
    requires other != key
    ensures Lookup(AfterPut(m, key, value, retention, now), other, later) == Lookup(m, other, later)
    ensures Lookup(AfterGet(m, key, now), other, later) == Lookup(m, other, later)
  {
  }

  /** What `put` does to the live view at the instant of the call. */
  lemma PutLiveView<K, V>(m: Store<K, V>, key: K, value: V, retention: Int32, now: int)
    ensures Live(AfterPut(m, key, value, retention, now), now)
         == if retention >= 0 then Live(m, now)[key := NewEntry(value, retention, now)]
            else Live(m, now) - {key}
  {
  }

  /** A sweep run twice at the same instant changes nothing the second time. */
  lemma CleanUpIdempotent<K, V>(m: Store<K, V>, now: int)
    ensures Live(Live(m, now), now) == Live(m, now)
  {
  }

  /** A sweep at an earlier instant followed by one at a later instant is the later sweep. */
  lemma CleanUpLater<K, V>(m: Store<K, V>, t1: int, t2: int)
    requires t1 <= t2
    ensures Live(Live(m, t1), t2) == Live(m, t2)
  {
  }

  /** A sweep removes exactly the expired entries: what is left plus what is
      removed is the old entry count. */
  lemma {:induction false} CleanUpCount<K, V>(m: Store<K, V>, now: int)
    ensures |Live(m, now)| + |ExpiredKeys(m, now)| == |m|
  {
    assert Live(m, now).Keys == m.Keys - ExpiredKeys(m, now);
  }

  /** A sweep leaves the entry count unchanged exactly when nothing has expired. */
  lemma {:induction false} CleanUpKeepsAllIff<K, V>(m: Store<K, V>, now: int)
    ensures |Live(m, now)| == |m| <==> forall k :: k in m ==> !IsExpired(m[k], now)
  {
    CleanUpCount(m, now);
    if |Live(m, now)| == |m| {
      assert ExpiredKeys(m, now) == {};
    }
  }

  /** The swept store is empty exactly when every entry has expired. */
  lemma LiveEmptyIff<K, V>(m: Store<K, V>, now: int)
    ensures |Live(m, now)| == 0 <==> forall k :: k in m ==> IsExpired(m[k], now)
  {
  }

  // ---------------------------------------------------------------------
  // The cache object
  // ---------------------------------------------------------------------

  /** SimpleAgedCache: the `cache` map is updated in place by every operation. */
  class SimpleAgedCache<K(==), V> {
    var cache: Store<K, V>

    constructor ()
      ensures cache == map[]
    {
      cache := map[];
    }

    method Put(key: K, value: V, retentionInMillis: Int32, now: int)
      modifies this
      ensures cache == AfterPut(old(cache), key, value, retentionInMillis, now)
    {
      var entry := NewEntry(value, retentionInMillis, now);
      cache := cache[key := entry];
    }

    method Get(key: K, now: int) returns (r: Option<V>)
      modifies this
      ensures r == Lookup(old(cache), key, now)
      ensures cache == AfterGet(old(cache), key, now)
    {
      if key in cache {
        var entry := cache[key];
        if !IsExpired(entry, now) {
          return Some(entry.value);
        }
      }
      cache := cache - {key};
      return None;
    }

    method IsEmpty(now: int) returns (b: bool)
      modifies this
      ensures cache == Live(old(cache), now)
      ensures b <==> forall k :: k in old(cache) ==> IsExpired(old(cache)[k], now)
    {
      CleanUp(now);
      LiveEmptyIff(old(cache), now);
      b := |cache| == 0;
    }

    method Size(now: int) returns (n: Int32)
      modifies this
      ensures cache == Live(old(cache), now)
      ensures |cache| + |ExpiredKeys(old(cache), now)| == |old(cache)|
      ensures n == JavaSize(|cache|)
    {
      CleanUp(now);
      CleanUpCount(old(cache), now);
      n := JavaSize(|cache|);
    }

    /** The sweep: visit every key once and remove the entries that have expired. */
    method CleanUp(now: int)
      modifies this
      ensures cache == Live(old(cache), now)
    {
      var pending := cache.Keys;
      while pending != {}
        invariant pending <= old(cache).Keys
        invariant forall k :: k in cache <==> k in old(cache) && (k in pending || !IsExpired(old(cache)[k], now))
        invariant forall k :: k in cache ==> cache[k] == old(cache)[k]
        decreases pending
      {
        var k :| k in pending;
        if IsExpired(cache[k], now) {
          cache := cache - {k};
        }
        pending := pending - {k};
      }
      assert cache.Keys == Live(old(cache), now).Keys;
    }
  }
}

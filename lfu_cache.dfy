/**
 * The frequency-based (LFU) cache engine: a fixed-capacity map from 64-bit
 * ids to entries that pair a value with an access counter. On overflow it
 * evicts one entry of minimal frequency.
 *
 * The abstract state is the map from ids to entries. Each operation's effect
 * on that map is given by a function or predicate below, and the methods of
 * class LfuCache are proved against those.
 */
module Cache {
  import opened Wrappers

  /** Java's `long`, the cache key. */
  type Long = k: int | -0x8000_0000_0000_0000 <= k < 0x8000_0000_0000_0000

  /** A stored value together with the number of accesses it has had. */
  datatype CacheEntry<T> = CacheEntry(value: T, frequency: nat)

  type Entries<T> = map<Long, CacheEntry<T>>

  /** The entry a first `put` of `value` creates. */
  function NewEntry<T>(value: T): CacheEntry<T>
  {
    CacheEntry(value, 1)
  }

  /**
   * The largest size the map can reach. An insertion into a full cache
   * evicts first, but evicting from an empty map removes nothing, so with
   * a capacity of zero or less the map still holds one entry.
   */
  function Bound(maxCapacity: int): (b: nat)
    ensures b >= 1
    ensures maxCapacity >= 1 ==> b == maxCapacity
    ensures maxCapacity < 1 ==> b == 1
  {
    if maxCapacity >= 1 then maxCapacity else 1
  }

  /** The invariant of the cache: within the bound, every frequency at least 1. */
  ghost predicate Inv<T>(maxCapacity: int, m: Entries<T>)
  {
    && |m| <= Bound(maxCapacity)
    && forall k :: k in m ==> m[k].frequency >= 1
  }

  /** `k` is a resident key whose frequency no other resident key undercuts. */
  ghost predicate IsLfuKey<T>(m: Entries<T>, k: Long)
  {
    k in m && forall j :: j in m ==> m[k].frequency <= m[j].frequency
  }

  /** What `get(id)` returns: the stored value on a hit, a miss otherwise. */
  function Lookup<T>(m: Entries<T>, id: Long): (r: Option<T>)
    ensures r.Some? <==> id in m
    ensures r.Some? ==> r.value == m[id].value
  {
    if id in m then Some(m[id].value) else None
  }

  /** The map after `get(id)`: a hit raises that key's frequency by one. */
  function AfterGet<T>(m: Entries<T>, id: Long): (m': Entries<T>)
    ensures m'.Keys == m.Keys
    ensures forall k :: k in m && k != id ==> m'[k] == m[k]
    ensures id in m ==> m'[id].value == m[id].value && m'[id].frequency == m[id].frequency + 1
    ensures id !in m ==> m' == m
  {
    if id in m then m[id := m[id].(frequency := m[id].frequency + 1)] else m
  }

  /**
   * `m'` is `m` less one least-frequently-used key, or `m` itself when
   * there is nothing to evict. Which of several tied keys goes is left open.
   */
  ghost predicate Evicted<T>(m: Entries<T>, m': Entries<T>)
  {
    || (m == map[] && m' == m)
    || (exists k: Long :: IsLfuKey(m, k) && m' == m - {k})
  }

  /** `m'` is a possible map after `put(id, value)` on `m`. */
  ghost predicate PutStep<T>(maxCapacity: int, m: Entries<T>, id: Long, value: T, m': Entries<T>)
  {
    if id in m then
      m' == m[id := CacheEntry(value, m[id].frequency + 1)]
    else if |m| >= maxCapacity then
      || (m == map[] && m' == map[id := NewEntry(value)])
      || (exists k: Long :: IsLfuKey(m, k) && m' == (m - {k})[id := NewEntry(value)])
    else
      m' == m[id := NewEntry(value)]
  }

  /**
   * The running-minimum scan of the eviction: visits the keys in an
   * unspecified order (that of the hash map) and keeps the first key seen
   * with a frequency strictly below every earlier one.
   */
  method FindLeastFrequentlyUsed<T>(entries: Entries<T>) returns (lfuKey: Option<Long>)
    ensures lfuKey.None? <==> entries == map[]
    ensures lfuKey.Some? ==> IsLfuKey(entries, lfuKey.value)
  {
    lfuKey := None;
    var minFrequency := 0;
    var remaining := entries.Keys;
    while remaining != {}
      invariant remaining <= entries.Keys
      invariant lfuKey.None? <==> remaining == entries.Keys
      invariant lfuKey.Some? ==> lfuKey.value in entries && lfuKey.value !in remaining
      invariant lfuKey.Some? ==> entries[lfuKey.value].frequency == minFrequency
      invariant forall j :: j in entries && j !in remaining ==> minFrequency <= entries[j].frequency
      decreases remaining
    {
      var k :| k in remaining;
      if lfuKey.None? || entries[k].frequency < minFrequency {
        minFrequency := entries[k].frequency;
        lfuKey := Some(k);
      }
      remaining := remaining - {k};
    }
    if lfuKey.None? {
      assert entries.Keys == {};
      assert entries == map[];
    }
  }

  /** Removing a resident key shrinks the map by exactly one. */
  lemma EvictedSize<T>(m: Entries<T>, m': Entries<T>)
    requires Evicted(m, m')
    ensures m == map[] ==> m' == m
    ensures m != map[] ==> |m'| == |m| - 1 && m'.Keys < m.Keys
  {
    if m != map[] {
      var k :| IsLfuKey(m, k) && m' == m - {k};
      assert m'.Keys == m.Keys - {k};
    }
  }

  /** Inserting a new key after an eviction from a full cache is a `put` step and keeps the invariant. */
  lemma InsertAfterEviction<T>(maxCapacity: int, m: Entries<T>, rest: Entries<T>, id: Long, value: T)
    requires Inv(maxCapacity, m) && id !in m && |m| >= maxCapacity && Evicted(m, rest)
    ensures Inv(maxCapacity, rest[id := NewEntry(value)])
    ensures PutStep(maxCapacity, m, id, value, rest[id := NewEntry(value)])
  {
    EvictedSize(m, rest);
    assert id !in rest;
    assert |rest[id := NewEntry(value)]| == |rest| + 1;
  }

  class LfuCache<T> {
    const maxCapacity: int
    var cache: Entries<T>

    ghost predicate Valid()
      reads this
    {
      Inv(maxCapacity, cache)
    }

    constructor (maxCapacity: int)
      ensures Valid()
      ensures this.maxCapacity == maxCapacity && cache == map[]
    {
      this.maxCapacity := maxCapacity;
      cache := map[];
    }

    /** A hit returns the value and bumps its frequency; a miss changes nothing. */
    method Get(id: Long) returns (r: Option<T>)
      requires Valid()
      modifies this
      ensures Valid()
      ensures r == Lookup(old(cache), id)
      ensures cache == AfterGet(old(cache), id)
    {
      if id in cache {
        var entry := cache[id];
        cache := cache[id := entry.(frequency := entry.frequency + 1)];
        r := Some(entry.value);
      } else {
        r := None;
      }
    }

    /** Updates a resident key, or inserts a new one after evicting when full. */
    method Put(id: Long, value: T)
      requires Valid()
      modifies this
      ensures Valid()
      ensures PutStep(maxCapacity, old(cache), id, value, cache)
    {
      if id in cache {
        var entry := cache[id];
        cache := cache[id := entry.(value := value, frequency := entry.frequency + 1)];
      } else {
        if |cache| >= maxCapacity {
          ghost var before := cache;
          EvictLeastFrequentlyUsed();
          InsertAfterEviction(maxCapacity, before, cache, id, value);
        } else {
          assert |cache[id := NewEntry(value)]| == |cache| + 1;
        }
        cache := cache[id := NewEntry(value)];
      }
    }

    /** Removes one least-frequently-used entry, if there is any. */
    method EvictLeastFrequentlyUsed()
      requires Valid()
      modifies this
      ensures Valid()
      ensures Evicted(old(cache), cache)
    {
      var lfuKey := FindLeastFrequentlyUsed(cache);
      if lfuKey.Some? {
        cache := cache - {lfuKey.value};
      }
      EvictedSize(old(cache), cache);
    }

    /** Deletes `id`; a no-op when it is absent. */
    method Remove(id: Long)
      requires Valid()
      modifies this
      ensures Valid()
      ensures cache == old(cache) - {id}
    {
      cache := cache - {id};
    }

    /** Empties the cache. */
    method Clear()
      requires Valid()
      modifies this
      ensures Valid()
      ensures cache == map[]
    {
      cache := map[];
    }
  }
}

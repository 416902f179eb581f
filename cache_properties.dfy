/**
 * Properties of the LFU cache engine, stated over its abstract state (the
 * map from ids to entries): what one operation does, and what holds along
 * any sequence of operations that starts from an empty cache.
 */
module CacheProperties {
  import opened Wrappers
  import opened Cache

  /** The public operations of the cache. */
  datatype Op<T> = GetOp(id: Long) | PutOp(id: Long, value: T) | RemoveOp(id: Long) | ClearOp

  /** `m'` is a possible map after running `op` on `m`. */
  ghost predicate Step<T>(maxCapacity: int, m: Entries<T>, op: Op<T>, m': Entries<T>)
  {
    match op
    case GetOp(id) => m' == AfterGet(m, id)
    case PutOp(id, value) => PutStep(maxCapacity, m, id, value, m')
    case RemoveOp(id) => m' == m - {id}
    case ClearOp => m' == map[]
  }

  /** `states` are the maps a freshly constructed cache passes through while running `ops`. */
  ghost predicate Run<T>(maxCapacity: int, ops: seq<Op<T>>, states: seq<Entries<T>>)
  {
    && |states| == |ops| + 1
    && states[0] == map[]
    && forall i :: 0 <= i < |ops| ==> Step(maxCapacity, states[i], ops[i], states[i + 1])
  }

  // ---------------------------------------------------------------- put

  /** `put` on a resident key replaces its value and adds one to its frequency; nothing else changes. */
  lemma PutResidentUpdates<T>(maxCapacity: int, m: Entries<T>, id: Long, value: T, m': Entries<T>)
    requires id in m && PutStep(maxCapacity, m, id, value, m')
    ensures m'.Keys == m.Keys
    ensures m'[id].value == value && m'[id].frequency == m[id].frequency + 1
    ensures forall k :: k in m && k != id ==> m'[k] == m[k]
  {
  }

  /** `put` of a new key leaves it resident with the given value and frequency 1. */
  lemma PutNewInsertsFresh<T>(maxCapacity: int, m: Entries<T>, id: Long, value: T, m': Entries<T>)
    requires id !in m && PutStep(maxCapacity, m, id, value, m')
    ensures id in m' && m'[id].value == value && m'[id].frequency == 1
  {
    if |m| >= maxCapacity && m != map[] {
      var k: Long :| IsLfuKey(m, k) && m' == (m - {k})[id := NewEntry(value)];
    }
  }

  /** With room to spare, `put` of a new key evicts nothing. */
  lemma PutWithRoomEvictsNothing<T>(maxCapacity: int, m: Entries<T>, id: Long, value: T, m': Entries<T>)
    requires id !in m && |m| < maxCapacity && PutStep(maxCapacity, m, id, value, m')
    ensures m'.Keys == m.Keys + {id}
    ensures forall k :: k in m ==> m'[k] == m[k]
  {
  }

  /**
   * `put` of a new key into a full, non-empty cache removes exactly one
   * resident key, and every removed key had the minimum frequency.
   */
  lemma PutWhenFullEvictsOneMinimal<T>(maxCapacity: int, m: Entries<T>, id: Long, value: T, m': Entries<T>)
    requires id !in m && |m| >= maxCapacity && m != map[] && PutStep(maxCapacity, m, id, value, m')
    ensures |m.Keys - m'.Keys| == 1
    ensures forall k :: k in m && k !in m' ==> IsLfuKey(m, k)
    ensures forall k :: k in m && k in m' ==> m'[k] == m[k]
    ensures m'.Keys == (m.Keys * m'.Keys) + {id}
  {
    var v: Long :| IsLfuKey(m, v) && m' == (m - {v})[id := NewEntry(value)];
    assert m.Keys - m'.Keys == {v};
  }

  /** `put` never evicts a key while a key of strictly lower frequency is resident. */
  lemma PutSparesMoreFrequent<T>(maxCapacity: int, m: Entries<T>, id: Long, value: T, m': Entries<T>, j: Long, k: Long)
    requires PutStep(maxCapacity, m, id, value, m')
    requires j in m && k in m && m[j].frequency < m[k].frequency
    ensures k in m'
  {
    assert !IsLfuKey(m, k);
    if id !in m && |m| >= maxCapacity {
      PutWhenFullEvictsOneMinimal(maxCapacity, m, id, value, m');
    }
  }

  /** Right after `put(id, v)`, `get(id)` hits, returns v, and the frequency has grown by two accesses. */
  lemma GetAfterPut<T>(maxCapacity: int, m: Entries<T>, id: Long, value: T, m': Entries<T>)
    requires PutStep(maxCapacity, m, id, value, m')
    ensures Lookup(m', id) == Some(value)
    ensures AfterGet(m', id)[id].frequency == if id in m then m[id].frequency + 2 else 2
  {
    if id !in m {
      PutNewInsertsFresh(maxCapacity, m, id, value, m');
    }
  }

  // ---------------------------------------------------------------- remove and clear

  /** `remove(id)` makes `id` miss and leaves every other entry alone; for an absent key it is a no-op. */
  lemma RemoveDeletesOnlyKey<T>(m: Entries<T>, id: Long)
    ensures Lookup(m - {id}, id) == None
    ensures forall k :: k != id ==> Lookup(m - {id}, k) == Lookup(m, k)
    ensures forall k :: k in m && k != id ==> (m - {id})[k] == m[k]
    ensures id !in m ==> m - {id} == m
  {
  }

  /** After `clear()` every `get` misses and changes nothing. */
  lemma ClearMissesEverything<T>(id: Long)
    ensures Lookup<T>(map[], id) == None
    ensures AfterGet<T>(map[], id) == map[]
  {
  }

  // ---------------------------------------------------------------- single steps

  /** Every operation keeps the size bound and keeps every frequency at least 1. */
  lemma StepPreservesInv<T>(maxCapacity: int, m: Entries<T>, op: Op<T>, m': Entries<T>)
    requires Inv(maxCapacity, m) && Step(maxCapacity, m, op, m')
    ensures Inv(maxCapacity, m')
  {
    match op
    case GetOp(id) =>
    case PutOp(id, value) =>
      if id in m {
      } else if |m| >= maxCapacity {
        if m == map[] {
          assert m' == map[id := NewEntry(value)];
        } else {
          var v: Long :| IsLfuKey(m, v) && m' == (m - {v})[id := NewEntry(value)];
          InsertAfterEviction(maxCapacity, m, m - {v}, id, value);
        }
      } else {
        assert |m[id := NewEntry(value)]| == |m| + 1;
      }
    case RemoveOp(id) =>
      assert (m - {id}).Keys <= m.Keys;
      assert |m'| <= |m| by { SubsetSize(m', m); }
    case ClearOp =>
  }

  /** A map whose keys are among another's is no larger. */
  lemma SubsetSize<T>(a: Entries<T>, b: Entries<T>)
    requires a.Keys <= b.Keys
    ensures |a| <= |b|
  {
    assert |a.Keys| <= |b.Keys| by { SetSubsetSize(a.Keys, b.Keys); }
  }

  lemma {:induction false} SetSubsetSize(a: set<Long>, b: set<Long>)
    requires a <= b
    ensures |a| <= |b|
    decreases b
  {
    if a != {} {
      var x :| x in a;
      SetSubsetSize(a - {x}, b - {x});
    }
  }

  /** No operation lowers the frequency of a key that stays resident. */
  lemma StepNeverLowersFrequency<T>(maxCapacity: int, m: Entries<T>, op: Op<T>, m': Entries<T>, k: Long)
    requires Step(maxCapacity, m, op, m') && k in m && k in m'
    ensures m'[k].frequency >= m[k].frequency
  {
    match op
    case GetOp(id) =>
    case PutOp(id, value) =>
      if id !in m && |m| >= maxCapacity && m != map[] {
        PutWhenFullEvictsOneMinimal(maxCapacity, m, id, value, m');
      }
    case RemoveOp(id) =>
    case ClearOp =>
  }

  // ---------------------------------------------------------------- runs

  /** Along any run the cache never holds more than its capacity (at least one) and every frequency is at least 1. */
  lemma {:induction false} RunKeepsInv<T>(maxCapacity: int, ops: seq<Op<T>>, states: seq<Entries<T>>, i: nat)
    requires Run(maxCapacity, ops, states) && i < |states|
    ensures Inv(maxCapacity, states[i])
    ensures maxCapacity >= 1 ==> |states[i]| <= maxCapacity
  {
    if i > 0 {
      RunKeepsInv(maxCapacity, ops, states, i - 1);
      StepPreservesInv(maxCapacity, states[i - 1], ops[i - 1], states[i]);
    }
  }

  /** While a key stays resident from state i to state j, its frequency only grows. */
  lemma {:induction false} RunFrequencyGrows<T>(maxCapacity: int, ops: seq<Op<T>>, states: seq<Entries<T>>, k: Long, i: nat, j: nat)
    requires Run(maxCapacity, ops, states) && i <= j < |states|
    requires forall t :: i <= t <= j ==> k in states[t]
    ensures states[j][k].frequency >= states[i][k].frequency
    decreases j - i
  {
    if i < j {
      RunFrequencyGrows(maxCapacity, ops, states, k, i, j - 1);
      StepNeverLowersFrequency(maxCapacity, states[j - 1], ops[j - 1], states[j], k);
    }
  }

  /** A key that no `put` has named yet always misses. */
  lemma {:induction false} RunNeverPutMisses<T>(maxCapacity: int, ops: seq<Op<T>>, states: seq<Entries<T>>, k: Long, i: nat)
    requires Run(maxCapacity, ops, states) && i < |states|
    requires forall t :: 0 <= t < i ==> !(ops[t].PutOp? && ops[t].id == k)
    ensures Lookup(states[i], k) == None
  {
    if i > 0 {
      RunNeverPutMisses(maxCapacity, ops, states, k, i - 1);
      var m, m' := states[i - 1], states[i];
      assert Step(maxCapacity, m, ops[i - 1], m');
      match ops[i - 1]
      case GetOp(id) =>
      case PutOp(id, value) =>
        if id !in m && |m| >= maxCapacity && m != map[] {
          PutWhenFullEvictsOneMinimal(maxCapacity, m, id, value, m');
        }
      case RemoveOp(id) =>
      case ClearOp =>
    }
  }

  // ---------------------------------------------------------------- scenarios

  /**
   * Capacity 2: put(1, "a"), put(2, "b"), get(1), put(3, "c") evicts key 2,
   * the only key of frequency 1, and leaves {1: "a" at 2, 3: "c" at 1}.
   */
  lemma EvictionScenario(m1: Entries<string>, m2: Entries<string>, m4: Entries<string>)
    requires PutStep(2, map[], 1, "a", m1)
    requires PutStep(2, m1, 2, "b", m2)
    requires PutStep(2, AfterGet(m2, 1), 3, "c", m4)
    ensures m4 == map[1 := CacheEntry("a", 2), 3 := CacheEntry("c", 1)]
    ensures Lookup(m4, 2) == None
  {
    var m3: Entries<string> := AfterGet(m2, 1);
    assert m3 == map[1 := CacheEntry("a", 2), 2 := CacheEntry("b", 1)];
    var v: Long :| IsLfuKey(m3, v) && m4 == (m3 - {v})[3 := NewEntry("c")];
    assert v == 2 by {
      assert m3[v].frequency <= m3[2].frequency;
    }
    assert m3 - {2} == map[1 := CacheEntry("a", 2)];
  }

  /** put(1, "a") then put(1, "b") updates in place: get(1) returns "b" at frequency 3. */
  lemma UpdateScenario(maxCapacity: int, m1: Entries<string>, m2: Entries<string>)
    requires PutStep(maxCapacity, map[], 1, "a", m1)
    requires PutStep(maxCapacity, m1, 1, "b", m2)
    ensures Lookup(m2, 1) == Some("b")
    ensures AfterGet(m2, 1) == map[1 := CacheEntry("b", 3)]
  {
  }

  /**
   * With a capacity of zero or less the map still holds one entry: the
   * first put finds nothing to evict and inserts, and a second new key
   * evicts the first and takes its place.
   */
  lemma NonPositiveCapacityHoldsOne<T>(maxCapacity: int, v: T, w: T, m1: Entries<T>, m2: Entries<T>)
    requires maxCapacity <= 0
    requires PutStep(maxCapacity, map[], 1, v, m1)
    requires PutStep(maxCapacity, m1, 2, w, m2)
    ensures |m1| == 1 == Bound(maxCapacity)
    ensures m1 == map[1 := NewEntry(v)]
    ensures m2 == map[2 := NewEntry(w)] && |m2| == 1
  {
    assert m1 == map[1 := NewEntry(v)];
    var k: Long :| IsLfuKey(m1, k) && m2 == (m1 - {k})[2 := NewEntry(w)];
    assert k == 1 && m1 - {1} == map[];
  }

  /** The eviction scenario run against the class itself. */
  method EvictionScenarioOnCache()
  {
    var c := new LfuCache<string>(2);
    c.Put(1, "a");
    c.Put(2, "b");
    var m2 := c.cache;
    var r := c.Get(1);
    assert r == Some("a");
    c.Put(3, "c");
    EvictionScenario(map[1 := CacheEntry("a", 1)], m2, c.cache);
    r := c.Get(2);
    assert r == None;
  }
}

# Healthy-sleep backend: LFU cache engine and sleep-advice service, in Dafny

This project models two parts of the Healthy-sleep Java backend and proves properties of them.

**The frequency-based (LFU) cache.** Each entity type (users, sessions, advice) has one cache in front of its database. The cache maps 64-bit ids to entries. Each entry pairs a value with an access counter. A hit bumps the counter. `put` updates a resident key and bumps its counter. For a new key, `put` first evicts one entry of minimal frequency if the cache is full, then inserts the key with frequency 1. `remove` deletes one key and `clear` deletes them all.

The engine exists twice, in `org/example/cache/LFUCache.java` and `org/example/cache/LfuCache.java`. The two files differ only in their class and constructor names and in their logger (`java.util.logging` in one, SLF4J in the other). Their fields, branches and eviction scan are line for line the same, so one model covers both. In the table below, the members of module `Cache` cite the first file and the lemmas of module `CacheProperties` cite the second. Each concrete cache (`UserCache`, `SessionCache`, `AdviceCache`, in both packages) only passes capacity 100 to the base constructor. Here that capacity is the constructor argument of `Cache.LfuCache`.

- `lfu_cache.dfy` (module `Cache`):
  - the abstract state, a `map` from `Long` keys to `CacheEntry` values;
  - the effect of each operation on that map: `Lookup`, `AfterGet`, `Evicted`, `PutStep`;
  - the eviction scan `FindLeastFrequentlyUsed`, a loop that keeps a running minimum;
  - the class `LfuCache`, whose methods are proved against those definitions and keep the invariant `Valid()`.
- `cache_properties.dfy` (module `CacheProperties`):
  - the operations as a datatype `Op`, with a step relation `Step`;
  - runs of any length from a freshly constructed cache;
  - lemmas about single steps and about whole runs;
  - the eviction and update scenarios, on the relation and on the class.
- `sleep_repository.dfy` (module `SleepRepository`):
  - the fixed list of three advices;
  - lookup by position, with a placeholder fallback;
  - the optional-bounds filter, proved sound, complete, multiplicity-exact and order-preserving.
- `sleep_service.dfy` (module `SleepService`):
  - the service's validation, with each `AdviceNotFoundException` modelled as a `Failure` of a `Result`.
- `wrappers.dfy` (module `Wrappers`): `Option`, standing in for `null`, and `Result`, standing in for exceptions.

The eviction tie-break depends on `HashMap` iteration order. The scan picks keys in an unspecified order, and the specification `Evicted` only says that some key of minimal frequency is removed. Every lemma holds whichever tied key goes.

Every subclass passes capacity 100, but the constructor accepts any `int` and does not check it; the model accepts any `int` too. Evicting from an empty map removes nothing, so with a capacity of 0 or less the map still holds one entry (`CacheProperties.NonPositiveCapacityHoldsOne`). Hence the invariant bounds the size by `Bound(maxCapacity)`, which is `maxCapacity` when that is at least 1, and 1 otherwise.

## Model

| member | source | states |
|---|---|---|
| `Cache.NewEntry` | src/main/java/org/example/cache/LFUCache.java:19-22 | The `CacheEntry` constructor: an entry holds the given value at frequency 1. |
| `Cache.Lookup` | src/main/java/org/example/cache/LFUCache.java:30-38 | `get` returns a value exactly when the key is resident, and the value is the stored one. |
| `Cache.AfterGet` | src/main/java/org/example/cache/LFUCache.java:30-38 | `get` keeps the key set. On a hit only the hit key's frequency changes, by exactly +1, and its value stays. A miss leaves the map unchanged. |
| `Cache.Evicted` | src/main/java/org/example/cache/LFUCache.java:57-70 | The eviction relation: the new map is the old one less one key of minimal frequency, or the old one itself when it is empty. Which tied key goes is left open. |
| `Cache.PutStep` | src/main/java/org/example/cache/LFUCache.java:41-55 | The `put` relation. A resident key gets the new value and its frequency + 1. A new key in a cache at or over capacity is inserted at frequency 1 after `Evicted`. A new key in a cache with room is inserted at frequency 1. |
| `Cache.FindLeastFrequentlyUsed` | src/main/java/org/example/cache/LFUCache.java:57-66 | The running-minimum scan (strict `<`, any visiting order) finds no key exactly when the map is empty. Otherwise it returns a resident key whose frequency is at most every resident's. |
| `Cache.EvictedSize` | src/main/java/org/example/cache/LFUCache.java:67-68 | Eviction from a non-empty map removes exactly one key. From an empty map it changes nothing. |
| `Cache.InsertAfterEviction` | src/main/java/org/example/cache/LFUCache.java:48-52 | Evicting from a full cache and then inserting the new key is a valid `put` step, and the size bound and frequency ≥ 1 still hold. |
| `Cache.LfuCache.constructor` | src/main/java/org/example/cache/LFUCache.java:25-28 | A new cache is empty and has the given capacity. |
| `Cache.LfuCache.Get` | src/main/java/org/example/cache/LFUCache.java:30-39 | The result is `Lookup` of the old map. The new map is `AfterGet` of the old map. The invariant is kept. |
| `Cache.LfuCache.Put` | src/main/java/org/example/cache/LFUCache.java:41-55 | The new map satisfies `PutStep`, in three cases. A resident key gets the new value and frequency +1. A new key in a full cache goes in with frequency 1 after one minimum-frequency key is evicted. A new key in a cache with room goes in with frequency 1. The invariant is kept. |
| `Cache.LfuCache.EvictLeastFrequentlyUsed` | src/main/java/org/example/cache/LFUCache.java:57-71 | Removes one key of minimal frequency, or nothing when the cache is empty. |
| `Cache.LfuCache.Remove` | src/main/java/org/example/cache/LFUCache.java:73-76 | The new map is the old map without `id`. |
| `Cache.LfuCache.Clear` | src/main/java/org/example/cache/LFUCache.java:78-81 | The new map is empty. |
| `CacheProperties.PutResidentUpdates` | src/main/java/org/example/cache/LfuCache.java:42-46 | Updating a resident key keeps the key set, replaces its value and raises its frequency by 1. All other entries are unchanged, and nothing is evicted. |
| `CacheProperties.PutNewInsertsFresh` | src/main/java/org/example/cache/LfuCache.java:47-53 | After `put` of a new key, the key is resident with the given value and frequency exactly 1, whether or not an eviction happened. |
| `CacheProperties.PutWithRoomEvictsNothing` | src/main/java/org/example/cache/LfuCache.java:47-53 | With room to spare, a new key is added and every old entry stays as it was. |
| `CacheProperties.PutWhenFullEvictsOneMinimal` | src/main/java/org/example/cache/LfuCache.java:48-70 | A new key in a full cache removes exactly one old key, and that key had minimal frequency. Surviving entries are unchanged, and the new key is the only addition. |
| `CacheProperties.PutSparesMoreFrequent` | src/main/java/org/example/cache/LfuCache.java:57-70 | No `put` evicts a key while a key of strictly lower frequency is resident. |
| `CacheProperties.GetAfterPut` | src/main/java/org/example/cache/LfuCache.java:30-55 | Right after `put(id, v)`, `get(id)` hits and returns `v`. The frequency is then 2 for a new key, or the old frequency + 2 for an updated one. |
| `CacheProperties.RemoveDeletesOnlyKey` | src/main/java/org/example/cache/LfuCache.java:73-76 | After `remove(id)`, `id` misses and every other key looks up as before. Removing an absent key changes nothing. |
| `CacheProperties.ClearMissesEverything` | src/main/java/org/example/cache/LfuCache.java:78-80 | After `clear()`, every `get` misses and leaves the cache empty. |
| `CacheProperties.StepPreservesInv` | src/main/java/org/example/cache/LfuCache.java:30-80 | Every operation keeps the size within `Bound(maxCapacity)` and every frequency at least 1. |
| `CacheProperties.StepNeverLowersFrequency` | src/main/java/org/example/cache/LfuCache.java:30-55 | No operation lowers the frequency of a key that stays resident. |
| `CacheProperties.RunKeepsInv` | src/main/java/org/example/cache/LfuCache.java:48-52 | In every state of every run from a new cache, the size is at most the capacity (for capacity ≥ 1) and every frequency is at least 1. |
| `CacheProperties.RunFrequencyGrows` | src/main/java/org/example/cache/LfuCache.java:30-55 | While a key stays resident from one state of a run to a later one, its frequency never decreases. |
| `CacheProperties.RunNeverPutMisses` | src/main/java/org/example/cache/LfuCache.java:30-38 | A key that no earlier `put` named misses in every state of the run. |
| `CacheProperties.EvictionScenario` | src/main/java/org/example/cache/LfuCache.java:41-70 | Capacity 2: put(1,"a"), put(2,"b"), get(1), put(3,"c") evicts key 2, leaving 1→("a", freq 2) and 3→("c", freq 1). After that, get(2) misses. |
| `CacheProperties.NonPositiveCapacityHoldsOne` | src/main/java/org/example/cache/LfuCache.java:48-52 | With capacity ≤ 0 the first put inserts, giving size 1 = `Bound`. A second new key evicts the first and takes its place, so the size stays 1. |
| `CacheProperties.EvictionScenarioOnCache` | src/main/java/org/example/cache/LfuCache.java:41-70 | The capacity-2 eviction scenario run through the class's own `Put` and `Get` contracts: `get(1)` returns "a" and, after `put(3, "c")`, `get(2)` misses. |
| `CacheProperties.UpdateScenario` | src/main/java/org/example/cache/LfuCache.java:41-46 | put(1,"a") then put(1,"b") is an update. A following get(1) returns "b" at frequency 3. |
| `SleepRepository.GetAllAdvices` | src/main/java/org/example/repository/SleepRepository.java:14-27 | The list has exactly three advices, with 8, 7 and 7 recommended hours and pairwise distinct texts. |
| `SleepRepository.GetAdviceById` | src/main/java/org/example/repository/SleepRepository.java:35-40 | An in-range id gives the advice at that position. Any other id gives the 0-hour placeholder. |
| `SleepRepository.PlaceholderIffOutOfRange` | src/main/java/org/example/repository/SleepRepository.java:35-40 | The placeholder (equally, a 0-hour advice) is returned if and only if the id is out of range. |
| `SleepRepository.Matches` | src/main/java/org/example/repository/SleepRepository.java:51-52 | The filter's predicate: each bound that is present is met, `>=` for the minimum and `<=` for the maximum. |
| `SleepRepository.Filter` | src/main/java/org/example/repository/SleepRepository.java:50-53 | Every kept advice meets each present bound. Each matching element of the input is kept, with its exact multiplicity, and non-matching ones never appear. The result is an order-preserving subsequence of the input. |
| `SleepRepository.FilterKeepsAllMatching` | src/main/java/org/example/repository/SleepRepository.java:51-52 | When every element passes, the filter returns its input unchanged. |
| `SleepRepository.GetFilteredAdvices` | src/main/java/org/example/repository/SleepRepository.java:49-54 | The result is sound and complete for the bounds, and a subsequence of the advice list. With both bounds absent it is the whole list. |
| `SleepService.GetAllAdvices` | src/main/java/org/example/service/SleepService.java:30-32 | Returns the repository's list unchanged. |
| `SleepService.GetAdviceById` | src/main/java/org/example/service/SleepService.java:40-46 | Fails with `AdviceIdNotFound(id)` if and only if `id < 0` or `id >= 3`. Otherwise it returns the advice at index `id`. |
| `SleepService.GetAdviceByIdAgreesWithRepository` | src/main/java/org/example/service/SleepService.java:40-46 | The service fails exactly where the repository would return its placeholder. Elsewhere both return the same advice. |
| `SleepService.IsValidHours` | src/main/java/org/example/service/SleepService.java:56-57 | A bound is acceptable when it is absent or lies in 1..24. |
| `SleepService.GetFilteredAdvices` | src/main/java/org/example/service/SleepService.java:55-68 | The result is `InvalidSleepHours` if and only if a present bound lies outside 1..24. Valid bounds with an empty repository answer give `NoAdvicesFound`, in both directions. A success is the repository's filtered list, and it is non-empty. |
| `SleepService.FilteredSucceedsIff` | src/main/java/org/example/service/SleepService.java:55-68 | A filter request succeeds if and only if both bounds are valid and some stored advice lies within them. Every returned advice is then within the bounds, and thus within 1..24 hours where a bound was given. |
| `SleepService.MinHoursExamples` | src/main/java/org/example/service/SleepService.java:55-68 | min 8 gives only the first advice. min 9 with max 24 gives `NoAdvicesFound`. min 0 gives `InvalidSleepHours`. |
| `SleepService.MaxHoursExample` | src/main/java/org/example/service/SleepService.java:55-68 | max 7 gives the second and third advices, in list order. |

## Left out

- `synchronized` and the logger calls in every cache method: the model is sequential, and logging has no effect on the state.
- Cache.FindLeastFrequentlyUsed: it does not use the `Integer.MAX_VALUE` start value. It starts from "nothing seen yet" (`None`) instead. The two agree for every frequency below `Integer.MAX_VALUE`, which Java's `int` cannot exceed. An entry at exactly `Integer.MAX_VALUE` would never be chosen by the original.
- Frequencies are an unbounded `nat`. The wrap-around of Java's `int` after 2^31 − 1 accesses is not modelled.
- Cache.Lookup: Java keys and values are references that may be `null`. The model has no null key. It returns `Some(v)` for a stored value, while in Java a stored `null` is indistinguishable from a miss.
- Stored values are immutable Dafny values. The aliasing of stored Java objects, which callers may mutate in place, is not modelled.
- The healthysleep `LfuCache` base class is not part of this model. Its subclasses (e.g. `src/main/java/org/healthysleep/cache/UserCache.java`) are taken to use the same engine as `org/example/cache/LfuCache.java`.
- The `*Cache` subclasses are not modelled separately: their only content is the capacity 100 passed to the constructor.
- SleepService: the text of each `AdviceNotFoundException` message is not modelled. Each rejection is an `Error` value naming which check failed, and the id where there is one.
- Ids and hour bounds are Java `int`/`Integer`, modelled as unbounded `int`. They are only compared, never computed with, so the width does not matter.
- `model/SleepAdvice.java`, as shown, builds advices from an id, a text, hours and a user set. The repository builds them from a text and hours only. The model keeps just those two fields.
- Entity services, `LogService`, `AuthController`, controllers, aspects, filters, security configuration, JPA entities and repository interfaces: these are framework plumbing, file and thread I/O, foreign cryptography, or generated persistence code.

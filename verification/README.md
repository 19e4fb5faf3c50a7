# Expiring key/value cache, modelled in Dafny

This project models the in-process cache of `utils/cache/cache.go`. The cache is a map
from string keys to items. Each item holds a value and an `int64` deadline in Unix
nanoseconds, and a deadline of `0` means "never expires". Around the map sit:

- expiry-aware reads: `Get`, the lock-free `get`, `GetWithExpiration`, and the
  snapshots `Items` and `Objects`;
- `ItemCount`, which counts every stored entry, expired or not;
- writes: `Set` and `SetDefault` always overwrite; `Add` writes only when no live entry
  holds the key, and `Replace` only when one does;
- removals: `Delete`, the expiry sweep `DeleteExpired`, and `Flush`;
- an optional eviction callback, installed with `OnEvicted`, which `Delete` and
  `DeleteExpired` call with the removed (key, value) pairs.

Every operation here is one atomic step on the map. The wall clock becomes a
`now: int` parameter. A returned "zero time" becomes the deadline `0`.

Layout:

- `expiry.dfy`, module `Expiry`: the `Item` datatype and its `Expired` test. It also
  holds the liveness test `Live` used by every read and by the sweep. Next come the
  deadlines that `Set` (`Deadline`) and the lock-free `set` (`LockFreeDeadline`)
  store, and the rewrite of a zero default TTL (`NormalizeDefault`). The reads over
  the map are `Lookup`, `LookupWithExpiration`, `LiveItems` and `LiveObjects`. The
  module ends with lemmas about all of these.
- `cache.dfy`, module `LocalCache`: class `Cache<V>` with the fields `items`,
  `defaultExpiration`, `hasCallback` (whether a callback is installed) and
  `evicted`. `evicted` logs every pair given to the callback. The methods change
  these fields in place. The sweep is split the way the source splits it: the locked
  scan (`SweepExpired`) comes first, then the loop that calls the callback
  (`DeleteExpired`).
- `cache.dfy`, module `CacheScenarios`: short runs on a fresh cache. Each one is
  proved from the class contracts alone.

Values are an opaque type parameter `V`. Errors are the datatype
`CacheError = KeyExists | KeyNotFound`, returned as `Option<CacheError>`, with `None`
for a nil error.

Behaviour kept exactly as the code has it:

- `set`, used by `Add` and `Replace`, stores the current time as the deadline for a
  positive TTL. `Set` stores `now + ttl` instead. So an entry written by `Add` or
  `Replace` with a positive TTL is dead one nanosecond later (see Findings).
- Creating a cache with a default TTL of `0` turns that default into `-1`, meaning
  "never".
- Reads, snapshots and the sweep count an entry as dead only when its deadline is
  positive and has passed. So every non-positive deadline means "never".
  `Item.Expired` treats only exactly `0` as "never". For a negative deadline the two
  tests disagree. Such a deadline comes from a map passed to `NewFrom`, or from a
  `Set` whose deadline overflows `int64`. No operation calls `Expired`.
- `Delete` hands the removed pair to the callback even when that entry had already
  expired. The lock-free `delete` reports a value only when a callback is installed.

## Model

| member | source | states |
|---|---|---|
| `Expiry.NormalizeDefault` | utils/cache/cache.go:105-108 | the kept default is never `DefaultExpiration`; `0` becomes `NoExpiration` and any other default is kept |
| `Expiry.Lookup` | utils/cache/cache.go:244-257 | a value is found exactly when the key is stored and its entry is live at `now`, and it is the stored value |
| `Expiry.LookupWithExpiration` | utils/cache/cache.go:223-242 | found exactly when `Lookup` finds; reports the stored value, and the stored deadline when positive, else 0 (zero time) |
| `Expiry.LiveItems` | utils/cache/cache.go:88-102 | the snapshot holds exactly the keys `Lookup` finds, each with its stored item |
| `Expiry.LiveObjects` | utils/cache/cache.go:72-86 | the object snapshot has the keys of the item snapshot, and each value is what `Lookup` returns |
| `Expiry.LiveIsMonotone` | utils/cache/cache.go:250-254 | an entry live at a later time is live at every earlier time: once dead, always dead |
| `Expiry.ExpiredIsNotLive` | utils/cache/cache.go:46-51 | for a deadline of 0 or more, `Item.Expired` is exactly the negation of the read-side liveness test |
| `Expiry.ExpiredDisagreesOnNegative` | utils/cache/cache.go:46-51 | a negative deadline that has passed is both `Expired` and live to the reads |
| `Expiry.SetWindow` | utils/cache/cache.go:140-157 | after `Set` with a positive resolved TTL, both lookups return the value (and deadline `now + ttl`) at every time up to `now + ttl`, and miss at every later time |
| `Expiry.SetNeverExpires` | utils/cache/cache.go:141-147 | a write whose resolved TTL is not positive stores deadline 0, so the value is found at every time and reported with the zero time |
| `Expiry.DefaultOfZeroNeverExpires` | utils/cache/cache.go:105-108 | in a cache built with default 0, `DefaultExpiration` resolves to `-1` at write time, stores deadline 0 and is found at every time |
| `Expiry.WriteLeavesOtherKeys` | utils/cache/cache.go:153-156 | writing key `k` changes neither lookup, nor snapshot membership, of any other key |
| `Expiry.LockFreeWriteExpiresAtOnce` | utils/cache/cache.go:159-171 | after the lock-free write with a positive TTL, the value is found at times up to `now` and at no later time, whatever the TTL |
| `Expiry.LockFreeDeadlineLosesTtl` | utils/cache/cache.go:164-165 | a 10 ns TTL written at time 1 is still live at time 2 for `Set`'s deadline but dead for the lock-free write's deadline |
| `Expiry.SweepLeavesLive` | utils/cache/cache.go:294-300 | removing the keys of the dead entries leaves exactly the live snapshot |
| `Expiry.LiveItemsNoLarger` | utils/cache/cache.go:317-322 | the live snapshot is never larger than the whole map that `ItemCount` counts, and is equal in size exactly when no entry is dead |
| `Expiry.LiveItemsIdempotent` | utils/cache/cache.go:88-102 | taking the live snapshot of a live snapshot at the same time changes nothing |
| `Expiry.LiveItemsShrinkOverTime` | utils/cache/cache.go:88-102 | a later snapshot holds no key that an earlier one lacks |
| `LocalCache.Cache.NewFrom` | utils/cache/cache.go:105-114 | the new cache holds the given map and the normalised default, with no callback and an empty eviction log |
| `LocalCache.Cache.New` | utils/cache/cache.go:130-133 | the new cache is empty, with the normalised default, no callback and an empty eviction log |
| `LocalCache.Cache.Get` | utils/cache/cache.go:206-220 | found exactly when the key is stored and live at `now`, and then the stored value |
| `LocalCache.Cache.GetWithExpiration` | utils/cache/cache.go:223-242 | found exactly when live; the reported deadline is never negative, equals the stored one when non-zero, and is zero only for a stored deadline of 0 or less |
| `LocalCache.Cache.ItemCount` | utils/cache/cache.go:317-322 | the count is the number of stored entries, dead ones included |
| `LocalCache.Cache.Items` | utils/cache/cache.go:88-102 | the loop returns exactly the live snapshot at `now`, and the store is not changed |
| `LocalCache.Cache.Objects` | utils/cache/cache.go:72-86 | the loop returns exactly the live object snapshot at `now`, and the store is not changed |
| `LocalCache.Cache.Set` | utils/cache/cache.go:140-157 | `k` now maps to the value with `Set`'s deadline, every other key is unchanged, and nothing else in the cache changes |
| `LocalCache.Cache.SetUnlocked` | utils/cache/cache.go:159-171 | `k` now maps to the value with the lock-free deadline (`now` for a positive TTL), every other key is unchanged |
| `LocalCache.Cache.SetDefault` | utils/cache/cache.go:175-177 | same as `Set` with `DefaultExpiration`, so the deadline comes from the cache's default at write time |
| `LocalCache.Cache.Add` | utils/cache/cache.go:180-191 | KeyExists exactly when a live entry holds `k`, and then the map is unchanged; otherwise success, and `k` maps to the value with the lock-free deadline |
| `LocalCache.Cache.Replace` | utils/cache/cache.go:194-204 | KeyNotFound exactly when no live entry holds `k`, and then the map is unchanged and no entry is created; otherwise `k` alone is overwritten with the lock-free deadline |
| `LocalCache.Cache.DeleteUnlocked` | utils/cache/cache.go:271-280 | `k` is absent afterwards and every other key is unchanged; the old value is reported exactly when a callback is installed and `k` was stored |
| `LocalCache.Cache.Delete` | utils/cache/cache.go:260-269 | `k` is absent afterwards; the eviction log grows by `(k, value)` exactly when a callback is installed and `k` was stored, and by nothing otherwise |
| `LocalCache.Cache.SweepExpired` | utils/cache/cache.go:288-302 | the map becomes the live snapshot; the returned pairs are exactly the dead entries' (key, value) pairs, one per key, when a callback is installed, and none otherwise |
| `LocalCache.Cache.DeleteExpired` | utils/cache/cache.go:288-308 | the map becomes the live snapshot; the log gains exactly the removed pairs, each key once and one call per removed entry, when a callback is installed, and gains nothing otherwise; earlier log entries are kept |
| `LocalCache.Cache.Flush` | utils/cache/cache.go:324-328 | the map is empty, so `ItemCount` is 0, and the eviction log is untouched |
| `LocalCache.Cache.OnEvicted` | utils/cache/cache.go:311-315 | the callback is installed or removed as requested, and nothing else changes |
| `CacheScenarios.AddTwiceAtOnce` | utils/cache/cache.go:180-191 | two adds of one key at the same instant: the first succeeds, the second is KeyExists, and the first value stays |
| `CacheScenarios.AddAgainOneTickLater` | utils/cache/cache.go:159-191 | two adds of one key with a 10 ns TTL, 1 ns apart: both succeed and the second value wins |
| `CacheScenarios.ReplaceMissing` | utils/cache/cache.go:194-204 | replacing an absent key is KeyNotFound and leaves the count at 0 |
| `CacheScenarios.SweepCallsBackOnce` | utils/cache/cache.go:288-308 | a 10 ns entry swept 20 ns later reaches the callback exactly once, then reads as missing, and the count is 0 |
| `CacheScenarios.DeleteAbsent` | utils/cache/cache.go:260-280 | deleting an absent key hands nothing to the callback |
| `CacheScenarios.FlushCallsNoOne` | utils/cache/cache.go:324-328 | flushing a one-entry cache leaves count 0 and hands nothing to the callback |

## Findings

| source | as written | input that shows it | evidently intended | confidence | as-written member | corrected member |
|---|---|---|---|---|---|---|
| utils/cache/cache.go:164-165 | the lock-free `set` used by `Add` and `Replace` stores `Expiration = now` for a positive TTL, dropping the TTL | `Add("k", v, 10ns)` at time 100, then `Add("k", w, 10ns)` at time 101: the second add also succeeds, because the first entry died at time 100 | store `now + d`, as `Set` does at utils/cache/cache.go:145-146 | high; not executed | `Expiry.LockFreeWriteExpiresAtOnce` | `Expiry.SetWindow` |

The corrected deadline is `Expiry.Deadline`. `Cache.Set` and `Cache.SetDefault` use
it. `Cache.Add` and `Cache.Replace` keep the deadline as written (`SetUnlocked`), so
the model matches the code. `CacheScenarios.AddAgainOneTickLater` shows the effect at
the level of the class.

## Left out

- Background reaper: the janitor goroutine, its ticker and stop channel (`janitor.Run`, `runJanitor`, `stopJanitor`) are concurrency. One `DeleteExpired` call is one sweep.
- The finalizer that stops the reaper depends on garbage-collector timing (`runtime.SetFinalizer` in `newCacheWithJanitor`). The `cleanupInterval` constructor argument is therefore dropped.
- Locking: the read/write mutex is not modelled, and every operation is one atomic step. That `Delete` runs the callback while still holding the lock has no sequential meaning.
- Wall-clock reads: `time.Now()` is the `now` parameter. `time.Unix(0, e)` is the integer deadline `e`, and `time.Time{}` is `0`.
- The callback's own code is foreign. Each call is recorded as one pair in `evicted`, and installing a callback is the boolean `hasCallback`.
- Error messages: `fmt.Errorf` text is reduced to the `CacheError` tag.
- Set: deadlines and TTLs are unbounded integers. The 64-bit range of `time.Duration`, `UnixNano` and `time.Add` near year 2262 is not modelled, so `now + d` never overflows here. In the source a `Set` whose deadline passes that range (say a TTL of `math.MaxInt64` today) wraps to a negative deadline. Such an entry then never expires for `Get`, `get`, `Items` or `DeleteExpired`, while `Item.Expired` calls it expired. The model's `Set` expires it at `now + d` instead.
- LocalCache.Cache.NewFrom: the model treats the given map as a value the cache owns, and never nil. The source keeps the caller's map by reference (utils/cache/cache.go:111), so writes through either handle are seen by the other until `Flush` installs a fresh map. The source also accepts a nil map; on one, every write by `Set`, `SetDefault`, `Add` or `Replace` panics, while `Get`, `Delete`, `DeleteExpired` and `ItemCount` work. The model has no such panic and no such sharing.
- Map iteration order: Go ranges over a map in an unspecified order. The sweep loops pick keys with `:|`, so the proofs hold for every order. The order of the callback calls is left unspecified beyond "one per removed key".

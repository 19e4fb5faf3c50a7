/**
 Entries of the local cache and what time does to them.

 An entry is a value with an absolute deadline in Unix nanoseconds; a deadline
 of 0 means the entry never expires. The current time, which the cache reads
 from the wall clock, is an explicit `now` parameter here. Everything in this
 module is a value: the entry map, the reads over it and the deadlines a write
 stores. The class in module LocalCache holds the map and changes it.
 */
module Expiry {

  datatype Option<T> = None | Some(value: T)

  /** TTL sentinel: a write with this TTL (or any other non-positive one) never expires. */
  const NoExpiration: int := -1
  /** TTL sentinel: a write with this TTL uses the store's default TTL. */
  const DefaultExpiration: int := 0

  /** A stored value and its deadline; `expiration == 0` means "never". */
  datatype Item<V> = Item(obj: V, expiration: int) {

    /**
     The entry's own expiry test. It treats only a deadline of exactly 0 as
     "never", so an entry with a negative deadline counts as expired at any
     later time. No operation of the cache uses it.
     */
    predicate Expired(now: int) {
      if expiration == 0 then false else now > expiration
    }
  }

  /**
   The liveness test every read, the snapshots and the expiry sweep apply:
   an entry is dead only when its deadline is positive and already passed.
   */
  predicate Live<V>(item: Item<V>, now: int) {
    !(item.expiration > 0 && now > item.expiration)
  }

  /** The store's default TTL as the constructor keeps it: a default of 0 becomes "never". */
  function NormalizeDefault(de: int): (r: int)
    ensures r != DefaultExpiration
    ensures de != DefaultExpiration ==> r == de
    ensures de == DefaultExpiration ==> r == NoExpiration
  {
    if de == DefaultExpiration then NoExpiration else de
  }

  /** The TTL a write uses: DefaultExpiration stands for the store's default at the time of the write. */
  function ResolveTtl(d: int, de: int): int {
    if d == DefaultExpiration then de else d
  }

  /** The deadline `Set` stores: `now` plus a positive resolved TTL, otherwise 0 (never). */
  function Deadline(now: int, d: int, de: int): int {
    var ttl := ResolveTtl(d, de);
    if ttl > 0 then now + ttl else 0
  }

  /**
   The deadline the lock-free write under `Add` and `Replace` stores: the
   current time itself for a positive resolved TTL, otherwise 0 (never).
   */
  function LockFreeDeadline(now: int, d: int, de: int): int {
    if ResolveTtl(d, de) > 0 then now else 0
  }

  /** The lock-free lookup: the stored value of `k` when its entry is live at `now`. */
  function Lookup<V>(items: map<string, Item<V>>, k: string, now: int): (r: Option<V>)
    ensures r.Some? <==> k in items && Live(items[k], now)
    ensures r.Some? ==> r.value == items[k].obj
  {
    if k !in items then None
    else if items[k].expiration > 0 && now > items[k].expiration then None
    else Some(items[k].obj)
  }

  /**
   A lookup that also reports the deadline: the stored one when it is
   positive, 0 (the zero time) for an entry that never expires.
   */
  function LookupWithExpiration<V>(items: map<string, Item<V>>, k: string, now: int): (r: Option<(V, int)>)
    ensures r.Some? <==> Lookup(items, k, now).Some?
    ensures r.Some? ==> r.value.0 == items[k].obj
    ensures r.Some? ==> r.value.1 == (if items[k].expiration > 0 then items[k].expiration else 0)
  {
    if k !in items then None
    else
      var item := items[k];
      if item.expiration > 0 then
        if now > item.expiration then None else Some((item.obj, item.expiration))
      else
        Some((item.obj, 0))
  }

  /** The snapshot of the live entries at `now`, with their stored items. */
  function LiveItems<V>(items: map<string, Item<V>>, now: int): (r: map<string, Item<V>>)
    ensures forall k :: k in r <==> Lookup(items, k, now).Some?
    ensures forall k :: k in r ==> k in items && r[k] == items[k]
  {
    map k | k in items && Live(items[k], now) :: items[k]
  }

  /** The snapshot of the live entries at `now`, with their stored values only. */
  function LiveObjects<V>(items: map<string, Item<V>>, now: int): (r: map<string, V>)
    ensures r.Keys == LiveItems(items, now).Keys
    ensures forall k :: k in r ==> Lookup(items, k, now) == Some(r[k])
  {
    map k | k in items && Live(items[k], now) :: items[k].obj
  }

  /** The keys of the entries dead at `now`, which the expiry sweep removes. */
  function ExpiredKeys<V>(items: map<string, Item<V>>, now: int): set<string> {
    set k | k in items && !Live(items[k], now)
  }

  /** The entries a sweep has kept so far lose `k` after visiting it exactly when `k` is dead. */
  lemma SweptItemsStep<V>(items: map<string, Item<V>>, now: int, rest: set<string>, k: string)
    requires k in rest && rest <= items.Keys
    ensures Live(items[k], now) ==>
      items - (ExpiredKeys(items, now) - (rest - {k})) == items - (ExpiredKeys(items, now) - rest)
    ensures !Live(items[k], now) ==>
      items - (ExpiredKeys(items, now) - (rest - {k})) == (items - (ExpiredKeys(items, now) - rest)) - {k}
  {
  }

  /** Removing the dead keys leaves exactly the live snapshot. */
  lemma SweepLeavesLive<V>(items: map<string, Item<V>>, now: int)
    ensures items - ExpiredKeys(items, now) == LiveItems(items, now)
  {
  }

  // ---------------------------------------------------------------------
  // Liveness

  /** Once dead, an entry stays dead: liveness at a later time implies liveness now. */
  lemma LiveIsMonotone<V>(item: Item<V>, t1: int, t2: int)
    requires t1 <= t2
    ensures Live(item, t2) ==> Live(item, t1)
  {
  }

  /** For deadlines of 0 or more, the ones a write stores without `int64` overflow, `Expired` is exactly "not live". */
  lemma ExpiredIsNotLive<V>(item: Item<V>, now: int)
    requires item.expiration >= 0
    ensures item.Expired(now) <==> !Live(item, now)
  {
  }

  /**
   A negative deadline, which a map given to the constructor or a `Set` whose
   deadline overflows `int64` can leave, is both expired and live.
   */
  lemma ExpiredDisagreesOnNegative<V>(item: Item<V>, now: int)
    requires item.expiration < 0 && now > item.expiration
    ensures item.Expired(now) && Live(item, now)
  {
  }

  // ---------------------------------------------------------------------
  // Writes and the reads after them

  /**
   After storing `x` under `k` with the deadline `Set` computes for a positive
   resolved TTL, both lookups find `x` at every time up to `now + ttl` and
   miss at every later time. Clock readings are non-negative.
   */
  lemma SetWindow<V>(items: map<string, Item<V>>, k: string, x: V, d: int, de: int, now: int, t: int)
    requires now >= 0 && ResolveTtl(d, de) > 0
    ensures var m := items[k := Item(x, Deadline(now, d, de))];
      && Lookup(m, k, t) == (if t <= now + ResolveTtl(d, de) then Some(x) else None)
      && LookupWithExpiration(m, k, t) == (if t <= now + ResolveTtl(d, de) then Some((x, now + ResolveTtl(d, de))) else None)
  {
  }

  /**
   A write whose resolved TTL is not positive stores deadline 0: the value is
   found at every time and the reported deadline is the zero time.
   */
  lemma SetNeverExpires<V>(items: map<string, Item<V>>, k: string, x: V, d: int, de: int, now: int, t: int)
    requires ResolveTtl(d, de) <= 0
    ensures Deadline(now, d, de) == 0 && LockFreeDeadline(now, d, de) == 0
    ensures Lookup(items[k := Item(x, Deadline(now, d, de))], k, t) == Some(x)
    ensures LookupWithExpiration(items[k := Item(x, Deadline(now, d, de))], k, t) == Some((x, 0))
  {
  }

  /**
   In a store created with default 0 the default becomes "never", so a write
   with DefaultExpiration is resolved to it and stays live for ever.
   */
  lemma DefaultOfZeroNeverExpires<V>(items: map<string, Item<V>>, k: string, x: V, now: int, t: int)
    ensures ResolveTtl(DefaultExpiration, NormalizeDefault(DefaultExpiration)) == NoExpiration
    ensures Deadline(now, DefaultExpiration, NormalizeDefault(DefaultExpiration)) == 0
    ensures Lookup(items[k := Item(x, Deadline(now, DefaultExpiration, NormalizeDefault(DefaultExpiration)))], k, t) == Some(x)
  {
  }

  /** A write to `k` changes no lookup, and no snapshot entry, of any other key. */
  lemma WriteLeavesOtherKeys<V>(items: map<string, Item<V>>, k: string, item: Item<V>, j: string, t: int)
    requires j != k
    ensures Lookup(items[k := item], j, t) == Lookup(items, j, t)
    ensures LookupWithExpiration(items[k := item], j, t) == LookupWithExpiration(items, j, t)
    ensures (j in LiveItems(items[k := item], t)) == (j in LiveItems(items, t))
  {
  }

  /**
   The lock-free write keeps a positive-TTL entry live only up to the moment
   of the write: a lookup at `now` still finds it, any later one misses.
   */
  lemma LockFreeWriteExpiresAtOnce<V>(items: map<string, Item<V>>, k: string, x: V, d: int, de: int, now: int, t: int)
    requires now > 0 && ResolveTtl(d, de) > 0
    ensures Lookup(items[k := Item(x, LockFreeDeadline(now, d, de))], k, t) == (if t <= now then Some(x) else None)
  {
  }

  /**
   A concrete witness: with a 10 ns TTL written at time 1, a lookup at time 2
   finds the value `Set` stored but not the value the lock-free write stored.
   */
  lemma LockFreeDeadlineLosesTtl<V>(x: V)
    ensures Lookup(map["k" := Item(x, Deadline(1, 10, NoExpiration))], "k", 2) == Some(x)
    ensures Lookup(map["k" := Item(x, LockFreeDeadline(1, 10, NoExpiration))], "k", 2) == None
  {
  }

  // ---------------------------------------------------------------------
  // Snapshots, counts and the expiry sweep

  /** Cardinality of a subset, and equality when the sizes agree. */
  lemma SubsetCard<T>(a: set<T>, b: set<T>)
    requires a <= b
    ensures |a| <= |b|
    ensures |a| == |b| ==> a == b
  {
    assert b == a + (b - a);
    assert |b| == |a| + |b - a|;
    if |a| == |b| {
      assert |b - a| == 0;
      assert b - a == {};
    }
  }

  /**
   The live snapshot is never larger than the whole map (which is what the
   item count reports), and it is as large exactly when no entry is dead.
   */
  lemma LiveItemsNoLarger<V>(items: map<string, Item<V>>, now: int)
    ensures |LiveItems(items, now)| <= |items|
    ensures |LiveItems(items, now)| == |items| <==> forall k :: k in items ==> Live(items[k], now)
  {
    var live := LiveItems(items, now);
    assert live.Keys <= items.Keys;
    SubsetCard(live.Keys, items.Keys);
    assert |live| == |live.Keys| && |items| == |items.Keys|;
    if forall k :: k in items ==> Live(items[k], now) {
      assert live.Keys == items.Keys;
    }
    if |live| == |items| {
      assert live.Keys == items.Keys;
      forall k | k in items ensures Live(items[k], now) {
        assert k in live;
      }
    }
  }

  /** Taking the live snapshot twice at the same time changes nothing. */
  lemma LiveItemsIdempotent<V>(items: map<string, Item<V>>, now: int)
    ensures LiveItems(LiveItems(items, now), now) == LiveItems(items, now)
  {
  }

  /** A later snapshot never holds a key an earlier one lacks. */
  lemma LiveItemsShrinkOverTime<V>(items: map<string, Item<V>>, t1: int, t2: int)
    requires t1 <= t2
    ensures LiveItems(items, t2).Keys <= LiveItems(items, t1).Keys
  {
  }
}

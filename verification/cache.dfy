/**
 The cache object: a map from string keys to entries, the store's default
 TTL, whether an eviction callback is installed, and the log of the (key,
 value) pairs that callback has been given. Every operation is one atomic
 step; the current time is its `now` parameter.
 */
module LocalCache {
  import opened Expiry

  /** The two failures of the cache: a live entry already holds the key, or none does. */
  datatype CacheError = KeyExists | KeyNotFound

  /** No key occurs twice among the pairs. */
  predicate DistinctKeys<V>(s: seq<(string, V)>) {
    forall i, j :: 0 <= i < j < |s| ==> s[i].0 != s[j].0
  }

  /**
   What the expiry sweep has collected after visiting every key of `items0`
   outside `rest`: with a callback, exactly the dead visited entries' pairs,
   one per key; without one, nothing.
   */
  ghost predicate SweptSoFar<V>(batch: seq<(string, V)>, items0: map<string, Item<V>>, now: int, rest: set<string>, callback: bool) {
    && (!callback ==> batch == [])
    && (forall i :: 0 <= i < |batch| ==>
         batch[i].0 in items0 && !Live(items0[batch[i].0], now) && batch[i].1 == items0[batch[i].0].obj)
    && (callback ==> forall k :: k in items0 && k !in rest && !Live(items0[k], now) ==>
         exists i :: 0 <= i < |batch| && batch[i].0 == k)
    && (forall i :: 0 <= i < |batch| ==> batch[i].0 !in rest)
    && DistinctKeys(batch)
  }

  /** Visiting `k` extends the collected pairs by `k`'s pair exactly when a callback is installed and `k` is dead. */
  lemma SweepStep<V>(batch: seq<(string, V)>, items0: map<string, Item<V>>, now: int, rest: set<string>, callback: bool, k: string)
    requires SweptSoFar(batch, items0, now, rest, callback)
    requires k in rest && rest <= items0.Keys
    ensures SweptSoFar(if callback && !Live(items0[k], now) then batch + [(k, items0[k].obj)] else batch,
                       items0, now, rest - {k}, callback)
  {
    if callback && !Live(items0[k], now) {
      SweepTake(batch, items0, now, rest, k);
    } else {
      SweepSkip(batch, items0, now, rest, callback, k);
    }
  }

  /** Visiting a key that contributes nothing keeps the collected pairs as they are. */
  lemma SweepSkip<V>(batch: seq<(string, V)>, items0: map<string, Item<V>>, now: int, rest: set<string>, callback: bool, k: string)
    requires SweptSoFar(batch, items0, now, rest, callback)
    requires k in rest && rest <= items0.Keys
    requires callback ==> Live(items0[k], now)
    ensures SweptSoFar(batch, items0, now, rest - {k}, callback)
  {
  }

  /** Visiting a dead key with a callback installed appends its pair. */
  lemma SweepTake<V>(batch: seq<(string, V)>, items0: map<string, Item<V>>, now: int, rest: set<string>, k: string)
    requires SweptSoFar(batch, items0, now, rest, true)
    requires k in rest && rest <= items0.Keys && !Live(items0[k], now)
    ensures SweptSoFar(batch + [(k, items0[k].obj)], items0, now, rest - {k}, true)
  {
    var next := batch + [(k, items0[k].obj)];
    AppendKeepsDistinct(batch, (k, items0[k].obj));
    forall j | j in items0 && j !in rest - {k} && !Live(items0[j], now)
      ensures exists i :: 0 <= i < |next| && next[i].0 == j
    {
      if j == k {
        assert next[|batch|].0 == j;
      } else {
        var i :| 0 <= i < |batch| && batch[i].0 == j;
        assert next[i].0 == j;
      }
    }
  }

  /** Appending a pair whose key the sequence lacks keeps the keys distinct. */
  lemma AppendKeepsDistinct<V>(s: seq<(string, V)>, p: (string, V))
    requires DistinctKeys(s)
    requires forall i :: 0 <= i < |s| ==> s[i].0 != p.0
    ensures DistinctKeys(s + [p])
  {
  }

  /** Once every key is visited, the collected pairs are exactly the dead entries' pairs. */
  lemma SweptAll<V>(batch: seq<(string, V)>, items0: map<string, Item<V>>, now: int, callback: bool)
    requires SweptSoFar(batch, items0, now, {}, callback)
    ensures !callback ==> batch == []
    ensures callback ==> forall p :: p in batch <==>
      p.0 in items0 && !Live(items0[p.0], now) && p.1 == items0[p.0].obj
    ensures callback ==> |batch| == |ExpiredKeys(items0, now)|
    ensures DistinctKeys(batch)
  {
    if callback {
      forall k ensures k in KeysOf(batch) <==> k in ExpiredKeys(items0, now) {
        KeysOfMembers(batch, k);
      }
      assert KeysOf(batch) == ExpiredKeys(items0, now);
      DistinctKeysCount(batch);
      forall p: (string, V) | p.0 in items0 && !Live(items0[p.0], now) && p.1 == items0[p.0].obj
        ensures p in batch
      {
        var i :| 0 <= i < |batch| && batch[i].0 == p.0;
        assert batch[i] == p;
      }
    }
  }

  /** The keys occurring in a sequence of pairs. */
  ghost function KeysOf<V>(s: seq<(string, V)>): set<string> {
    if |s| == 0 then {} else {s[0].0} + KeysOf(s[1..])
  }

  /** A key is in `KeysOf(s)` exactly when some pair of `s` carries it. */
  lemma {:induction false} KeysOfMembers<V>(s: seq<(string, V)>, k: string)
    ensures k in KeysOf(s) <==> exists i :: 0 <= i < |s| && s[i].0 == k
  {
    if |s| > 0 {
      KeysOfMembers(s[1..], k);
      if k in KeysOf(s[1..]) {
        var i :| 0 <= i < |s[1..]| && s[1..][i].0 == k;
        assert s[i + 1].0 == k;
      }
      if exists i :: 0 <= i < |s| && s[i].0 == k {
        var i :| 0 <= i < |s| && s[i].0 == k;
        if i > 0 {
          assert s[1..][i - 1].0 == k;
        }
      }
    }
  }

  /** With distinct keys there are as many keys as pairs. */
  lemma {:induction false} DistinctKeysCount<V>(s: seq<(string, V)>)
    requires DistinctKeys(s)
    ensures |KeysOf(s)| == |s|
  {
    if |s| > 0 {
      assert DistinctKeys(s[1..]) by {
        forall i, j | 0 <= i < j < |s[1..]| ensures s[1..][i].0 != s[1..][j].0 {
          assert s[1..][i] == s[i + 1] && s[1..][j] == s[j + 1];
        }
      }
      DistinctKeysCount(s[1..]);
      forall i | 0 <= i < |s[1..]| ensures s[1..][i].0 != s[0].0 {
        assert s[1..][i] == s[i + 1];
      }
      KeysOfMembers(s[1..], s[0].0);
      assert KeysOf(s) == {s[0].0} + KeysOf(s[1..]);
    }
  }

  class Cache<V> {
    /** The default TTL; never DefaultExpiration once the constructor has run. */
    var defaultExpiration: int
    var items: map<string, Item<V>>
    /** Whether an eviction callback is installed. */
    var hasCallback: bool
    /** Every (key, value) pair handed to the eviction callback, in call order. */
    var evicted: seq<(string, V)>

    /** A store over a given entry map; a default TTL of 0 is kept as "never". */
    constructor NewFrom(de: int, m: map<string, Item<V>>)
      ensures defaultExpiration == NormalizeDefault(de) && items == m
      ensures !hasCallback && evicted == []
    {
      defaultExpiration := NormalizeDefault(de);
      items := m;
      hasCallback := false;
      evicted := [];
    }

    /** An empty store. */
    constructor New(de: int)
      ensures defaultExpiration == NormalizeDefault(de) && items == map[]
      ensures !hasCallback && evicted == []
    {
      defaultExpiration := NormalizeDefault(de);
      items := map[];
      hasCallback := false;
      evicted := [];
    }

    // -------------------------------------------------------------------
    // Reads

    /** The value of `k` when a live entry holds it at `now`. */
    function Get(k: string, now: int): (r: Option<V>)
      reads this
      ensures r.Some? <==> k in items && Live(items[k], now)
      ensures r.Some? ==> r.value == items[k].obj
    {
      Lookup(items, k, now)
    }

    /** The value and deadline of `k` (0 for "never") when a live entry holds it at `now`. */
    function GetWithExpiration(k: string, now: int): (r: Option<(V, int)>)
      reads this
      ensures r.Some? <==> k in items && Live(items[k], now)
      ensures r.Some? ==> r.value.0 == items[k].obj && r.value.1 >= 0
      ensures r.Some? && r.value.1 != 0 ==> r.value.1 == items[k].expiration
      ensures r.Some? && r.value.1 == 0 ==> items[k].expiration <= 0
    {
      LookupWithExpiration(items, k, now)
    }

    /** The number of stored entries, dead ones not yet removed included. */
    function ItemCount(): (n: nat)
      reads this
      ensures n == |items|
    {
      |items|
    }

    /** A fresh map of the entries live at `now`; the store is not changed. */
    method Items(now: int) returns (m: map<string, Item<V>>)
      ensures m == LiveItems(items, now)
    {
      m := map[];
      var rest := items.Keys;
      while rest != {}
        invariant rest <= items.Keys
        invariant forall j :: j in m <==> j in items && j !in rest && Live(items[j], now)
        invariant forall j :: j in m ==> m[j] == items[j]
        decreases rest
      {
        var k :| k in rest;
        var v := items[k];
        if !(v.expiration > 0 && now > v.expiration) {
          m := m[k := v];
        }
        rest := rest - {k};
      }
    }

    /** A fresh map from the keys live at `now` to their values; the store is not changed. */
    method Objects(now: int) returns (m: map<string, V>)
      ensures m == LiveObjects(items, now)
    {
      m := map[];
      var rest := items.Keys;
      while rest != {}
        invariant rest <= items.Keys
        invariant forall j :: j in m <==> j in items && j !in rest && Live(items[j], now)
        invariant forall j :: j in m ==> m[j] == items[j].obj
        decreases rest
      {
        var k :| k in rest;
        var v := items[k];
        if !(v.expiration > 0 && now > v.expiration) {
          m := m[k := v.obj];
        }
        rest := rest - {k};
      }
    }

    // -------------------------------------------------------------------
    // Writes

    /** Stores `x` under `k` with deadline `now + d` (or "never"), whatever `k` held before. */
    method Set(k: string, x: V, d: int, now: int)
      modifies this`items
      ensures items == old(items)[k := Item(x, Deadline(now, d, defaultExpiration))]
    {
      var e := 0;
      var ttl := d;
      if ttl == DefaultExpiration {
        ttl := defaultExpiration;
      }
      if ttl > 0 {
        e := now + ttl;
      }
      items := items[k := Item(x, e)];
    }

    /**
     The write `Add` and `Replace` perform under their own lock: like `Set`,
     except that a positive TTL stores the current time as the deadline.
     */
    method SetUnlocked(k: string, x: V, d: int, now: int)
      modifies this`items
      ensures items == old(items)[k := Item(x, LockFreeDeadline(now, d, defaultExpiration))]
    {
      var e := 0;
      var ttl := d;
      if ttl == DefaultExpiration {
        ttl := defaultExpiration;
      }
      if ttl > 0 {
        e := now;
      }
      items := items[k := Item(x, e)];
    }

    /** `Set` with the store's default TTL. */
    method SetDefault(k: string, x: V, now: int)
      modifies this`items
      ensures items == old(items)[k := Item(x, Deadline(now, DefaultExpiration, defaultExpiration))]
    {
      Set(k, x, DefaultExpiration, now);
    }

    /** Stores `x` under `k` unless a live entry holds `k`, which is KeyExists and changes nothing. */
    method Add(k: string, x: V, d: int, now: int) returns (err: Option<CacheError>)
      modifies this`items
      ensures err == (if Lookup(old(items), k, now).Some? then Some(KeyExists) else None)
      ensures err.Some? ==> items == old(items)
      ensures err.None? ==> items == old(items)[k := Item(x, LockFreeDeadline(now, d, defaultExpiration))]
    {
      var found := Lookup(items, k, now).Some?;
      if found {
        return Some(KeyExists);
      }
      SetUnlocked(k, x, d, now);
      return None;
    }

    /** Stores `x` under `k` only if a live entry holds `k`; otherwise KeyNotFound and nothing changes. */
    method Replace(k: string, x: V, d: int, now: int) returns (err: Option<CacheError>)
      modifies this`items
      ensures err == (if Lookup(old(items), k, now).None? then Some(KeyNotFound) else None)
      ensures err.Some? ==> items == old(items)
      ensures err.None? ==> items == old(items)[k := Item(x, LockFreeDeadline(now, d, defaultExpiration))]
    {
      var found := Lookup(items, k, now).Some?;
      if !found {
        return Some(KeyNotFound);
      }
      SetUnlocked(k, x, d, now);
      return None;
    }

    // -------------------------------------------------------------------
    // Removals

    /**
     Removes `k`. The removed value is reported only when a callback is
     installed and `k` was stored, dead or alive.
     */
    method DeleteUnlocked(k: string) returns (v: Option<V>)
      modifies this`items
      ensures items == old(items) - {k}
      ensures v == (if hasCallback && k in old(items) then Some(old(items)[k].obj) else None)
    {
      if hasCallback {
        if k in items {
          v := Some(items[k].obj);
          items := items - {k};
          return;
        }
      }
      items := items - {k};
      v := None;
    }

    /**
     Removes `k`; when a callback is installed and `k` was stored, the
     callback receives `k` and its value.
     */
    method Delete(k: string)
      modifies this`items, this`evicted
      ensures items == old(items) - {k}
      ensures evicted == old(evicted) + (if hasCallback && k in old(items) then [(k, old(items)[k].obj)] else [])
    {
      var v := DeleteUnlocked(k);
      if v.Some? {
        evicted := evicted + [(k, v.value)];
      }
    }

    /**
     The part of the expiry sweep done under the lock: removes every entry
     dead at `now` and returns the removed pairs, in scan order, when a
     callback is installed (none otherwise).
     */
    method SweepExpired(now: int) returns (batch: seq<(string, V)>)
      modifies this`items
      ensures items == LiveItems(old(items), now)
      ensures !hasCallback ==> batch == []
      ensures hasCallback ==> forall p :: p in batch <==>
        p.0 in old(items) && !Live(old(items)[p.0], now) && p.1 == old(items)[p.0].obj
      ensures hasCallback ==> |batch| == |ExpiredKeys(old(items), now)|
      ensures DistinctKeys(batch)
    {
      batch := [];
      var rest := items.Keys;
      while rest != {}
        invariant rest <= old(items).Keys
        invariant items == old(items) - (ExpiredKeys(old(items), now) - rest)
        invariant SweptSoFar(batch, old(items), now, rest, hasCallback)
        decreases rest
      {
        var k :| k in rest;
        var v := items[k];
        SweepStep(batch, old(items), now, rest, hasCallback, k);
        SweptItemsStep(old(items), now, rest, k);
        if v.expiration > 0 && now > v.expiration {
          var ov := DeleteUnlocked(k);
          if ov.Some? {
            batch := batch + [(k, ov.value)];
          }
        }
        rest := rest - {k};
      }
      SweepLeavesLive(old(items), now);
      SweptAll(batch, old(items), now, hasCallback);
    }

    /**
     Removes every entry dead at `now`, then, outside the lock, hands each
     removed pair to the callback once, in the order the scan met them.
     Without a callback nothing is handed over.
     */
    method DeleteExpired(now: int)
      modifies this`items, this`evicted
      ensures items == LiveItems(old(items), now)
      ensures |evicted| >= |old(evicted)| && evicted[..|old(evicted)|] == old(evicted)
      ensures !hasCallback ==> evicted == old(evicted)
      ensures hasCallback ==> forall p :: p in evicted[|old(evicted)|..] <==>
        p.0 in old(items) && !Live(old(items)[p.0], now) && p.1 == old(items)[p.0].obj
      ensures hasCallback ==> |evicted| - |old(evicted)| == |ExpiredKeys(old(items), now)|
      ensures DistinctKeys(evicted[|old(evicted)|..])
    {
      var batch := SweepExpired(now);
      var i := 0;
      while i < |batch|
        modifies this`evicted
        invariant 0 <= i <= |batch|
        invariant evicted == old(evicted) + batch[..i]
      {
        evicted := evicted + [batch[i]];
        i := i + 1;
      }
      assert batch[..i] == batch;
      assert evicted[|old(evicted)|..] == batch;
    }

    /** Removes every entry without handing any to the callback. */
    method Flush()
      modifies this`items
      ensures items == map[] && ItemCount() == 0
    {
      items := map[];
    }

    /** Installs (`installed`) or removes the eviction callback; earlier removals are not replayed. */
    method OnEvicted(installed: bool)
      modifies this`hasCallback
      ensures hasCallback == installed
    {
      hasCallback := installed;
    }
  }
}

/**
 Scenarios on a fresh store, each proved from the contracts of the class
 alone. Times are in nanoseconds.
 */
module CacheScenarios {
  import opened Expiry
  import opened LocalCache

  /** Two adds of one key at the same instant: the second is KeyExists and the first value stays. */
  method AddTwiceAtOnce<V>(v1: V, v2: V) returns (first: Option<CacheError>, second: Option<CacheError>, got: Option<V>)
    ensures first == None && second == Some(KeyExists) && got == Some(v1)
  {
    var c := new Cache<V>.New(DefaultExpiration);
    first := c.Add("k", v1, 10, 100);
    second := c.Add("k", v2, 10, 100);
    got := c.Get("k", 100);
  }

  /**
   The same two adds one nanosecond apart: the first entry, written with a
   10 ns TTL, is already dead, so the second add succeeds too.
   */
  method AddAgainOneTickLater<V>(v1: V, v2: V) returns (first: Option<CacheError>, second: Option<CacheError>, got: Option<V>)
    ensures first == None && second == None && got == Some(v2)
  {
    var c := new Cache<V>.New(DefaultExpiration);
    first := c.Add("k", v1, 10, 100);
    second := c.Add("k", v2, 10, 101);
    got := c.Get("k", 101);
  }

  /** Replacing a key nobody stored fails and creates no entry. */
  method ReplaceMissing<V>(v: V) returns (err: Option<CacheError>, count: nat)
    ensures err == Some(KeyNotFound) && count == 0
  {
    var c := new Cache<V>.New(DefaultExpiration);
    err := c.Replace("missing", v, 10, 100);
    count := c.ItemCount();
  }

  /**
   A 10 ns entry swept 20 ns later: the callback receives it exactly once,
   the key reads as missing and the count drops to zero.
   */
  method SweepCallsBackOnce<V>(v: V) returns (log: seq<(string, V)>, got: Option<V>, count: nat)
    ensures log == [("k", v)] && got == None && count == 0
  {
    var c := new Cache<V>.New(DefaultExpiration);
    c.OnEvicted(true);
    c.Set("k", v, 10, 0);
    c.DeleteExpired(20);
    log := c.evicted;
    assert forall p :: p in log ==> p == ("k", v);
    assert ("k", v) in log;
    assert ExpiredKeys(map["k" := Item(v, 10)], 20) == {"k"};
    got := c.Get("k", 20);
    count := c.ItemCount();
    assert c.items == map[];
  }

  /** Deleting a key nobody stored hands nothing to the callback. */
  method DeleteAbsent<V>() returns (log: seq<(string, V)>, count: nat)
    ensures log == [] && count == 0
  {
    var c := new Cache<V>.New(DefaultExpiration);
    c.OnEvicted(true);
    c.Delete("absent");
    log := c.evicted;
    count := c.ItemCount();
  }

  /** Flushing a non-empty store empties it and hands nothing to the callback. */
  method FlushCallsNoOne<V>(v: V) returns (before: nat, log: seq<(string, V)>, count: nat)
    ensures before == 1 && log == [] && count == 0
  {
    var c := new Cache<V>.New(DefaultExpiration);
    c.OnEvicted(true);
    c.SetDefault("k", v, 0);
    before := c.ItemCount();
    c.Flush();
    log := c.evicted;
    count := c.ItemCount();
  }
}

/**
 The tenant connection cache of src/database/data-source.ts: a bounded map of timestamped entries,
 evicted by oldest timestamp, swept by idle time. Date.now() is the `now` parameter of each call.
 */
module ConnectionCache {
  import opened Basics

  const CONNECTION_TIMEOUT: int := 60 * 60 * 1000
  const MAX_CONNECTIONS: nat := 100

  /** `lastUsed` and `tenantId` as stored; `initialized` is the connection's own state. */
  datatype Entry = Entry(tenantId: string, lastUsed: int, initialized: bool)

  type Cache = map<string, Entry>

  /** What AppDataSource hands out: a live cached connection, or one still to be initialized. */
  datatype Handle = Existing(entry: Entry) | Fresh(tenantId: string)

  /** `${DATABASE_URL}_${schemaName}` */
  function KeyOf(url: string, tenantId: string): string {
    url + "_" + (if tenantId == "" then "" else "tenant_" + tenantId)
  }

  /** Two tenants never share a cache key. */
  lemma KeyIsInjective(url: string, a: string, b: string)
    requires KeyOf(url, a) == KeyOf(url, b)
    ensures a == b
  {
    var schemaA, schemaB := KeyOf(url, a)[|url| + 1..], KeyOf(url, b)[|url| + 1..];
    assert schemaA == if a == "" then "" else "tenant_" + a;
    assert schemaB == if b == "" then "" else "tenant_" + b;
    if a != "" && b != "" {
      assert schemaA[7..] == a && schemaB[7..] == b;
    }
  }

  // ---------------------------------------------------------------- the abstract LRU list

  /** Least recently used first. */
  function Without(recency: seq<string>, key: string): seq<string> {
    Filter(k => k != key, recency)
  }

  function Touch(recency: seq<string>, key: string): seq<string> {
    Without(recency, key) + [key]
  }

  function MakeRoom(recency: seq<string>): seq<string> {
    if |recency| >= MAX_CONNECTIONS then recency[1..] else recency
  }

  ghost predicate Ascending(recency: seq<string>, cache: Cache)
    requires forall i :: 0 <= i < |recency| ==> recency[i] in cache
  {
    forall i, j :: 0 <= i < j < |recency| ==> cache[recency[i]].lastUsed < cache[recency[j]].lastUsed
  }

  /** One access on the bounded LRU list: a hit moves the key to the end, a miss makes room and appends it. */
  function Accessed(recency: seq<string>, key: string, hit: bool): seq<string> {
    if hit then Touch(recency, key) else MakeRoom(Without(recency, key)) + [key]
  }

  lemma AccessFits(recency: seq<string>, key: string, hit: bool)
    requires |recency| <= MAX_CONNECTIONS && (hit ==> key in recency)
    ensures |Accessed(recency, key, hit)| <= MAX_CONNECTIONS
    ensures !hit ==> key !in MakeRoom(Without(recency, key))
  {
    WithoutShrinks(recency, key);
    WithoutLacks(recency, key);
    if hit {
      OneFewer(recency, key);
    }
  }

  lemma {:induction false} WithoutLacks(recency: seq<string>, key: string)
    ensures key !in Without(recency, key)
  {
    if recency != [] {
      WithoutLacks(recency[1..], key);
    }
  }

  /** The timestamps order the cached keys strictly as `recency` lists them. */
  ghost predicate Orders(recency: seq<string>, cache: Cache) {
    && (forall i :: 0 <= i < |recency| ==> recency[i] in cache)
    && (forall key :: key in cache ==> key in recency)
    && Ascending(recency, cache)
  }

  ghost predicate UsedUpTo(cache: Cache, clock: int) {
    forall key :: key in cache ==> cache[key].lastUsed <= clock
  }

  ghost predicate Isolated(cache: Cache, url: string) {
    forall key :: key in cache ==> key == KeyOf(url, cache[key].tenantId)
  }

  lemma {:induction false} DistinctSize(recency: seq<string>, keys: set<string>)
    requires forall i, j :: 0 <= i < j < |recency| ==> recency[i] != recency[j]
    requires forall k :: k in recency <==> k in keys
    ensures |keys| == |recency|
  {
    if recency == [] {
      assert keys == {};
    } else {
      DistinctSize(recency[1..], keys - {recency[0]});
      assert recency[0] in keys;
    }
  }

  lemma OrderSize(recency: seq<string>, cache: Cache)
    requires Orders(recency, cache)
    ensures |cache| == |recency|
  {
    assert forall i, j :: 0 <= i < j < |recency| ==> recency[i] != recency[j];
    DistinctSize(recency, cache.Keys);
    assert |cache| == |cache.Keys|;
  }

  /** Removing a key by value removes its one position. */
  lemma {:induction false} WithoutAt(recency: seq<string>, n: nat)
    requires n < |recency|
    requires forall i, j :: 0 <= i < j < |recency| ==> recency[i] != recency[j]
    ensures Without(recency, recency[n]) == recency[..n] + recency[n + 1..]
  {
    var rest := recency[1..];
    if n == 0 {
      WithoutAbsent(rest, recency[0]);
    } else {
      assert rest[n - 1] == recency[n];
      WithoutAt(rest, n - 1);
      assert [recency[0]] + rest[..n - 1] == recency[..n] && rest[n..] == recency[n + 1..];
    }
  }

  lemma DropAtIndices(recency: seq<string>, n: nat)
    requires n < |recency|
    ensures var rest := recency[..n] + recency[n + 1..];
      && (forall i :: 0 <= i < |rest| ==> rest[i] == recency[if i < n then i else i + 1])
      && (forall k :: k in recency && k != recency[n] ==> k in rest)
  {
    var rest := recency[..n] + recency[n + 1..];
    forall k | k in recency && k != recency[n]
      ensures k in rest
    {
      var i :| 0 <= i < |recency| && recency[i] == k;
      assert rest[if i < n then i else i - 1] == k;
    }
  }

  lemma DropAt(recency: seq<string>, cache: Cache, n: nat)
    requires Orders(recency, cache) && n < |recency|
    ensures Orders(recency[..n] + recency[n + 1..], cache - {recency[n]})
  {
    DropAtIndices(recency, n);
    var rest, gone, left := recency[..n] + recency[n + 1..], recency[n], cache - {recency[n]};
    forall i | 0 <= i < |rest|
      ensures rest[i] in left && left[rest[i]] == cache[recency[if i < n then i else i + 1]]
    {
      assert rest[i] == recency[if i < n then i else i + 1];
    }
  }

  lemma WithoutAbsent(recency: seq<string>, key: string)
    requires key !in recency
    ensures Without(recency, key) == recency
  {
    FilterAll(k => k != key, recency);
  }

  lemma RemoveKeepsOrder(recency: seq<string>, cache: Cache, key: string)
    requires Orders(recency, cache)
    ensures Orders(Without(recency, key), cache - {key})
  {
    if key in cache {
      var n :| 0 <= n < |recency| && recency[n] == key;
      WithoutAt(recency, n);
      DropAt(recency, cache, n);
    } else {
      WithoutAbsent(recency, key);
      assert cache - {key} == cache;
    }
  }

  /** Writing an entry with a timestamp newer than all others makes it the most recent. */
  lemma WriteTouches(recency: seq<string>, cache: Cache, key: string, entry: Entry)
    requires Orders(recency, cache)
    requires forall k :: k in cache ==> cache[k].lastUsed < entry.lastUsed
    ensures Orders(Touch(recency, key), cache[key := entry])
  {
    RemoveKeepsOrder(recency, cache, key);
    var rest := Without(recency, key);
    assert forall i :: 0 <= i < |rest| ==> rest[i] in cache - {key};
    forall k | k in cache[key := entry]
      ensures k in Touch(recency, key)
    {
      if k != key {
        assert k in cache - {key} && k in rest;
      } else {
        assert Touch(recency, key)[|rest|] == key;
      }
    }
  }

  // ---------------------------------------------------------------- one access to the map

  predicate Hit(url: string, cache: Cache, tenantId: string) {
    KeyOf(url, tenantId) in cache && cache[KeyOf(url, tenantId)].initialized
  }

  /** What the eviction scan looks for: an entry older than the clock and no newer than any other. */
  ghost predicate IsOldest(cache: Cache, now: int, key: string) {
    key in cache && cache[key].lastUsed < now && forall k :: k in cache ==> cache[key].lastUsed <= cache[k].lastUsed
  }

  /** The entry an eviction removes; `hint` says which of equally old ones the scan meets first. None is
      older than the clock, none goes. */
  ghost function Victim(cache: Cache, now: int, hint: string): (victim: Option<string>)
    ensures victim.Some? ==> IsOldest(cache, now, victim.value)
    ensures victim.None? <==> forall k :: k in cache ==> now <= cache[k].lastUsed
  {
    if IsOldest(cache, now, hint) then Some(hint)
    else if cache.Keys != {} && now > cache[Earliest(cache, cache.Keys)].lastUsed then Some(Earliest(cache, cache.Keys))
    else None
  }

  ghost function Earliest(cache: Cache, keys: set<string>): (key: string)
    requires keys != {} && keys <= cache.Keys
    ensures key in keys && forall k :: k in keys ==> cache[key].lastUsed <= cache[k].lastUsed
  {
    var first :| first in keys;
    if keys == {first} then first
    else
      var rest := Earliest(cache, keys - {first});
      if cache[first].lastUsed <= cache[rest].lastUsed then first else rest
  }

  ghost function Evicted(cache: Cache, now: int, hint: string): Cache {
    if |cache| < MAX_CONNECTIONS then cache
    else
      match Victim(cache, now, hint)
      case Some(key) => cache - {key}
      case None => cache
  }

  /** AppDataSource on the map: a hit takes a new timestamp; a miss drops a dead entry and makes room. */
  ghost function Asked(url: string, cache: Cache, tenantId: string, now: int, hint: string): Cache {
    var key := KeyOf(url, tenantId);
    if Hit(url, cache, tenantId) then cache[key := cache[key].(lastUsed := now)] else Evicted(cache - {key}, now, hint)
  }

  function Finished(url: string, cache: Cache, tenantId: string, now: int): Cache {
    cache[KeyOf(url, tenantId) := Entry(tenantId, now, true)]
  }

  function Lost(cache: Cache, key: string): Cache {
    if key in cache then cache[key := cache[key].(initialized := false)] else cache
  }

  function Swept(cache: Cache, now: int): Cache {
    map key | key in cache && now - cache[key].lastUsed <= CONNECTION_TIMEOUT :: cache[key]
  }

  /** The same access on the LRU list. */
  function AskedRecency(recency: seq<string>, key: string, hit: bool): seq<string> {
    if hit then Touch(recency, key) else MakeRoom(Without(recency, key))
  }

  /** At the limit the least recently used entry, and only it, gives way, if the clock is past every timestamp. */
  lemma EvictedIsHead(recency: seq<string>, cache: Cache, now: int, hint: string)
    requires Orders(recency, cache) && forall k :: k in cache ==> cache[k].lastUsed < now
    ensures Orders(MakeRoom(recency), Evicted(cache, now, hint))
  {
    OrderSize(recency, cache);
    if |cache| >= MAX_CONNECTIONS {
      assert recency[0] in cache;
      LeastRecentIsHead(recency, cache, Victim(cache, now, hint).value);
    }
  }

  /** With a clock that has advanced, an access to the map is an access to the LRU list. */
  lemma AskedIsLru(
    recency: seq<string>, url: string, cache: Cache, clock: int, tenantId: string, now: int, hint: string)
    requires Orders(recency, cache) && UsedUpTo(cache, clock) && clock < now
    ensures var key := KeyOf(url, tenantId); var after := Asked(url, cache, tenantId, now, hint);
      Orders(AskedRecency(recency, key, Hit(url, cache, tenantId)), after) && UsedUpTo(after, now)
  {
    var key := KeyOf(url, tenantId);
    if Hit(url, cache, tenantId) {
      WriteTouches(recency, cache, key, cache[key].(lastUsed := now));
    } else {
      RemoveKeepsOrder(recency, cache, key);
      EvictedIsHead(Without(recency, key), cache - {key}, now, hint);
    }
  }

  lemma AskedKeepsIsolation(url: string, cache: Cache, tenantId: string, now: int, hint: string)
    requires Isolated(cache, url)
    ensures Isolated(Asked(url, cache, tenantId, now, hint), url)
  {
  }

  class ConnectionCache {
    const url: string
    var entries: Cache
    ghost var clock: int
    ghost var recency: seq<string>

    /** The map is the LRU list: it holds as long as the clock advances from call to call. */
    ghost predicate Valid()
      reads this
    {
      Orders(recency, entries) && UsedUpTo(entries, clock) && Isolated(entries, url)
    }

    constructor (url: string, now: int)
      ensures Valid() && recency == [] && this.url == url && clock == now
    {
      this.url, this.clock := url, now;
      entries, recency := map[], [];
    }

    /** The eviction scan: the first entry with the smallest timestamp older than `now`, if any. */
    method Oldest(now: int) returns (oldestKey: Option<string>)
      ensures oldestKey.None? <==> forall k :: k in entries ==> now <= entries[k].lastUsed
      ensures oldestKey.Some? ==> IsOldest(entries, now, oldestKey.value)
    {
      oldestKey := None;
      var oldestTime := now;
      var rest := entries.Keys;
      while rest != {}
        invariant rest <= entries.Keys
        invariant oldestTime <= now
        invariant oldestKey.None? ==> oldestTime == now
        invariant oldestKey.Some? ==>
          oldestKey.value in entries && entries[oldestKey.value].lastUsed == oldestTime < now
        invariant forall k :: k in entries.Keys - rest ==> oldestTime <= entries[k].lastUsed
        decreases |rest|
      {
        var key :| key in rest;
        if entries[key].lastUsed < oldestTime {
          oldestTime, oldestKey := entries[key].lastUsed, Some(key);
        }
        rest := rest - {key};
      }
    }

    /** At the limit an oldest entry gives way, if any is older than the clock. */
    method EvictIfFull(now: int) returns (ghost hint: string)
      modifies this`entries
      ensures entries == Evicted(old(entries), now, hint)
    {
      hint := "";
      if |entries| >= MAX_CONNECTIONS {
        var oldestKey := Oldest(now);
        if oldestKey.Some? {
          hint := oldestKey.value;
          entries := entries - {oldestKey.value};
        }
      }
    }

    /** AppDataSource up to the returned handle. */
    method AppDataSource(tenantId: string, now: int) returns (handle: Handle, ghost hint: string)
      requires Isolated(entries, url)
      modifies this
      ensures Isolated(entries, url) && clock == now
      ensures entries == Asked(url, old(entries), tenantId, now, hint)
      ensures if Hit(url, old(entries), tenantId)
              then handle == Existing(entries[KeyOf(url, tenantId)]) && handle.entry.tenantId == tenantId
              else handle == Fresh(tenantId)
      ensures recency == AskedRecency(old(recency), KeyOf(url, tenantId), Hit(url, old(entries), tenantId))
      ensures old(Valid() && clock < now) ==> Valid()
    {
      hint := "";
      ghost var before, earlier, order := entries, clock, recency;
      var cacheKey := KeyOf(url, tenantId);
      ghost var hit := Hit(url, entries, tenantId);
      clock, recency := now, AskedRecency(recency, cacheKey, hit);
      if cacheKey in entries && entries[cacheKey].initialized {
        var cached := entries[cacheKey];
        KeyIsInjective(url, tenantId, cached.tenantId);
        entries := entries[cacheKey := cached.(lastUsed := now)];
        handle := Existing(entries[cacheKey]);
      } else {
        if cacheKey in entries {
          entries := entries - {cacheKey};
        }
        assert entries == before - {cacheKey};
        hint := EvictIfFull(now);
        handle := Fresh(tenantId);
      }
      AskedKeepsIsolation(url, before, tenantId, now, hint);
      if Orders(order, before) && UsedUpTo(before, earlier) && earlier < now {
        AskedIsLru(order, url, before, earlier, tenantId, now, hint);
      }
    }

    /** A successful `initialize()` caches the connection. */
    method Initialize(tenantId: string, now: int)
      requires Isolated(entries, url)
      modifies this
      ensures Isolated(entries, url) && clock == now
      ensures entries == Finished(url, old(entries), tenantId, now)
      ensures recency == Touch(old(recency), KeyOf(url, tenantId))
      ensures old(Valid() && clock < now) ==> Valid()
    {
      if Orders(recency, entries) && UsedUpTo(entries, clock) && clock < now {
        WriteTouches(recency, entries, KeyOf(url, tenantId), Entry(tenantId, now, true));
      }
      clock, recency := now, Touch(recency, KeyOf(url, tenantId));
      entries := entries[KeyOf(url, tenantId) := Entry(tenantId, now, true)];
    }

    /** A connection closes on its own; its entry stays until the next lookup or sweep. */
    method LoseConnection(key: string)
      requires Isolated(entries, url)
      modifies this`entries
      ensures Isolated(entries, url) && entries == Lost(old(entries), key)
      ensures old(Valid()) ==> Valid()
    {
      if key in entries {
        entries := entries[key := entries[key].(initialized := false)];
      }
    }

    /** getTenantConnection when no other call interleaves: a plain bounded LRU access. */
    method GetTenantConnection(tenantId: string, lookedUpAt: int, initializedAt: int)
      requires Valid() && clock < lookedUpAt < initializedAt && |entries| <= MAX_CONNECTIONS
      modifies this
      ensures Valid() && |entries| <= MAX_CONNECTIONS
      ensures recency == Accessed(old(recency), KeyOf(url, tenantId), Hit(url, old(entries), tenantId))
    {
      OrderSize(recency, entries);
      ghost var before := recency;
      var key := KeyOf(url, tenantId);
      ghost var hit := Hit(url, entries, tenantId);
      AccessFits(before, key, hit);
      var handle, _ := AppDataSource(tenantId, lookedUpAt);
      if handle.Fresh? {
        WithoutAbsent(recency, key);
        Initialize(tenantId, initializedAt);
      }
      OrderSize(recency, entries);
    }

    /** The sweep's loop over the entries. */
    method DropIdle(now: int)
      modifies this`entries
      ensures entries == Swept(old(entries), now)
    {
      ghost var before := entries;
      var rest := entries.Keys;
      while rest != {}
        invariant rest <= entries.Keys <= before.Keys
        invariant forall key :: key in entries ==> entries[key] == before[key]
        invariant forall key :: key in before.Keys - rest ==>
          (key in entries <==> now - before[key].lastUsed <= CONNECTION_TIMEOUT)
        decreases |rest|
      {
        var key :| key in rest;
        if now - entries[key].lastUsed > CONNECTION_TIMEOUT {
          entries := entries - {key};
        }
        rest := rest - {key};
      }
    }

    /** The periodic sweep keeps exactly the entries idle for at most the timeout, in their order. */
    method Sweep(now: int)
      requires Isolated(entries, url)
      modifies this
      ensures Isolated(entries, url) && clock == now
      ensures forall key ::
        key in entries <==> key in old(entries) && now - old(entries)[key].lastUsed <= CONNECTION_TIMEOUT
      ensures forall key :: key in entries ==> entries[key] == old(entries)[key]
      ensures old(Valid() && clock <= now) ==>
        (Valid() && |recency| <= |old(recency)| && recency == old(recency)[|old(recency)| - |recency|..])
    {
      ghost var before, earlier := entries, clock;
      DropIdle(now);
      clock := now;
      if Orders(recency, before) && UsedUpTo(before, earlier) && earlier <= now {
        recency := SweptSuffix(recency, before, entries, now);
      }
    }
  }

  lemma LeastRecentIsHead(recency: seq<string>, cache: Cache, oldest: string)
    requires Orders(recency, cache) && oldest in cache
    requires forall k :: k in cache ==> cache[oldest].lastUsed <= cache[k].lastUsed
    ensures recency != [] && recency[0] == oldest
    ensures Orders(recency[1..], cache - {oldest})
  {
    assert recency[0] in cache;
    SuffixOrders(recency, cache, cache - {oldest}, 1);
  }

  lemma {:induction false} WithoutShrinks(recency: seq<string>, key: string)
    ensures |Without(recency, key)| <= |recency|
  {
    if recency != [] {
      WithoutShrinks(recency[1..], key);
    }
  }

  lemma {:induction false} OneFewer(recency: seq<string>, key: string)
    requires key in recency
    ensures |Without(recency, key)| < |recency|
  {
    if recency[0] == key {
      WithoutShrinks(recency[1..], key);
    } else {
      OneFewer(recency[1..], key);
    }
  }

  /** The first position from `i` on whose key the cache still holds. */
  ghost function FirstHeld(recency: seq<string>, cache: Cache, i: nat): (n: nat)
    requires i <= |recency|
    ensures i <= n <= |recency|
    ensures n < |recency| ==> recency[n] in cache
    ensures forall j :: i <= j < n ==> recency[j] !in cache
    decreases |recency| - i
  {
    if i == |recency| || recency[i] in cache then i else FirstHeld(recency, cache, i + 1)
  }

  lemma SuffixOrders(recency: seq<string>, before: Cache, after: Cache, n: nat)
    requires Orders(recency, before) && n <= |recency|
    requires forall key :: key in after ==> key in before && after[key] == before[key]
    requires forall i :: 0 <= i < n ==> recency[i] !in after
    requires forall i :: n <= i < |recency| ==> recency[i] in after
    ensures Orders(recency[n..], after)
  {
    var kept := recency[n..];
    assert forall i :: 0 <= i < |kept| ==> kept[i] == recency[i + n];
    forall key | key in after
      ensures key in kept
    {
      var i :| 0 <= i < |recency| && recency[i] == key;
      assert kept[i - n] == key;
    }
  }

  /** Entries idle for too long are a prefix of the recency list. */
  lemma SweptSuffix(recency: seq<string>, before: Cache, after: Cache, now: int) returns (kept: seq<string>)
    requires Orders(recency, before)
    requires forall key :: key in after <==> key in before && now - before[key].lastUsed <= CONNECTION_TIMEOUT
    requires forall key :: key in after ==> after[key] == before[key]
    ensures Orders(kept, after)
    ensures |kept| <= |recency| && kept == recency[|recency| - |kept|..]
  {
    var n := FirstHeld(recency, after, 0);
    kept := recency[n..];
    forall i | n <= i < |recency|
      ensures recency[i] in after
    {
      assert before[recency[n]].lastUsed <= before[recency[i]].lastUsed;
    }
    SuffixOrders(recency, before, after, n);
  }
}

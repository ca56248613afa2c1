/**
 The connection cache of src/database/data-source.ts under overlapping calls: lookups and initializations
 of different requests in any order, on whatever clock they read.
 */
module ConnectionPool {
  import opened Basics
  import opened ConnectionCache

  /** The map, and the handles that were constructed but not yet initialized, by tenant. */
  datatype Pool = Pool(entries: Cache, pending: multiset<string>)

  /** Calls from different requests in any order, each with the clock it reads; `hint` as in Victim. */
  datatype PoolStep =
    | Ask(tenantId: string, now: int, hint: string)
    | Finish(tenantId: string, now: int)
    | Fail(tenantId: string)
    | Lose(key: string)
    | SweepAt(now: int)

  ghost function ApplyPool(url: string, s: Pool, step: PoolStep): Pool {
    match step
    case Ask(tenantId, now, hint) =>
      Pool(Asked(url, s.entries, tenantId, now, hint),
           if Hit(url, s.entries, tenantId) then s.pending else s.pending + multiset{tenantId})
    case Finish(tenantId, now) =>
      if tenantId in s.pending then Pool(Finished(url, s.entries, tenantId, now), s.pending - multiset{tenantId}) else s
    case Fail(tenantId) => s.(pending := s.pending - multiset{tenantId})
    case Lose(key) => s.(entries := Lost(s.entries, key))
    case SweepAt(now) => s.(entries := Swept(s.entries, now))
  }

  const NO_CONNECTIONS: Pool := Pool(map[], multiset{})

  ghost function RunPool(url: string, steps: seq<PoolStep>): Pool {
    if steps == [] then NO_CONNECTIONS else ApplyPool(url, RunPool(url, steps[..|steps| - 1]), steps[|steps| - 1])
  }

  /** In every reachable state, with any overlap and any clock, the entry found for a tenant was built for
      that tenant. */
  lemma {:induction false} AlwaysIsolated(url: string, steps: seq<PoolStep>)
    ensures Isolated(RunPool(url, steps).entries, url)
  {
    if steps != [] {
      var s, last := RunPool(url, steps[..|steps| - 1]), steps[|steps| - 1];
      AlwaysIsolated(url, steps[..|steps| - 1]);
      if last.Ask? {
        AskedKeepsIsolation(url, s.entries, last.tenantId, last.now, last.hint);
      }
    }
  }

  /** A miss at the limit finds an entry older than the clock. */
  ghost predicate FindsRoom(url: string, s: Pool, step: PoolStep) {
    step.Ask? && !Hit(url, s.entries, step.tenantId) ==>
      var base := s.entries - {KeyOf(url, step.tenantId)};
      |base| >= MAX_CONNECTIONS ==> Victim(base, step.now, step.hint).Some?
  }

  ghost predicate AlwaysFindsRoom(url: string, steps: seq<PoolStep>) {
    steps == []
    || (AlwaysFindsRoom(url, steps[..|steps| - 1])
         && FindsRoom(url, RunPool(url, steps[..|steps| - 1]), steps[|steps| - 1]))
  }

  /** At most `overlap` initializations are in flight at any time. */
  ghost predicate OverlapAtMost(url: string, steps: seq<PoolStep>, overlap: nat) {
    |RunPool(url, steps).pending| <= overlap && (steps == [] || OverlapAtMost(url, steps[..|steps| - 1], overlap))
  }

  lemma SubCacheSize(a: Cache, b: Cache)
    requires a.Keys <= b.Keys
    ensures |a| <= |b|
  {
    assert |a| == |a.Keys| && |b| == |b.Keys| && b.Keys == a.Keys + (b.Keys - a.Keys);
  }

  lemma RemovedSize(a: Cache, key: string)
    requires key in a
    ensures |a - {key}| == |a| - 1
  {
    assert |a| == |a.Keys| && (a - {key}).Keys == a.Keys - {key};
    assert |a - {key}| == |(a - {key}).Keys|;
  }

  lemma WrittenSize(a: Cache, key: string, entry: Entry)
    ensures |a[key := entry]| == if key in a then |a| else |a| + 1
  {
    assert a[key := entry].Keys == a.Keys + {key};
    assert |a| == |a.Keys| && |a[key := entry]| == |a[key := entry].Keys|;
  }

  /** Cached connections and initializations in flight together. */
  ghost function Load(s: Pool): nat {
    |s.entries| + |s.pending|
  }

  lemma AskLoad(url: string, s: Pool, tenantId: string, now: int, hint: string)
    requires FindsRoom(url, s, Ask(tenantId, now, hint))
    ensures var t := ApplyPool(url, s, Ask(tenantId, now, hint));
      Load(t) <= Load(s) || Load(t) <= MAX_CONNECTIONS - 1 + |t.pending|
  {
    var key := KeyOf(url, tenantId);
    if Hit(url, s.entries, tenantId) {
      WrittenSize(s.entries, key, s.entries[key].(lastUsed := now));
    } else {
      var base := s.entries - {key};
      SubCacheSize(base, s.entries);
      if |base| >= MAX_CONNECTIONS {
        RemovedSize(base, Victim(base, now, hint).value);
      }
    }
  }

  lemma OtherLoad(url: string, s: Pool, step: PoolStep)
    requires !step.Ask?
    ensures Load(ApplyPool(url, s, step)) <= Load(s)
  {
    match step
    case Finish(tenantId, now) => WrittenSize(s.entries, KeyOf(url, tenantId), Entry(tenantId, now, true));
    case Lose(key) => SubCacheSize(Lost(s.entries, key), s.entries);
    case SweepAt(now) => SubCacheSize(Swept(s.entries, now), s.entries);
    case _ =>
  }

  lemma {:induction false} LoadBound(url: string, steps: seq<PoolStep>, overlap: nat)
    requires overlap >= 1 && AlwaysFindsRoom(url, steps) && OverlapAtMost(url, steps, overlap)
    ensures Load(RunPool(url, steps)) <= MAX_CONNECTIONS - 1 + overlap
  {
    if steps != [] {
      var init, last := steps[..|steps| - 1], steps[|steps| - 1];
      LoadBound(url, init, overlap);
      if last.Ask? {
        AskLoad(url, RunPool(url, init), last.tenantId, last.now, last.hint);
      } else {
        OtherLoad(url, RunPool(url, init), last);
      }
    }
  }

  // ---------------------------------------------------------------- what an advancing clock gives

  /** The latest clock that a call of the run has read, or `start`. */
  function LatestTime(steps: seq<PoolStep>, start: int): int {
    if steps == [] then start
    else
      var earlier, last := LatestTime(steps[..|steps| - 1], start), steps[|steps| - 1];
      if (last.Ask? || last.Finish?) && last.now > earlier then last.now else earlier
  }

  /** Each call that looks a connection up reads a later clock than all calls before it. */
  predicate Advancing(steps: seq<PoolStep>, start: int) {
    steps == []
    || (Advancing(steps[..|steps| - 1], start)
        && (steps[|steps| - 1].Ask? ==> LatestTime(steps[..|steps| - 1], start) < steps[|steps| - 1].now))
  }

  lemma StepNeverAhead(url: string, s: Pool, step: PoolStep, clock: int)
    requires UsedUpTo(s.entries, clock)
    ensures UsedUpTo(ApplyPool(url, s, step).entries,
                     if (step.Ask? || step.Finish?) && step.now > clock then step.now else clock)
  {
    if step.Ask? {
      EntriesFrom(url, s.entries, step.tenantId, step.now, step.hint);
    }
  }

  /** Every entry after a lookup was there before or carries the lookup's clock. */
  lemma EntriesFrom(url: string, cache: Cache, tenantId: string, now: int, hint: string)
    ensures var after := Asked(url, cache, tenantId, now, hint);
      forall k :: k in after ==> k in cache && (after[k] == cache[k] || after[k].lastUsed == now)
  {
  }

  lemma {:induction false} NeverAhead(url: string, steps: seq<PoolStep>, start: int)
    ensures UsedUpTo(RunPool(url, steps).entries, LatestTime(steps, start))
  {
    if steps != [] {
      var init := steps[..|steps| - 1];
      NeverAhead(url, init, start);
      StepNeverAhead(url, RunPool(url, init), steps[|steps| - 1], LatestTime(init, start));
    }
  }

  /** On an advancing clock every lookup that needs room finds it. */
  lemma {:induction false} AdvancingFindsRoom(url: string, steps: seq<PoolStep>, start: int)
    requires Advancing(steps, start)
    ensures AlwaysFindsRoom(url, steps)
  {
    if steps != [] {
      var init, last := steps[..|steps| - 1], steps[|steps| - 1];
      AdvancingFindsRoom(url, init, start);
      NeverAhead(url, init, start);
      if last.Ask? {
        var s := RunPool(url, init);
        var base := s.entries - {KeyOf(url, last.tenantId)};
        if |base| >= MAX_CONNECTIONS {
          assert base != map[];
          var k :| k in base;
          assert base[k].lastUsed < last.now;
        }
      }
    }
  }

  /** With an advancing clock and at most `overlap` initializations in flight the cache exceeds its limit
      by at most `overlap` - 1. */
  lemma OverlapBound(url: string, steps: seq<PoolStep>, start: int, overlap: nat)
    requires overlap >= 1 && Advancing(steps, start) && OverlapAtMost(url, steps, overlap)
    ensures |RunPool(url, steps).entries| <= MAX_CONNECTIONS - 1 + overlap
  {
    AdvancingFindsRoom(url, steps, start);
    LoadBound(url, steps, overlap);
  }

  /** A serial call within the limit stays within it exactly when it is a hit, or leaves room, or finds an
      entry older than the clock: after the clock has stepped back, one call alone exceeds the limit. */
  lemma SerialCallFitsExactly(url: string, s: Pool, tenantId: string, now: int, hint: string, initializedAt: int)
    requires |s.entries| <= MAX_CONNECTIONS && s.pending == multiset{}
    ensures var asked := ApplyPool(url, s, Ask(tenantId, now, hint));
      |ApplyPool(url, asked, Finish(tenantId, initializedAt)).entries| <= MAX_CONNECTIONS <==>
        FindsRoom(url, s, Ask(tenantId, now, hint))
  {
    var key := KeyOf(url, tenantId);
    var asked := ApplyPool(url, s, Ask(tenantId, now, hint));
    if Hit(url, s.entries, tenantId) {
      WrittenSize(s.entries, key, s.entries[key].(lastUsed := now));
    } else {
      var base := s.entries - {key};
      SubCacheSize(base, s.entries);
      WrittenSize(asked.entries, key, Entry(tenantId, initializedAt, true));
      if |base| >= MAX_CONNECTIONS && Victim(base, now, hint).Some? {
        RemovedSize(base, Victim(base, now, hint).value);
      }
      assert key !in asked.entries;
    }
  }

  // ---------------------------------------------------------------- the bound is met

  /** Distinct tenants. */
  function Tenant(n: nat): (tenantId: string)
    ensures |tenantId| == n
  {
    if n == 0 then "" else Tenant(n - 1) + "t"
  }

  lemma TenantKeys(url: string, a: nat, b: nat)
    ensures KeyOf(url, Tenant(a)) == KeyOf(url, Tenant(b)) ==> a == b
  {
    if KeyOf(url, Tenant(a)) == KeyOf(url, Tenant(b)) {
      KeyIsInjective(url, Tenant(a), Tenant(b));
      assert |Tenant(a)| == a && |Tenant(b)| == b;
    }
  }

  /** The keys of tenants 0 to m - 1. */
  function KeysUpTo(url: string, m: nat): set<string> {
    if m == 0 then {} else KeysUpTo(url, m - 1) + {KeyOf(url, Tenant(m - 1))}
  }

  lemma {:induction false} NotAmong(url: string, m: nat, n: nat)
    requires m <= n
    ensures KeyOf(url, Tenant(n)) !in KeysUpTo(url, m)
  {
    if m > 0 {
      NotAmong(url, m - 1, n);
      TenantKeys(url, n, m - 1);
    }
  }

  ghost predicate Holding(url: string, s: Pool, m: nat) {
    |s.entries| == m && s.entries.Keys == KeysUpTo(url, m)
  }

  lemma NotHeld(url: string, s: Pool, m: nat, n: nat)
    requires Holding(url, s, m) && m <= n
    ensures KeyOf(url, Tenant(n)) !in s.entries
  {
    NotAmong(url, m, n);
  }

  lemma RunAppend(url: string, steps: seq<PoolStep>, step: PoolStep)
    ensures RunPool(url, steps + [step]) == ApplyPool(url, RunPool(url, steps), step)
  {
    assert (steps + [step])[..|steps|] == steps;
  }

  lemma AskNew(url: string, s: Pool, m: nat, n: nat, now: int)
    requires Holding(url, s, m) && m <= n && m < MAX_CONNECTIONS
    ensures var t := ApplyPool(url, s, Ask(Tenant(n), now, ""));
      t.entries == s.entries && t.pending == s.pending + multiset{Tenant(n)}
  {
    NotHeld(url, s, m, n);
    assert s.entries - {KeyOf(url, Tenant(n))} == s.entries;
  }

  lemma FinishNew(url: string, s: Pool, m: nat, now: int)
    requires Holding(url, s, m) && Tenant(m) in s.pending
    ensures var t := ApplyPool(url, s, Finish(Tenant(m), now));
      Holding(url, t, m + 1) && t.pending == s.pending - multiset{Tenant(m)}
  {
    NotHeld(url, s, m, m);
    WrittenSize(s.entries, KeyOf(url, Tenant(m)), Entry(Tenant(m), now, true));
  }

  /** What a construction run keeps: its clock, and its overlap. */
  ghost predicate Fair(url: string, steps: seq<PoolStep>, latest: int, overlap: nat) {
    Advancing(steps, 0) && LatestTime(steps, 0) == latest && OverlapAtMost(url, steps, overlap)
  }

  lemma FairAppend(url: string, steps: seq<PoolStep>, latest: int, step: PoolStep, overlap: nat)
    requires Fair(url, steps, latest, overlap) && (step.Ask? || step.Finish?) && step.now > latest
    requires |ApplyPool(url, RunPool(url, steps), step).pending| <= overlap
    ensures Fair(url, steps + [step], step.now, overlap)
  {
    RunAppend(url, steps, step);
    assert (steps + [step])[..|steps|] == steps;
  }

  /** Where a construction run stands: m tenants connected, these waiting, and the clock. */
  ghost predicate At(url: string, steps: seq<PoolStep>, m: nat, waiting: multiset<string>, latest: int, overlap: nat) {
    Holding(url, RunPool(url, steps), m) && RunPool(url, steps).pending == waiting && Fair(url, steps, latest, overlap)
  }

  lemma AskStep(
    url: string, steps: seq<PoolStep>, m: nat, waiting: multiset<string>, latest: int, overlap: nat, n: nat, now: int)
    returns (more: seq<PoolStep>, nowWaiting: multiset<string>)
    requires At(url, steps, m, waiting, latest, overlap) && m <= n && m < MAX_CONNECTIONS && |waiting| < overlap
      && now > latest
    ensures nowWaiting == waiting + multiset{Tenant(n)} && At(url, more, m, nowWaiting, now, overlap)
  {
    more, nowWaiting := steps + [Ask(Tenant(n), now, "")], waiting + multiset{Tenant(n)};
    AskNew(url, RunPool(url, steps), m, n, now);
    FairAppend(url, steps, latest, Ask(Tenant(n), now, ""), overlap);
    RunAppend(url, steps, Ask(Tenant(n), now, ""));
  }

  lemma FinishStep(
    url: string, steps: seq<PoolStep>, m: nat, waiting: multiset<string>, latest: int, overlap: nat, now: int)
    returns (more: seq<PoolStep>, nowWaiting: multiset<string>)
    requires At(url, steps, m, waiting, latest, overlap) && Tenant(m) in waiting && now > latest
    ensures nowWaiting == waiting - multiset{Tenant(m)} && At(url, more, m + 1, nowWaiting, now, overlap)
  {
    more, nowWaiting := steps + [Finish(Tenant(m), now)], waiting - multiset{Tenant(m)};
    assert waiting == nowWaiting + multiset{Tenant(m)};
    FinishNew(url, RunPool(url, steps), m, now);
    FairAppend(url, steps, latest, Finish(Tenant(m), now), overlap);
    RunAppend(url, steps, Finish(Tenant(m), now));
  }

  lemma NothingYet(url: string, overlap: nat)
    requires overlap >= 1
    ensures At(url, [], 0, multiset{}, 0, overlap)
  {
  }

  /** Tenants 0 to m - 1 connect one after the other. */
  lemma {:induction false} Fill(url: string, m: nat, overlap: nat) returns (steps: seq<PoolStep>)
    requires m < MAX_CONNECTIONS && overlap >= 1
    ensures At(url, steps, m, multiset{}, 2 * m, overlap)
  {
    if m == 0 {
      NothingYet(url, overlap);
      steps := [];
    } else {
      var before := Fill(url, m - 1, overlap);
      var asked, one := AskStep(url, before, m - 1, multiset{}, 2 * (m - 1), overlap, m - 1, 2 * m - 1);
      var done, none := FinishStep(url, asked, m - 1, one, 2 * m - 1, overlap, 2 * m);
      assert none == multiset{};
      steps := done;
    }
  }

  /** As many handles as tenants l to n - 1, and each of those tenants among them. */
  ghost predicate Await(waiting: multiset<string>, l: nat, n: nat) {
    l <= n && |waiting| == n - l && forall i :: l <= i < n ==> Tenant(i) in waiting
  }

  lemma AwaitMore(waiting: multiset<string>, l: nat, n: nat)
    requires Await(waiting, l, n)
    ensures Await(waiting + multiset{Tenant(n)}, l, n + 1)
  {
  }

  lemma AwaitLess(waiting: multiset<string>, l: nat, n: nat)
    requires Await(waiting, l, n) && l < n
    ensures Tenant(l) in waiting && Await(waiting - multiset{Tenant(l)}, l + 1, n)
  {
    forall i | l < i < n
      ensures Tenant(i) in waiting - multiset{Tenant(l)}
    {
      assert |Tenant(i)| == i && |Tenant(l)| == l;
    }
  }

  /** Then tenants m to n - 1 all ask before any of them is initialized. */
  lemma {:induction false} AskAll(url: string, m: nat, n: nat, overlap: nat)
    returns (steps: seq<PoolStep>, waiting: multiset<string>, latest: int)
    requires m < MAX_CONNECTIONS && m <= n && n - m <= overlap && overlap >= 1
    ensures Await(waiting, m, n) && At(url, steps, m, waiting, latest, overlap)
    decreases n
  {
    if n == m {
      steps := Fill(url, m, overlap);
      waiting, latest := multiset{}, 2 * m;
    } else {
      var before, few, clock := AskAll(url, m, n - 1, overlap);
      AwaitMore(few, m, n - 1);
      latest := clock + 1;
      steps, waiting := AskStep(url, before, m, few, clock, overlap, n - 1, latest);
    }
  }

  /** Then tenants m to l - 1 of them are initialized. */
  lemma {:induction false} FinishAll(url: string, m: nat, n: nat, l: nat, overlap: nat)
    returns (steps: seq<PoolStep>, waiting: multiset<string>, latest: int)
    requires m < MAX_CONNECTIONS && m <= l <= n && n - m <= overlap && overlap >= 1
    ensures Await(waiting, l, n) && At(url, steps, l, waiting, latest, overlap)
    decreases l
  {
    if l == m {
      steps, waiting, latest := AskAll(url, m, n, overlap);
    } else {
      var before, more, clock := FinishAll(url, m, n, l - 1, overlap);
      AwaitLess(more, l - 1, n);
      latest := clock + 1;
      steps, waiting := FinishStep(url, before, l - 1, more, clock, overlap, latest);
    }
  }

  /** The bound is met for every overlap: a fair run from an empty cache reaches it. */
  lemma OverlapExceedsLimit(url: string, overlap: nat) returns (steps: seq<PoolStep>)
    requires overlap >= 1
    ensures Advancing(steps, 0) && OverlapAtMost(url, steps, overlap)
    ensures |RunPool(url, steps).entries| == MAX_CONNECTIONS - 1 + overlap
  {
    var full := MAX_CONNECTIONS - 1;
    var run, waiting, latest := FinishAll(url, full, full + overlap, full + overlap, overlap);
    steps := run;
  }
}

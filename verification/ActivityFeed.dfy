/**
 Time-window aggregation of src/activity-feed/activity-feed.service.ts. An entry is found again by a
 key that names an hour and by a cutoff that slides with the clock; the two windows interact.
 Times are milliseconds since the epoch; an id of 0 is an absent one.
 */
module ActivityFeed {
  import opened Basics

  const MINUTE: int := 60 * 1000
  const HOUR: int := 60 * MINUTE

  datatype Strategy = TimeWindow | Daily | NoStrategy

  /** One call of `create`, with the instant at which it runs. */
  datatype Call = Call(
    activityType: string,
    feedScope: string,
    groupId: nat,
    eventId: nat,
    actorId: nat,
    strategy: Strategy,
    window: nat,
    now: int
  )

  datatype Key = Key(activityType: string, feedScope: string, subject: nat, hour: int)

  datatype Entry = Entry(key: Option<Key>, createdAt: int, actorIds: seq<nat>, aggregatedCount: nat)

  /** Round down to the window. */
  function WindowStart(now: int, window: nat): int
    requires window > 0
  {
    now / (window * MINUTE) * (window * MINUTE)
  }

  predicate Aggregates(call: Call) {
    call.strategy.TimeWindow? && call.window != 0
  }

  /** buildTimeWindowKey: the window's start, cut down to its hour. */
  function KeyOf(call: Call): Option<Key> {
    if !Aggregates(call) then None
    else Some(Key(call.activityType, call.feedScope,
                  if call.groupId != 0 then call.groupId else call.eventId,
                  WindowStart(call.now, call.window) / HOUR))
  }

  /** The row the lookup may return: same key, created after the cutoff. */
  predicate Matches(entries: seq<Entry>, call: Call, i: int) {
    && 0 <= i < |entries|
    && Aggregates(call)
    && entries[i].key == KeyOf(call)
    && entries[i].createdAt > call.now - call.window * MINUTE
  }

  function NewEntry(call: Call): Entry {
    Entry(KeyOf(call), call.now, if call.actorId != 0 then [call.actorId] else [], 1)
  }

  function Aggregated(entry: Entry, actorId: nat): Entry {
    if actorId != 0 && actorId in entry.actorIds then entry
    else
      var actorIds := if actorId != 0 then entry.actorIds + [actorId] else entry.actorIds;
      entry.(actorIds := actorIds, aggregatedCount := |actorIds|)
  }

  ghost predicate AggregatesInto(before: seq<Entry>, call: Call, after: seq<Entry>, i: int) {
    Matches(before, call, i) && after == before[i := Aggregated(before[i], call.actorId)]
  }

  ghost predicate Appends(before: seq<Entry>, call: Call, after: seq<Entry>) {
    (forall i :: !Matches(before, call, i)) && after == before + [NewEntry(call)]
  }

  /** One call: it aggregates into some matching row, or appends a row when none matches. */
  ghost predicate Creates(before: seq<Entry>, call: Call, after: seq<Entry>) {
    (exists i :: AggregatesInto(before, call, after, i)) || Appends(before, call, after)
  }

  class Feed {
    var entries: seq<Entry>

    constructor ()
      ensures entries == []
    {
      entries := [];
    }

    method Create(call: Call)
      modifies this
      ensures Creates(old(entries), call, entries)
    {
      if i :| 0 <= i < |entries| && Matches(entries, call, i) {
        var existing := entries[i];
        if call.actorId != 0 && call.actorId in existing.actorIds {
          assert AggregatesInto(entries, call, entries, i);
          return;
        }
        var actorIds := existing.actorIds;
        if call.actorId != 0 {
          actorIds := actorIds + [call.actorId];
        }
        entries := entries[i := existing.(actorIds := actorIds, aggregatedCount := |actorIds|)];
        assert AggregatesInto(old(entries), call, entries, i);
      } else {
        entries := entries + [NewEntry(call)];
      }
    }
  }

  /** `states` lists the table before, between and after the calls. */
  ghost predicate Run(calls: seq<Call>, states: seq<seq<Entry>>) {
    && |states| == |calls| + 1
    && states[0] == []
    && forall n :: 0 <= n < |calls| ==> Creates(states[n], calls[n], states[n + 1])
  }

  // ---------------------------------------------------------------- spacing

  ghost predicate Spaced(entries: seq<Entry>, key: Key, gap: int) {
    forall i, j :: 0 <= i < j < |entries| && entries[i].key == Some(key) && entries[j].key == Some(key) ==>
      entries[j].createdAt - entries[i].createdAt >= gap
  }

  /** Every call with this key asks for a window of at least `window` minutes. */
  ghost predicate AtLeast(calls: seq<Call>, key: Key, window: nat) {
    forall n :: 0 <= n < |calls| && KeyOf(calls[n]) == Some(key) ==> window <= calls[n].window
  }

  ghost predicate Uniform(calls: seq<Call>, key: Key, window: nat) {
    window > 0 && forall n :: 0 <= n < |calls| && KeyOf(calls[n]) == Some(key) ==> calls[n].window == window
  }

  /** Aggregation changes neither the key nor the creation time of any row. */
  lemma SameShape(before: seq<Entry>, call: Call, after: seq<Entry>, i: int)
    requires AggregatesInto(before, call, after, i)
    ensures |after| == |before|
    ensures forall j :: 0 <= j < |before| ==> after[j].key == before[j].key && after[j].createdAt == before[j].createdAt
  {
  }

  lemma StepKeepsSpacing(before: seq<Entry>, call: Call, after: seq<Entry>, key: Key, gap: int)
    requires Creates(before, call, after) && Spaced(before, key, gap)
    requires KeyOf(call) == Some(key) ==> gap <= call.window * MINUTE
    ensures Spaced(after, key, gap)
  {
    if Appends(before, call, after) {
      forall i | 0 <= i < |before| && before[i].key == Some(key) && KeyOf(call) == Some(key)
        ensures call.now - before[i].createdAt >= gap
      {
        assert !Matches(before, call, i);
      }
    } else {
      var i :| AggregatesInto(before, call, after, i);
      SameShape(before, call, after, i);
    }
  }

  /** Two entries with one key are created at least a window apart, whatever the clock does between the calls. */
  lemma {:induction false} WindowSpacing(calls: seq<Call>, states: seq<seq<Entry>>, n: nat, key: Key, window: nat)
    requires Run(calls, states) && AtLeast(calls, key, window) && n <= |calls|
    ensures Spaced(states[n], key, window * MINUTE)
  {
    if n > 0 {
      WindowSpacing(calls, states, n - 1, key, window);
      StepKeepsSpacing(states[n - 1], calls[n - 1], states[n], key, window * MINUTE);
    }
  }

  ghost predicate CreatedUpTo(entries: seq<Entry>, now: int) {
    forall i :: 0 <= i < |entries| ==> entries[i].createdAt <= now
  }

  lemma StepCreatesNow(before: seq<Entry>, call: Call, after: seq<Entry>, now: int)
    requires Creates(before, call, after) && CreatedUpTo(before, now) && call.now <= now
    ensures CreatedUpTo(after, now)
  {
    if i :| AggregatesInto(before, call, after, i) {
      SameShape(before, call, after, i);
    }
  }

  lemma {:induction false} CreatedInThePast(calls: seq<Call>, states: seq<seq<Entry>>, n: nat, now: int)
    requires Run(calls, states) && n <= |calls|
    requires forall m :: 0 <= m < n ==> calls[m].now <= now
    ensures CreatedUpTo(states[n], now)
  {
    if n > 0 {
      CreatedInThePast(calls, states, n - 1, now);
      StepCreatesNow(states[n - 1], calls[n - 1], states[n], now);
    }
  }

  /** On one clock the lookup never has to choose: at most one row matches a call. */
  lemma LookupIsUnambiguous(calls: seq<Call>, states: seq<seq<Entry>>, n: nat, i: nat, j: nat)
    requires Run(calls, states) && n < |calls| && Aggregates(calls[n])
    requires AtLeast(calls, KeyOf(calls[n]).value, calls[n].window)
    requires forall m :: 0 <= m < n ==> calls[m].now <= calls[n].now
    requires Matches(states[n], calls[n], i) && Matches(states[n], calls[n], j)
    ensures i == j
  {
    WindowSpacing(calls, states, n, KeyOf(calls[n]).value, calls[n].window);
    CreatedInThePast(calls, states, n, calls[n].now);
  }

  // ---------------------------------------------------------------- how many entries a key can have

  function Times(entries: seq<Entry>, key: Key): seq<int> {
    if entries == [] then []
    else
      var last := entries[|entries| - 1];
      Times(entries[..|entries| - 1], key) + (if last.key == Some(key) then [last.createdAt] else [])
  }

  /** The entries' keys name the hour of their own creation window. */
  ghost predicate InHour(entries: seq<Entry>, key: Key, window: nat)
    requires window > 0
  {
    forall i :: 0 <= i < |entries| && entries[i].key == Some(key) ==>
      WindowStart(entries[i].createdAt, window) / HOUR == key.hour
  }

  lemma {:induction false} EntriesInHour(calls: seq<Call>, states: seq<seq<Entry>>, n: nat, key: Key, window: nat)
    requires Run(calls, states) && Uniform(calls, key, window) && n <= |calls|
    ensures InHour(states[n], key, window)
  {
    if n > 0 {
      EntriesInHour(calls, states, n - 1, key, window);
      StepKeepsHour(states[n - 1], calls[n - 1], states[n], key, window);
    }
  }

  lemma StepKeepsHour(before: seq<Entry>, call: Call, after: seq<Entry>, key: Key, window: nat)
    requires window > 0 && Creates(before, call, after) && InHour(before, key, window)
    requires KeyOf(call) == Some(key) ==> call.window == window
    ensures InHour(after, key, window)
  {
    if i :| AggregatesInto(before, call, after, i) {
      SameShape(before, call, after, i);
    }
  }

  lemma {:induction false} TimesFromEntries(entries: seq<Entry>, key: Key, k: nat) returns (i: nat)
    requires k < |Times(entries, key)|
    ensures i < |entries| && entries[i].key == Some(key) && entries[i].createdAt == Times(entries, key)[k]
  {
    var init := entries[..|entries| - 1];
    if k < |Times(init, key)| {
      i := TimesFromEntries(init, key, k);
    } else {
      i := |entries| - 1;
    }
  }

  lemma {:induction false} TimesSpaced(entries: seq<Entry>, key: Key, gap: int, a: nat, b: nat)
    requires Spaced(entries, key, gap) && a < b < |Times(entries, key)|
    ensures Times(entries, key)[b] - Times(entries, key)[a] >= gap
  {
    var init := entries[..|entries| - 1];
    if b < |Times(init, key)| {
      TimesSpaced(init, key, gap, a, b);
    } else {
      var i := TimesFromEntries(init, key, a);
      assert entries[i] == init[i];
    }
  }

  lemma DivAdvances(x: int, y: int, gap: int)
    requires gap > 0 && y >= x + gap
    ensures y / gap >= x / gap + 1
  {
    assert y == gap * (y / gap) + y % gap && x == gap * (x / gap) + x % gap;
    assert gap * (y / gap - x / gap) == gap * (y / gap) - gap * (x / gap);
    PositiveFactor(gap, y / gap - x / gap);
  }

  lemma QuotientBound(k: int, w: int, m: int)
    requires w > 0 && k * w <= m
    ensures k <= m / w
  {
    assert m == w * (m / w) + m % w;
    assert w * (m / w - k + 1) == w * (m / w) - k * w + w;
    PositiveFactor(w, m / w - k + 1);
  }

  lemma {:induction false} WindowsAdvance(entries: seq<Entry>, key: Key, gap: int, k: nat)
    requires gap > 0 && Spaced(entries, key, gap) && k < |Times(entries, key)|
    ensures Times(entries, key)[k] / gap >= Times(entries, key)[0] / gap + k
  {
    if k > 0 {
      WindowsAdvance(entries, key, gap, k - 1);
      TimesSpaced(entries, key, gap, k - 1, k);
      DivAdvances(Times(entries, key)[k - 1], Times(entries, key)[k], gap);
    }
  }

  lemma SameHourApart(first: int, last: int, hour: int, window: nat, k: nat)
    requires window > 0 && last >= first + k
    requires first * (window * MINUTE) / HOUR == hour && last * (window * MINUTE) / HOUR == hour
    ensures k * window < 60
  {
    var gap := window * MINUTE;
    assert hour * HOUR <= first * gap && last * gap < hour * HOUR + HOUR;
    assert (last - first) * gap == last * gap - first * gap;
    assert k * gap <= (last - first) * gap;
    assert k * gap == k * window * MINUTE;
  }

  lemma DivisionBound(count: nat, window: nat)
    requires window > 0 && (count > 0 ==> (count - 1) * window < 60)
    ensures count <= (59 + window) / window
    ensures 60 % window == 0 ==> count <= 60 / window
    ensures window >= 60 ==> count <= 1
  {
    if count > 0 {
      assert count * window == (count - 1) * window + window;
      QuotientBound(count, window, 59 + window);
      if 60 % window == 0 {
        var q := 60 / window;
        assert window * (q + 1 - count) == q * window - (count - 1) * window;
        PositiveFactor(window, q + 1 - count);
      }
      if window >= 60 {
        assert window * (2 - count) == window - (count - 1) * window;
        PositiveFactor(window, 2 - count);
      }
    }
  }

  /** One key never gets more entries than windows start in its hour: 60/W of them when W divides 60, one
      from W = 60 on. */
  lemma EntriesPerKey(calls: seq<Call>, states: seq<seq<Entry>>, n: nat, key: Key, window: nat)
    requires Run(calls, states) && Uniform(calls, key, window) && n <= |calls|
    ensures |Times(states[n], key)| <= (59 + window) / window
    ensures 60 % window == 0 ==> |Times(states[n], key)| <= 60 / window
    ensures window >= 60 ==> |Times(states[n], key)| <= 1
  {
    var entries, gap := states[n], window * MINUTE;
    var times := Times(entries, key);
    if times != [] {
      WindowSpacing(calls, states, n, key, window);
      EntriesInHour(calls, states, n, key, window);
      WindowsAdvance(entries, key, gap, |times| - 1);
      var i := TimesFromEntries(entries, key, 0);
      var j := TimesFromEntries(entries, key, |times| - 1);
      SameHourApart(times[0] / gap, times[|times| - 1] / gap, key.hour, window, |times| - 1);
    }
    DivisionBound(|times|, window);
  }

  // ---------------------------------------------------------------- actors

  predicate NoDuplicates(s: seq<nat>) {
    forall i, j :: 0 <= i < j < |s| ==> s[i] != s[j]
  }

  ghost function Actors(entries: seq<Entry>, key: Key): set<nat> {
    set i, k | 0 <= i < |entries| && entries[i].key == Some(key) && 0 <= k < |entries[i].actorIds| ::
      entries[i].actorIds[k]
  }

  ghost function Called(calls: seq<Call>, n: nat, key: Key): set<nat>
    requires n <= |calls|
  {
    set m | 0 <= m < n && KeyOf(calls[m]) == Some(key) && calls[m].actorId != 0 :: calls[m].actorId
  }

  lemma ActorIn(entries: seq<Entry>, key: Key, actor: nat)
    ensures actor in Actors(entries, key) <==>
      (exists i :: 0 <= i < |entries| && entries[i].key == Some(key) && actor in entries[i].actorIds)
  {
  }

  lemma StepAddsActor(before: seq<Entry>, call: Call, after: seq<Entry>, key: Key, actor: nat)
    requires Creates(before, call, after)
    ensures actor in Actors(after, key) <==>
      actor in Actors(before, key) || (KeyOf(call) == Some(key) && call.actorId != 0 && call.actorId == actor)
  {
    ActorIn(before, key, actor);
    ActorIn(after, key, actor);
    if i :| AggregatesInto(before, call, after, i) {
      assert after[i] == Aggregated(before[i], call.actorId);
      assert forall j :: 0 <= j < |before| && j != i ==> after[j] == before[j];
      assert forall a :: a in after[i].actorIds <==> a in before[i].actorIds || (a == call.actorId && a != 0);
    } else {
      assert forall j :: 0 <= j < |before| ==> after[j] == before[j];
      assert after[|before|] == NewEntry(call);
    }
  }

  /** No actor is lost and none is invented: the entries of a key together list exactly the actors who
      called with it. */
  lemma {:induction false} ActorsConserved(calls: seq<Call>, states: seq<seq<Entry>>, n: nat, key: Key)
    requires Run(calls, states) && n <= |calls|
    ensures Actors(states[n], key) == Called(calls, n, key)
  {
    if n > 0 {
      ActorsConserved(calls, states, n - 1, key);
      forall actor
        ensures actor in Actors(states[n], key) <==> actor in Called(calls, n, key)
      {
        StepAddsActor(states[n - 1], calls[n - 1], states[n], key, actor);
      }
    }
  }

  /** Each entry lists an actor once; its count is the list's length, except that an entry just created
      without an actor counts 1. */
  predicate Counted(entry: Entry) {
    NoDuplicates(entry.actorIds)
      && (entry.aggregatedCount == |entry.actorIds| || (entry.aggregatedCount == 1 && entry.actorIds == []))
  }

  lemma AggregatedCounted(entry: Entry, actorId: nat)
    requires Counted(entry)
    ensures Counted(Aggregated(entry, actorId))
    ensures Aggregated(entry, actorId).aggregatedCount == |Aggregated(entry, actorId).actorIds|
  {
  }

  lemma StepKeepsCounts(before: seq<Entry>, call: Call, after: seq<Entry>)
    requires Creates(before, call, after) && forall i :: 0 <= i < |before| ==> Counted(before[i])
    ensures forall i :: 0 <= i < |after| ==> Counted(after[i])
    ensures forall i :: 0 <= i < |after| && (i < |before| ==> AggregatesInto(before, call, after, i)) ==>
      (after[i].aggregatedCount != |after[i].actorIds| <==> i == |before| && call.actorId == 0)
  {
    if Appends(before, call, after) {
      assert forall i :: 0 <= i < |before| ==> !Matches(before, call, i);
    } else {
      forall i | AggregatesInto(before, call, after, i)
        ensures Counted(after[i]) && after[i].aggregatedCount == |after[i].actorIds|
      {
        AggregatedCounted(before[i], call.actorId);
      }
      var i :| AggregatesInto(before, call, after, i);
      assert forall j :: 0 <= j < |before| && j != i ==> after[j] == before[j];
    }
  }

  lemma {:induction false} EntriesCounted(calls: seq<Call>, states: seq<seq<Entry>>, n: nat)
    requires Run(calls, states) && n <= |calls|
    ensures forall i :: 0 <= i < |states[n]| ==> Counted(states[n][i])
  {
    if n > 0 {
      EntriesCounted(calls, states, n - 1);
      StepKeepsCounts(states[n - 1], calls[n - 1], states[n]);
    }
  }

  predicate CountOff(entry: Entry) {
    entry.aggregatedCount != |entry.actorIds|
  }

  /** Call `m` appended row `i` and carried no actor. */
  ghost predicate AppendedBare(calls: seq<Call>, states: seq<seq<Entry>>, m: int, i: int) {
    0 <= m < |calls| && m + 1 < |states| && |states[m]| == i && Appends(states[m], calls[m], states[m + 1])
      && calls[m].actorId == 0
  }

  /** None of the calls from `from` to `to` - 1 aggregated into row `i`. */
  ghost predicate LeftAlone(calls: seq<Call>, states: seq<seq<Entry>>, i: int, from: int, to: int)
    requires 0 <= from && to <= |calls| && |states| == |calls| + 1
  {
    forall k :: from <= k < to ==> !AggregatesInto(states[k], calls[k], states[k + 1], i)
  }

  ghost predicate BareSince(calls: seq<Call>, states: seq<seq<Entry>>, i: int, n: nat, m: int)
    requires n <= |calls| && |states| == |calls| + 1
  {
    AppendedBare(calls, states, m, i) && m < n && LeftAlone(calls, states, i, m + 1, n)
  }

  lemma {:induction false} RowsStay(calls: seq<Call>, states: seq<seq<Entry>>, m: nat, n: nat)
    requires Run(calls, states) && m <= n <= |calls|
    ensures |states[m]| <= |states[n]|
  {
    if m < n {
      RowsStay(calls, states, m, n - 1);
      assert Creates(states[n - 1], calls[n - 1], states[n]);
    }
  }

  /** One call, seen from one row: it may append it, aggregate into it, or leave it alone. */
  lemma RowStep(before: seq<Entry>, call: Call, after: seq<Entry>, i: nat)
    requires Creates(before, call, after) && i < |after| && forall j :: 0 <= j < |before| ==> Counted(before[j])
    ensures i == |before| ==> Appends(before, call, after) && (CountOff(after[i]) <==> call.actorId == 0)
    ensures i < |before| && AggregatesInto(before, call, after, i) ==> !CountOff(after[i])
    ensures i < |before| && !AggregatesInto(before, call, after, i) ==> after[i] == before[i]
  {
    StepKeepsCounts(before, call, after);
  }

  /** In every state of a run, a row's count is off exactly when a call without an actor appended it and no
      later call aggregated into it. */
  lemma {:induction false} CountOffExactly(calls: seq<Call>, states: seq<seq<Entry>>, n: nat, i: nat)
    requires Run(calls, states) && n <= |calls| && i < |states[n]|
    ensures CountOff(states[n][i]) <==> exists m :: BareSince(calls, states, i, n, m)
  {
    if n > 0 {
      var before, call, after := states[n - 1], calls[n - 1], states[n];
      EntriesCounted(calls, states, n - 1);
      RowStep(before, call, after, i);
      if i == |before| {
        forall m | BareSince(calls, states, i, n, m)
          ensures m == n - 1
        {
          if m < n - 1 {
            RowsStay(calls, states, m + 1, n - 1);
          }
        }
        assert AppendedBare(calls, states, n - 1, i) <==> call.actorId == 0;
        assert LeftAlone(calls, states, i, n, n);
        assert call.actorId == 0 ==> BareSince(calls, states, i, n, n - 1);
      } else {
        CountOffExactly(calls, states, n - 1, i);
        forall m
          ensures BareSince(calls, states, i, n, m) <==>
            BareSince(calls, states, i, n - 1, m) && !AggregatesInto(before, call, after, i)
        {
          LaterLeftAlone(calls, states, i, m, n);
        }
        assert CountOff(after[i]) <==> CountOff(before[i]) && !AggregatesInto(before, call, after, i);
        var k: nat := n - 1;
        if m :| BareSince(calls, states, i, k, m) {
          assert !AggregatesInto(before, call, after, i) ==> BareSince(calls, states, i, n, m);
        }
      }
    }
  }

  lemma LaterLeftAlone(calls: seq<Call>, states: seq<seq<Entry>>, i: int, m: int, n: nat)
    requires |states| == |calls| + 1 && 0 < n <= |calls| && |states[n - 1]| != i
    ensures BareSince(calls, states, i, n, m) <==>
      BareSince(calls, states, i, n - 1, m) && !AggregatesInto(states[n - 1], calls[n - 1], states[n], i)
  {
    if BareSince(calls, states, i, n, m) {
      assert m != n - 1;
      assert n - 1 >= m + 1;
    }
  }

  ghost predicate AllCounted(entries: seq<Entry>, key: Key) {
    forall i :: 0 <= i < |entries| && entries[i].key == Some(key) ==>
      NoDuplicates(entries[i].actorIds) && entries[i].aggregatedCount == |entries[i].actorIds| > 0
  }

  lemma StepKeepsAllCounted(before: seq<Entry>, call: Call, after: seq<Entry>, key: Key)
    requires Creates(before, call, after) && AllCounted(before, key)
    requires KeyOf(call) == Some(key) ==> call.actorId != 0
    ensures AllCounted(after, key)
  {
    if i :| AggregatesInto(before, call, after, i) {
      assert forall j :: 0 <= j < |before| && j != i ==> after[j] == before[j];
      if before[i].key == Some(key) {
        AggregatedCounted(before[i], call.actorId);
      }
    } else {
      assert forall j :: 0 <= j < |before| ==> after[j] == before[j];
      assert after[|before|] == NewEntry(call);
    }
  }

  /** With an actor in every call of a key, each of its entries lists its actors once and counts them. */
  lemma {:induction false} CountIsNumberOfActors(calls: seq<Call>, states: seq<seq<Entry>>, n: nat, key: Key)
    requires Run(calls, states) && n <= |calls|
    requires forall m :: 0 <= m < |calls| && KeyOf(calls[m]) == Some(key) ==> calls[m].actorId != 0
    ensures AllCounted(states[n], key)
  {
    if n > 0 {
      CountIsNumberOfActors(calls, states, n - 1, key);
      StepKeepsAllCounted(states[n - 1], calls[n - 1], states[n], key);
    }
  }

  // ---------------------------------------------------------------- who shares an entry

  /** The group of a call, or its event if it has no group. */
  function SubjectOf(call: Call): nat {
    if call.groupId == 0 then call.eventId else call.groupId
  }

  /** The hour in which the call's window starts; windows are counted from the epoch. */
  function HourOf(call: Call): int
    requires call.window > 0
  {
    (call.now / (call.window * 60000) * (call.window * 60000)) / 3600000
  }

  /** The second call follows the first one within its window, and both are about the same. */
  predicate Shares(first: Call, second: Call) {
    && first.strategy == TimeWindow && second.strategy == TimeWindow && first.window > 0 && second.window > 0
    && first.activityType == second.activityType && first.feedScope == second.feedScope
    && SubjectOf(first) == SubjectOf(second) && HourOf(first) == HourOf(second)
    && second.now - first.now < second.window * 60000
  }

  /** Two calls on an empty feed end in one entry exactly when they share; otherwise each has its own. */
  lemma TwoCallsShareExactly(first: Call, second: Call, states: seq<seq<Entry>>)
    requires Run([first, second], states)
    ensures |states[2]| == (if Shares(first, second) then 1 else 2)
    ensures states[1][0].createdAt == first.now && states[1][0].aggregatedCount == 1
    ensures states[1][0].actorIds == if first.actorId == 0 then [] else [first.actorId]
  {
    var calls := [first, second];
    assert Creates(states[0], calls[0], states[1]) && Creates(states[1], calls[1], states[2]);
    FirstCallAppends(first, states[1]);
    assert states[1] == [NewEntry(first)];
    assert Matches(states[1], second, 0) <==> Shares(first, second);
    if i :| AggregatesInto(states[1], second, states[2], i) {
      assert i == 0;
    }
  }

  lemma FirstCallAppends(call: Call, after: seq<Entry>)
    requires Creates([], call, after)
    ensures after == [NewEntry(call)]
  {
    if i :| AggregatesInto([], call, after, i) {
      assert false;
    }
  }

  /** In every run an entry lists only actors who acted on its own subject, in its scope, by its type and hour. */
  lemma ListedActorsActed(calls: seq<Call>, states: seq<seq<Entry>>, n: nat, i: nat, actor: nat) returns (m: nat)
    requires Run(calls, states) && n <= |calls| && i < |states[n]|
    requires states[n][i].key.Some? && actor in states[n][i].actorIds
    ensures m < n && calls[m].actorId == actor && calls[m].window > 0
    ensures var key := states[n][i].key.value;
      && calls[m].activityType == key.activityType && calls[m].feedScope == key.feedScope
      && SubjectOf(calls[m]) == key.subject && HourOf(calls[m]) == key.hour
  {
    var key := states[n][i].key.value;
    ActorsConserved(calls, states, n, key);
    ActorIn(states[n], key, actor);
    assert actor in Called(calls, n, key);
    m :| 0 <= m < n && KeyOf(calls[m]) == Some(key) && calls[m].actorId != 0 && calls[m].actorId == actor;
  }
}

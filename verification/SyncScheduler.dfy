/**
 The retry pass over a tenant's events (src/atproto-publisher/atproto-sync-scheduler.ts) and the
 sync-column update it shares with the other publishers (src/atproto-publisher/atproto-sync.utils.ts).
 */
module SyncScheduler {
  import opened Basics
  import opened EventRecord
  import opened Publisher

  /**
   The row after markAtprotoSynced at database time `now`. The query builder may stamp `updatedAt`
   in the same statement (`touch`); nothing below depends on whether it does.
   */
  function MarkRow(row: Row, written: Option<(string, Receipt)>, now: int, touch: bool): Row {
    var marked := row.(syncedAt := Some(now), updatedAt := if touch then now else row.updatedAt);
    match written
    case None => marked
    case Some((uri, receipt)) =>
      marked.(uri := Some(uri), rkey := Some(receipt.rkey), cid := Some(receipt.cid), record := Some(receipt.record))
  }

  /** The scheduler's WHERE clause, on microseconds; SQL comparisons with NULL select nothing. */
  predicate Stale(row: Row) {
    row.uri.Some? && row.sourceType.None? && row.syncedAt.Some? && row.updatedAt > row.syncedAt.value
  }

  /** Outcomes after which the scheduler marks the row. */
  predicate Settled(outcome: Outcome<PublishResult, JsError>) {
    outcome.Ok? && (outcome.value.Written? || outcome.value.Conflict?)
  }

  /** What one event meets during a pass, and when the database would stamp its mark. */
  datatype Visit = Visit(attempt: Attempt, at: int, touch: bool)

  datatype World = World(rows: seq<Row>, repo: Repo, clock: int)

  function Later(a: int, b: int): int {
    if a < b then b else a
  }

  /** The database clock never runs behind a stamp it has handed out. */
  predicate ClockSound(w: World) {
    forall i :: 0 <= i < |w.rows| ==> w.rows[i].updatedAt <= w.clock
  }

  /** The row that the loop body leaves behind, given the publisher's answer. */
  function RowGiven(row: Row, outcome: Outcome<PublishResult, JsError>, now: int, touch: bool): Row {
    match outcome
    case Ok(Written(_, uri, receipt)) => MarkRow(row, Some((uri, receipt)), now, touch)
    case Ok(Conflict) => MarkRow(row, None, now, touch)
    case _ => row
  }

  /** The loop body for the event `id`, loaded as `event` before the pass began. */
  function SyncOne(w: World, event: Row, id: nat, visit: Visit, config: Config): World
    requires id < |w.rows|
  {
    if !event.hasUser then w
    else
      var outcome := PublishOutcome(event, w.repo, visit.attempt, config);
      var now := if Settled(outcome) then Later(w.clock, visit.at) else w.clock;
      World(w.rows[id := RowGiven(w.rows[id], outcome, now, visit.touch)],
            PublishRepo(event, w.repo, visit.attempt, config), now)
  }

  /** The ids below `n` that the query selects. */
  function StaleIds(rows: seq<Row>, n: nat): (ids: seq<nat>)
    requires n <= |rows|
    ensures forall k :: 0 <= k < |ids| ==> ids[k] < n && Stale(rows[ids[k]])
  {
    if n == 0 then []
    else StaleIds(rows, n - 1) + (if Stale(rows[n - 1]) then [n - 1] else [])
  }

  /** The selected ids are exactly the stale rows. */
  lemma {:induction false} StaleIdsExactly(rows: seq<Row>, n: nat, i: nat)
    requires n <= |rows|
    ensures i in StaleIds(rows, n) <==> i < n && Stale(rows[i])
  {
    if n > 0 {
      StaleIdsExactly(rows, n - 1, i);
    }
  }

  /** Visiting a list of events that were all loaded from `loaded`. */
  function SyncList(w: World, loaded: seq<Row>, ids: seq<nat>, visits: seq<Visit>, config: Config): (after: World)
    requires |loaded| == |w.rows| == |visits|
    requires forall k :: 0 <= k < |ids| ==> ids[k] < |w.rows|
    ensures |after.rows| == |w.rows|
  {
    if ids == [] then w
    else
      var id := ids[|ids| - 1];
      SyncOne(SyncList(w, loaded, ids[..|ids| - 1], visits, config), loaded[id], id, visits[id], config)
  }

  function Pass(w: World, visits: seq<Visit>, config: Config): World
    requires |visits| == |w.rows|
  {
    SyncList(w, w.rows, StaleIds(w.rows, |w.rows|), visits, config)
  }

  class EventTable {
    var rows: seq<Row>
    var clock: int

    constructor (rows: seq<Row>, clock: int)
      ensures this.rows == rows && this.clock == clock
    {
      this.rows, this.clock := rows, clock;
    }

    /** UPDATE ... SET fields, atprotoSyncedAt = now() WHERE id; an absent id updates nothing. */
    method MarkAtprotoSynced(id: nat, written: Option<(string, Receipt)>, at: int, touch: bool)
      modifies this
      ensures clock == Later(old(clock), at)
      ensures rows == if id < |old(rows)| then old(rows)[id := MarkRow(old(rows)[id], written, clock, touch)]
        else old(rows)
    {
      clock := Later(clock, at);
      if id < |rows| {
        rows := rows[id := MarkRow(rows[id], written, clock, touch)];
      }
    }

    /** Exactly the stale rows, each once, in order. */
    method SelectStale() returns (ids: seq<nat>)
      ensures ids == StaleIds(rows, |rows|)
      ensures forall i: nat :: i in ids <==>
        && i < |rows| && rows[i].uri != None && rows[i].sourceType == None
        && rows[i].syncedAt != None && rows[i].updatedAt > rows[i].syncedAt.value
    {
      ids := [];
      for i := 0 to |rows|
        invariant ids == StaleIds(rows, i)
      {
        if Stale(rows[i]) {
          ids := ids + [i];
        }
      }
      forall i: nat
        ensures i in ids <==>
          && i < |rows| && rows[i].uri != None && rows[i].sourceType == None
          && rows[i].syncedAt != None && rows[i].updatedAt > rows[i].syncedAt.value
      {
        StaleIdsExactly(rows, |rows|, i);
      }
    }
  }

  lemma SyncListStep(w: World, loaded: seq<Row>, ids: seq<nat>, k: nat, visits: seq<Visit>, config: Config)
    requires |loaded| == |w.rows| == |visits| && k < |ids|
    requires forall i :: 0 <= i < |ids| ==> ids[i] < |w.rows|
    ensures SyncList(w, loaded, ids[..k + 1], visits, config)
         == SyncOne(SyncList(w, loaded, ids[..k], visits, config), loaded[ids[k]], ids[k], visits[ids[k]], config)
  {
    assert ids[..k + 1][..k] == ids[..k];
  }

  /** The loop body, for an event as it was loaded. */
  method SyncEvent(table: EventTable, pds: Pds, event: Row, id: nat, visit: Visit, config: Config)
    requires id < |table.rows|
    modifies table, pds
    ensures World(table.rows, pds.records, table.clock)
         == SyncOne(World(old(table.rows), old(pds.records), old(table.clock)), event, id, visit, config)
  {
    if event.hasUser {
      var result := PublishEvent(event, pds, visit.attempt, config);
      match result {
        case Ok(Written(_, uri, receipt)) =>
          table.MarkAtprotoSynced(id, Some((uri, receipt)), visit.at, visit.touch);
        case Ok(Conflict) =>
          table.MarkAtprotoSynced(id, None, visit.at, visit.touch);
        case _ =>
          assert table.rows == table.rows[id := table.rows[id]];
      }
    }
  }

  method SyncTenant(table: EventTable, pds: Pds, visits: seq<Visit>, config: Config)
    requires |visits| == |table.rows|
    modifies table, pds
    ensures World(table.rows, pds.records, table.clock)
         == Pass(World(old(table.rows), old(pds.records), old(table.clock)), visits, config)
  {
    ghost var start := World(table.rows, pds.records, table.clock);
    var loaded := table.rows;
    var staleIds := table.SelectStale();
    for k := 0 to |staleIds|
      invariant World(table.rows, pds.records, table.clock) == SyncList(start, loaded, staleIds[..k], visits, config)
    {
      SyncListStep(start, loaded, staleIds, k, visits, config);
      SyncEvent(table, pds, loaded[staleIds[k]], staleIds[k], visits[staleIds[k]], config);
    }
    assert staleIds[..|staleIds|] == staleIds;
  }

  // ---------------------------------------------------------------- retry quiescence

  /** The PDS as event `id` finds it during a pass. */
  function RepoSeenBy(w: World, id: nat, visits: seq<Visit>, config: Config): Repo
    requires |visits| == |w.rows| && id < |w.rows|
  {
    SyncList(w, w.rows, StaleIds(w.rows, id), visits, config).repo
  }

  /** What the pass learnt about event `id`. */
  function OutcomeFor(w: World, id: nat, visits: seq<Visit>, config: Config): Outcome<PublishResult, JsError>
    requires |visits| == |w.rows| && id < |w.rows|
  {
    PublishOutcome(w.rows[id], RepoSeenBy(w, id, visits, config), visits[id].attempt, config)
  }

  /** Row `row` after its visit: untouched unless settled, and not selected any more once settled. */
  predicate VisitEffect(row: Row, outcome: Outcome<PublishResult, JsError>, after: Row) {
    if row.hasUser && Settled(outcome) then
      && !Stale(after) && after.syncedAt.Some? && after.syncedAt.value >= row.updatedAt
      && after.content == row.content
      && (outcome.value.Conflict? ==> after.cid == row.cid && after.record == row.record)
      && (outcome.value.Written? ==>
            after.cid == Some(outcome.value.receipt.cid) && after.record == Some(outcome.value.receipt.record)
            && after.rkey == Some(outcome.value.receipt.rkey) && after.uri == Some(outcome.value.uri))
    else after == row
  }

  lemma MarkEffect(row: Row, outcome: Outcome<PublishResult, JsError>, now: int, touch: bool)
    requires row.updatedAt <= now && row.hasUser
    ensures VisitEffect(row, outcome, RowGiven(row, outcome, now, touch))
    ensures RowGiven(row, outcome, now, touch).updatedAt <= now
  {
  }

  lemma SyncOneEffect(w: World, id: nat, visit: Visit, config: Config)
    requires id < |w.rows| && ClockSound(w)
    ensures var after := SyncOne(w, w.rows[id], id, visit, config);
      && ClockSound(after) && after.clock >= w.clock && |after.rows| == |w.rows|
      && (forall i :: 0 <= i < |w.rows| && i != id ==> after.rows[i] == w.rows[i])
      && VisitEffect(w.rows[id], PublishOutcome(w.rows[id], w.repo, visit.attempt, config), after.rows[id])
  {
    if w.rows[id].hasUser {
      var outcome := PublishOutcome(w.rows[id], w.repo, visit.attempt, config);
      var now := if Settled(outcome) then Later(w.clock, visit.at) else w.clock;
      MarkEffect(w.rows[id], outcome, now, visit.touch);
    }
  }

  /** Row `id` after the pass: untouched unless selected and settled, and never selected again once settled. */
  predicate PassEffect(w: World, id: nat, after: Row, visits: seq<Visit>, config: Config)
    requires |visits| == |w.rows| && id < |w.rows|
  {
    if Stale(w.rows[id]) then VisitEffect(w.rows[id], OutcomeFor(w, id, visits, config), after)
    else after == w.rows[id]
  }

  /** One more loop iteration. */
  lemma PassGrows(w: World, n: nat, visits: seq<Visit>, config: Config)
    requires |visits| == |w.rows| && 0 < n <= |w.rows|
    ensures var before := SyncList(w, w.rows, StaleIds(w.rows, n - 1), visits, config);
      SyncList(w, w.rows, StaleIds(w.rows, n), visits, config)
        == if Stale(w.rows[n - 1]) then SyncOne(before, w.rows[n - 1], n - 1, visits[n - 1], config) else before
  {
    if Stale(w.rows[n - 1]) {
      var ids := StaleIds(w.rows, n);
      assert ids[..|ids| - 1] == StaleIds(w.rows, n - 1) && ids[|ids| - 1] == n - 1;
    } else {
      assert StaleIds(w.rows, n) == StaleIds(w.rows, n - 1);
    }
  }

  /** The loop keeps the clock sound and has not touched the rows it has yet to visit. */
  lemma {:induction false} PassFrame(w: World, n: nat, visits: seq<Visit>, config: Config)
    requires |visits| == |w.rows| && n <= |w.rows| && ClockSound(w)
    ensures var after := SyncList(w, w.rows, StaleIds(w.rows, n), visits, config);
      ClockSound(after) && (forall i :: n <= i < |w.rows| ==> after.rows[i] == w.rows[i])
  {
    if n > 0 {
      PassFrame(w, n - 1, visits, config);
      PassGrows(w, n, visits, config);
      var before := SyncList(w, w.rows, StaleIds(w.rows, n - 1), visits, config);
      SyncOneEffect(before, n - 1, visits[n - 1], config);
    }
  }

  /** The visit of the last id considered. */
  lemma VisitLands(w: World, id: nat, visits: seq<Visit>, config: Config)
    requires |visits| == |w.rows| && id < |w.rows| && ClockSound(w)
    ensures PassEffect(w, id, SyncList(w, w.rows, StaleIds(w.rows, id + 1), visits, config).rows[id], visits, config)
  {
    PassFrame(w, id, visits, config);
    PassGrows(w, id + 1, visits, config);
    SyncOneEffect(SyncList(w, w.rows, StaleIds(w.rows, id), visits, config), id, visits[id], config);
  }

  /** Later visits leave a row alone. */
  lemma {:induction false} LaterVisitsSkip(w: World, n: nat, id: nat, visits: seq<Visit>, config: Config)
    requires |visits| == |w.rows| && id < n <= |w.rows| && ClockSound(w)
    ensures SyncList(w, w.rows, StaleIds(w.rows, n), visits, config).rows[id]
         == SyncList(w, w.rows, StaleIds(w.rows, id + 1), visits, config).rows[id]
  {
    if n > id + 1 {
      LaterVisitsSkip(w, n - 1, id, visits, config);
      PassFrame(w, n - 1, visits, config);
      PassGrows(w, n, visits, config);
    }
  }

  /** A pass changes exactly the settled rows; a row is selected afterwards exactly if it was and did not settle. */
  lemma PassExactly(w: World, id: nat, visits: seq<Visit>, config: Config)
    requires |visits| == |w.rows| && id < |w.rows| && ClockSound(w)
    ensures ClockSound(Pass(w, visits, config))
    ensures PassEffect(w, id, Pass(w, visits, config).rows[id], visits, config)
    ensures Stale(Pass(w, visits, config).rows[id])
       <==> Stale(w.rows[id]) && !(w.rows[id].hasUser && Settled(OutcomeFor(w, id, visits, config)))
  {
    PassFrame(w, |w.rows|, visits, config);
    VisitLands(w, id, visits, config);
    LaterVisitsSkip(w, |w.rows|, id, visits, config);
  }

  /** What can happen to a tenant's events between and during passes. */
  datatype TableStep =
    | RunPass(visits: seq<Visit>)
    | Edit(id: nat, content: EventContent, at: int)
    | ForeignWrite(key: RecordKey, record: Option<Record>)

  function Apply(w: World, step: TableStep, config: Config): (after: World)
    ensures |after.rows| == |w.rows|
  {
    match step
    case RunPass(visits) => if |visits| == |w.rows| then Pass(w, visits, config) else w
    case Edit(id, content, at) =>
      if id < |w.rows| then
        w.(rows := w.rows[id := w.rows[id].(content := content, updatedAt := Later(w.clock, at))],
          clock := Later(w.clock, at))
      else w
    case ForeignWrite(key, record) =>
      w.(repo := if record.Some? then w.repo[key := record.value] else w.repo - {key})
  }

  function Run(w: World, steps: seq<TableStep>, config: Config): (after: World)
    ensures |after.rows| == |w.rows|
  {
    if steps == [] then w else Apply(Run(w, steps[..|steps| - 1], config), steps[|steps| - 1], config)
  }

  /** An unselected event stays exactly as it is, through any number of passes, until it is edited. */
  lemma {:induction false} QuietUntilEdited(w: World, id: nat, steps: seq<TableStep>, config: Config)
    requires ClockSound(w) && id < |w.rows| && !Stale(w.rows[id])
    requires forall k :: 0 <= k < |steps| ==> !(steps[k].Edit? && steps[k].id == id)
    ensures ClockSound(Run(w, steps, config))
    ensures Run(w, steps, config).rows[id] == w.rows[id]
  {
    if steps != [] {
      var before := Run(w, steps[..|steps| - 1], config);
      QuietUntilEdited(w, id, steps[..|steps| - 1], config);
      var last := steps[|steps| - 1];
      if last.RunPass? && |last.visits| == |w.rows| {
        PassExactly(before, id, last.visits, config);
      }
    }
  }

  /** Retry quiescence: once a pass settles an event, no later pass selects it until it is edited again. */
  lemma SettledEventsAreNotRetried(w: World, id: nat, visits: seq<Visit>, steps: seq<TableStep>, config: Config)
    requires ClockSound(w) && |visits| == |w.rows| && id < |w.rows|
    requires w.rows[id].hasUser && Settled(OutcomeFor(w, id, visits, config))
    requires forall k :: 0 <= k < |steps| ==> !(steps[k].Edit? && steps[k].id == id)
    ensures !Stale(Run(Pass(w, visits, config), steps, config).rows[id])
  {
    PassExactly(w, id, visits, config);
    QuietUntilEdited(Pass(w, visits, config), id, steps, config);
  }

  /** An edit of a synced event is picked up by the next pass: when the event's visit ends with the record written,
      the row holds that record, its CID, key and URI beside the edited content, and the sync time has moved
      past the edit. */
  lemma EditIsPickedUp(w: World, id: nat, content: EventContent, at: int, visits: seq<Visit>, config: Config)
    requires ClockSound(w) && id < |w.rows| && |visits| == |w.rows| && at > w.clock
    requires var row := w.rows[id];
      row.uri != None && row.sourceType == None && row.hasUser && row.syncedAt != None && at > row.syncedAt.value
    requires var edited := Apply(w, Edit(id, content, at), config);
      var outcome := OutcomeFor(edited, id, visits, config); outcome.Ok? && outcome.value.Written?
    ensures var steps := [Edit(id, content, at), RunPass(visits)];
      var receipt := OutcomeFor(Apply(w, steps[0], config), id, visits, config).value.receipt;
      var uri := OutcomeFor(Apply(w, steps[0], config), id, visits, config).value.uri;
      var row := Run(w, steps, config).rows[id];
      && row.content == content && row.record == Some(receipt.record) && row.cid == Some(receipt.cid)
      && row.rkey == Some(receipt.rkey) && row.uri == Some(uri)
      && row.syncedAt != None && row.syncedAt.value >= at > w.rows[id].syncedAt.value
  {
    var steps := [Edit(id, content, at), RunPass(visits)];
    var edited := Apply(w, steps[0], config);
    assert steps[..1] == [steps[0]] && [steps[0]][..0] == [] && Run(w, [steps[0]], config) == edited;
    assert Stale(edited.rows[id]) && ClockSound(edited);
    PassExactly(edited, id, visits, config);
  }

  /** An imported event, or one without a URI or a sync time, is never touched by any number of passes. */
  lemma {:induction false} OthersAreNeverTouched(w: World, id: nat, steps: seq<TableStep>, config: Config)
    requires ClockSound(w) && id < |w.rows|
    requires w.rows[id].sourceType != None || w.rows[id].uri == None || w.rows[id].syncedAt == None
    requires forall k :: 0 <= k < |steps| ==> !(steps[k].Edit? && steps[k].id == id)
    ensures Run(w, steps, config).rows[id] == w.rows[id]
  {
    QuietUntilEdited(w, id, steps, config);
  }

  /** A visit whose record fails lexicon validation, with a session and nothing in sight that mentions the swap code. */
  predicate FailsValidation(row: Row, a: Attempt) {
    && ShouldPublish(row) && row.hasUser && a.identity && a.session.Session? && a.lexiconError.Some?
    && !Includes(VALIDATION_PREFIX + " " + a.lexiconError.value, SWAP_CODE)
    && !Includes(row.content.name, SWAP_CODE)
  }

  /** The publisher takes the event for one that is in sync. */
  predicate SkippedAsSynced(row: Row, a: Attempt) {
    !a.force && !NeedsRepublish(row)
  }

  /** An event with an organizer and a session is selected and then skipped exactly when its two stamps fall
      into one millisecond, which the publisher's dates cannot tell apart. */
  lemma SelectedButSkippedExactly(row: Row, repo: Repo, a: Attempt, config: Config)
    requires Stale(row) && ShouldPublish(row) && row.hasUser && a.identity && a.session.Session?
    ensures PublishOutcome(row, repo, a, config) == Ok(Skipped)
       <==> !a.force && row.uri != Some("") && Millis(row.updatedAt) == Millis(row.syncedAt.value)
  {
  }

  /** No pass of the run settles the event. */
  predicate NeverSettled(w: World, id: nat, steps: seq<TableStep>, config: Config)
    requires id < |w.rows|
  {
    steps == []
    || (var init, last := steps[..|steps| - 1], steps[|steps| - 1];
        NeverSettled(w, id, init, config) && LeavesUnsettled(Run(w, init, config), id, last, config))
  }

  predicate LeavesUnsettled(w: World, id: nat, step: TableStep, config: Config)
    requires id < |w.rows|
  {
    step.RunPass? && |step.visits| == |w.rows| && w.rows[id].hasUser ==>
      !Settled(OutcomeFor(w, id, step.visits, config))
  }

  lemma {:induction false} StaleWhileUnsettled(w: World, id: nat, steps: seq<TableStep>, config: Config)
    requires ClockSound(w) && id < |w.rows| && Stale(w.rows[id])
    requires forall k :: 0 <= k < |steps| ==> !(steps[k].Edit? && steps[k].id == id)
    ensures ClockSound(Run(w, steps, config))
    ensures Stale(Run(w, steps, config).rows[id]) <==> NeverSettled(w, id, steps, config)
    ensures NeverSettled(w, id, steps, config) ==> Run(w, steps, config).rows[id] == w.rows[id]
  {
    if steps != [] {
      var init, last := steps[..|steps| - 1], steps[|steps| - 1];
      StaleWhileUnsettled(w, id, init, config);
      if last.RunPass? && |last.visits| == |w.rows| {
        PassExactly(Run(w, init, config), id, last.visits, config);
      }
    }
  }

  /** A stale event that nobody edits is selected by every later pass exactly as long as none settles it, and
      stays as it is until then. */
  lemma RetriedExactly(w: World, id: nat, steps: seq<TableStep>, config: Config)
    requires ClockSound(w) && id < |w.rows| && Stale(w.rows[id])
    requires forall k :: 0 <= k < |steps| ==> !(steps[k].Edit? && steps[k].id == id)
    ensures var rows := Run(w, steps, config).rows;
      && (id in StaleIds(rows, |rows|) <==> NeverSettled(w, id, steps, config))
      && (NeverSettled(w, id, steps, config) ==> rows[id] == w.rows[id])
  {
    StaleWhileUnsettled(w, id, steps, config);
    StaleIdsExactly(Run(w, steps, config).rows, |w.rows|, id);
  }

  /** No edit of the event, and every visit to it fails validation or takes it for one in sync. */
  predicate OnlyFailures(w: World, id: nat, steps: seq<TableStep>)
    requires id < |w.rows|
  {
    forall k :: 0 <= k < |steps| ==>
      && !(steps[k].Edit? && steps[k].id == id)
      && (steps[k].RunPass? && |steps[k].visits| == |w.rows| ==> Fails(w.rows[id], steps[k].visits[id].attempt))
  }

  predicate Fails(row: Row, a: Attempt) {
    FailsValidation(row, a) || SkippedAsSynced(row, a)
  }

  /** A stale event whose record fails validation at every visit, or whose stamps fall into one millisecond,
      stays exactly as it is, so every pass of the run selects it again, until somebody edits it. */
  lemma {:induction false} FailuresAreRetriedForever(w: World, id: nat, steps: seq<TableStep>, config: Config)
    requires ClockSound(w) && id < |w.rows| && Stale(w.rows[id]) && OnlyFailures(w, id, steps)
    ensures NeverSettled(w, id, steps, config)
    ensures var after := Run(w, steps, config);
      after.rows[id] == w.rows[id] && id in StaleIds(after.rows, |after.rows|)
  {
    if steps != [] {
      var init, last := steps[..|steps| - 1], steps[|steps| - 1];
      assert forall k :: 0 <= k < |init| ==> init[k] == steps[k];
      FailuresAreRetriedForever(w, id, init, config);
      var before := Run(w, init, config);
      if last.RunPass? && |last.visits| == |w.rows| {
        FailureIsUnsettled(before.rows[id], RepoSeenBy(before, id, last.visits, config), last.visits[id].attempt,
          config);
      }
    }
    RetriedExactly(w, id, steps, config);
  }

  lemma FailureIsUnsettled(row: Row, repo: Repo, a: Attempt, config: Config)
    requires Fails(row, a)
    ensures !Settled(PublishOutcome(row, repo, a, config))
  {
    if a.force || NeedsRepublish(row) {
      LexiconFailureThrows(row, repo, a, config);
    }
  }

  /** Past the publisher's own checks its answer is the classification of what createEventRecord threw. */
  lemma ThrownIsClassified(row: Row, repo: Repo, a: Attempt, config: Config)
    requires ShouldPublish(row) && (a.force || NeedsRepublish(row)) && row.hasUser && a.identity && a.session.Session?
    requires Request(row, a, config).Throws?
    ensures PublishOutcome(row, repo, a, config) == Classify(WrapError(row.content.name, Request(row, a, config).error))
  {
  }

  lemma LexiconRequest(row: Row, a: Attempt, config: Config)
    requires a.lexiconError.Some?
    ensures Request(row, a, config) == Throws(JsError("Cannot read stored entries", None, None))
         || Request(row, a, config)
              == Throws(JsError("AT Protocol record validation failed: " + a.lexiconError.value, None, None))
  {
  }

  lemma LexiconFailureThrows(row: Row, repo: Repo, a: Attempt, config: Config)
    requires ShouldPublish(row) && (a.force || NeedsRepublish(row)) && row.hasUser && a.identity && a.session.Session?
    requires a.lexiconError.Some?
    requires !Includes(VALIDATION_PREFIX + " " + a.lexiconError.value, SWAP_CODE)
      && !Includes(row.content.name, SWAP_CODE)
    ensures PublishOutcome(row, repo, a, config).Throws?
  {
    LexiconRequest(row, a, config);
    ThrownIsClassified(row, repo, a, config);
    PlainErrorIsThrown(row.content.name, Request(row, a, config).error, a.lexiconError.value);
  }

  /** Neither error mentions the swap code, and neither is typed as a validation error. */
  lemma PlainErrorIsThrown(name: string, error: JsError, text: string)
    requires error == JsError("Cannot read stored entries", None, None)
          || error == JsError("AT Protocol record validation failed: " + text, None, None)
    requires !Includes(VALIDATION_PREFIX + " " + text, SWAP_CODE) && !Includes(name, SWAP_CODE)
    ensures Classify(WrapError(name, error)).Throws?
  {
    if error.message == "Cannot read stored entries" {
      ReadErrorIsPlain();
    } else {
      assert VALIDATION_PREFIX + " " + text == error.message;
    }
    ConflictExactly(name, error);
    ValidationIsNeverTyped(name, error);
  }

  lemma ReadErrorIsPlain()
    ensures !Includes("Cannot read stored entries", SWAP_CODE)
  {
    assert "Cannot read stored entries" + "" == "Cannot read stored entries";
    IncludesAfter("Cannot read stored entries", "", SWAP_CODE);
  }
}

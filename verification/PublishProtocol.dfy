/**
 The parties that touch one published event, in any interleaving: the update and sync handlers and
 the scheduler (load, edit, save a generated record key, put, mark), the update handler's other
 path for events with a Bluesky source, which saves the published record without its CID, other
 apps writing the PDS record, and the firehose ingest of
 src/event/services/event-integration.service.ts, which saves a loaded row and then writes the CID
 once more in an update of its own. Any of them may stop after any step.
 */
module PublishProtocol {
  import opened Basics
  import opened RecordMerge
  import opened EventRecord
  import opened RecordProperties
  import opened Publisher
  import opened SyncScheduler

  /** A process between loading the row and finishing with it. */
  datatype Proc =
    | Loaded(snapshot: Row)
    | Accepted(receipt: Receipt, snapshot: Row)
    | Rejected
    | Ingested(cid: Option<Cid>, uri: Option<string>)

  datatype System = System(row: Row, repo: Repo, procs: map<nat, Proc>, clock: int)

  /** What the firehose delivers about the record. */
  datatype Delivery = Delivery(
    cid: Option<Cid>,
    rawRecord: Option<Record>,
    content: EventContent,
    visibility: Option<Visibility>,
    metadataRkey: Option<string>,
    sourceId: Option<string>)

  /** The source a PATCH names: its type, and the record key in its data. */
  datatype Source = Source(kind: string, rkey: Option<string>)

  /** The local columns as an edit leaves them; without a source, type and source data stay. */
  datatype Edit = Edit(content: EventContent, visibility: Visibility, source: Option<Source>)

  datatype Step =
    | Load(p: nat)
    | Put(p: nat, a: Attempt)
    | Mark(p: nat, at: int, touch: bool)
    | Crash(p: nat)
    | SaveEdit(p: nat, edit: Edit, at: int)
    | SaveKey(p: nat, tid: string, at: int)
    | SaveRecord(p: nat, at: int)
    | ForeignWrite(key: RecordKey, record: Option<Record>)
    | IngestSave(p: nat, delivery: Delivery, at: int)
    | IngestMark(p: nat, at: int, touch: bool)

  /** Fixed for a run: the organizer's DID and the deployment's configuration. */
  datatype Setting = Setting(did: string, config: Config)

  function KeyOf(row: Row, a: Attempt, setting: Setting): RecordKey {
    RecordKey(setting.did, RkeyOf(row, a.freshTid))
  }

  function EditedRow(row: Row, e: Edit, now: int): Row {
    var edited := row.(content := e.content, visibility := e.visibility, updatedAt := now);
    if e.source.None? then edited
    else edited.(sourceType := Some(e.source.value.kind), sourceRkey := e.source.value.rkey)
  }

  /** The update handler itself puts the record of such an event; the publisher handles the others. */
  predicate ViaBluesky(row: Row) {
    row.sourceType == Some("bluesky") && NonEmpty(row.sourceRkey)
  }

  predicate Publishes(row: Row) {
    ShouldPublish(row) || ViaBluesky(row)
  }

  predicate IsLoaded(s: System, p: nat) {
    p in s.procs && s.procs[p].Loaded?
  }

  predicate CanPut(s: System, p: nat) {
    IsLoaded(s, p) && Publishes(s.procs[p].snapshot)
  }

  /** An event about to be published without a record key is given one, and saved, first. */
  predicate NeedsKey(s: System, p: nat) {
    IsLoaded(s, p) && ShouldPublish(s.procs[p].snapshot) && !NonEmpty(s.procs[p].snapshot.rkey)
  }

  /** The publisher's callers mark; they mark a conflict too. */
  predicate CanMark(s: System, p: nat) {
    p in s.procs && (s.procs[p].Rejected? || (s.procs[p].Accepted? && !ViaBluesky(s.procs[p].snapshot)))
  }

  /** The update handler's own put is followed by another save of the row. */
  predicate CanSaveRecord(s: System, p: nat) {
    p in s.procs && s.procs[p].Accepted? && ViaBluesky(s.procs[p].snapshot)
  }

  /** The loaded row with the record just published, and the CID it had before. */
  function RecordRow(proc: Proc, now: int): Row
    requires proc.Accepted?
  {
    proc.snapshot.(record := Some(proc.receipt.record), updatedAt := now)
  }

  /** Our own echo: the incoming CID is the one the loaded row holds. */
  predicate IsEcho(row: Row, d: Delivery) {
    d.cid.Some? && row.cid == d.cid
  }

  predicate CidChanges(row: Row, d: Delivery) {
    d.cid.Some? && row.cid.Some? && d.cid != row.cid
  }

  predicate BackfillsUri(row: Row, d: Delivery) {
    !NonEmpty(row.uri) && NonEmpty(row.rkey) && NonEmpty(d.sourceId)
  }

  /** updateExistingEvent up to its save: the loaded row takes over the CID, content and raw record of the delivery. */
  function IngestRow(row: Row, d: Delivery, now: int): Row {
    if IsEcho(row, d) then row
    else
      row.(content := d.content,
           visibility := if d.visibility.Some? then d.visibility.value else row.visibility,
           sourceRkey := if d.metadataRkey.Some? then d.metadataRkey else row.sourceRkey,
           cid := if CidChanges(row, d) then d.cid else row.cid,
           record := if d.rawRecord.Some? then d.rawRecord else row.record,
           uri := if BackfillsUri(row, d) then d.sourceId else row.uri,
           updatedAt := now)
  }

  /** The updates still to run after the save: the CID if it changed, then the URI if it was filled in. */
  function AfterSave(procs: map<nat, Proc>, p: nat, cid: Option<Cid>, uri: Option<string>): map<nat, Proc> {
    if cid.None? && uri.None? then procs - {p} else procs[p := Ingested(cid, uri)]
  }

  /** markAtprotoSynced with only a CID or only a URI. */
  function MarkIngested(row: Row, cid: Option<Cid>, uri: Option<string>, now: int, touch: bool): Row {
    var marked := row.(syncedAt := Some(now), updatedAt := if touch then now else row.updatedAt);
    if cid.Some? then marked.(cid := cid) else marked.(uri := uri)
  }

  /** A save of `saved` by the process that loaded it and goes on with it. */
  function Saved(s: System, p: nat, saved: Row, now: int): System {
    s.(row := saved, procs := s.procs[p := Loaded(saved)], clock := now)
  }

  /** Where the process stands after its put. */
  function AfterPut(s: System, p: nat, row: Row, reply: Outcome<Receipt, JsError>): map<nat, Proc> {
    if reply.Ok? then s.procs[p := Accepted(reply.value, row)]
    else if Classify(reply.error) == Ok(Conflict) && !ViaBluesky(row) then s.procs[p := Rejected]
    else s.procs - {p}
  }

  /** What a mark writes besides the sync time. */
  function WrittenBy(proc: Proc, setting: Setting): Option<(string, Receipt)> {
    if proc.Accepted? then Some((EventUri(setting.did, proc.receipt.rkey), proc.receipt)) else None
  }

  /** One step; a step whose process is not in the right place changes nothing. */
  function Apply(s: System, step: Step, setting: Setting): System {
    match step
    case Load(p) => s.(procs := s.procs[p := Loaded(s.row)])
    case Put(p, a) =>
      if CanPut(s, p) then
        var row := s.procs[p].snapshot;
        s.(repo := RepoAfter(row, s.repo, setting.did, a, setting.config),
           procs := AfterPut(s, p, row, CreateEventRecord(row, s.repo, setting.did, a, setting.config)))
      else s
    case Mark(p, at, touch) =>
      if CanMark(s, p) then
        var now := Later(s.clock, at);
        s.(row := MarkRow(s.row, WrittenBy(s.procs[p], setting), now, touch), procs := s.procs - {p}, clock := now)
      else s
    case Crash(p) => s.(procs := s.procs - {p})
    case SaveEdit(p, edit, at) =>
      if IsLoaded(s, p) then Saved(s, p, EditedRow(s.procs[p].snapshot, edit, Later(s.clock, at)), Later(s.clock, at))
      else s
    case SaveKey(p, tid, at) =>
      if NeedsKey(s, p) then
        var now := Later(s.clock, at);
        Saved(s, p, s.procs[p].snapshot.(rkey := Some(tid), updatedAt := now), now)
      else s
    case SaveRecord(p, at) =>
      if CanSaveRecord(s, p) then
        var now := Later(s.clock, at);
        s.(row := RecordRow(s.procs[p], now), procs := s.procs - {p}, clock := now)
      else s
    case ForeignWrite(key, record) =>
      s.(repo := if record.Some? then s.repo[key := record.value] else s.repo - {key})
    case IngestSave(p, d, at) =>
      if IsLoaded(s, p) then
        var row := s.procs[p].snapshot;
        if IsEcho(row, d) then s.(procs := s.procs - {p})
        else
          var now := Later(s.clock, at);
          var cid := if CidChanges(row, d) then d.cid else None;
          var uri := if BackfillsUri(row, d) then d.sourceId else None;
          s.(row := IngestRow(row, d, now), clock := now, procs := AfterSave(s.procs, p, cid, uri))
      else s
    case IngestMark(p, at, touch) =>
      if p in s.procs && s.procs[p].Ingested? then
        var now := Later(s.clock, at);
        var cid, uri := s.procs[p].cid, s.procs[p].uri;
        s.(row := MarkIngested(s.row, cid, uri, now, touch), clock := now,
           procs := AfterSave(s.procs, p, None, if cid.Some? then uri else None))
      else s
  }

  function Run(s: System, steps: seq<Step>, setting: Setting): System {
    if steps == [] then s else Apply(Run(s, steps[..|steps| - 1], setting), steps[|steps| - 1], setting)
  }

  // ---------------------------------------------------------------- the stored CID names the stored record

  predicate Coherent(row: Row) {
    row.cid.Some? ==> row.record.Some? && row.cid.value == CidOf(row.record.value)
  }

  predicate CoherentProc(proc: Proc) {
    && (proc.Loaded? ==> Coherent(proc.snapshot))
    && (proc.Accepted? ==> proc.receipt.cid == CidOf(proc.receipt.record) && Coherent(proc.snapshot))
  }

  predicate CoherentSystem(s: System) {
    Coherent(s.row) && forall p :: p in s.procs ==> CoherentProc(s.procs[p])
  }

  /** The delivery brings a record and the CID of that very record, or neither. */
  predicate Faithful(d: Delivery) {
    (d.cid.Some? <==> d.rawRecord.Some?) && (d.cid.Some? ==> d.cid.value == CidOf(d.rawRecord.value))
  }

  /** What a save needs to keep the row coherent: a new CID arrives with its record or names the stored
      one, and a record without a CID is the stored one. */
  predicate SaveKeeps(row: Row, d: Delivery) {
    || row.cid.None? || IsEcho(row, d)
    || (if d.cid.Some? then (if d.rawRecord.Some? then d.rawRecord else row.record) == Some(d.cid.value.record)
        else d.rawRecord.None? || d.rawRecord == row.record)
  }

  /** Exactly which deliveries keep a loaded row coherent when they are saved. */
  lemma IngestCoherentExactly(row: Row, d: Delivery, now: int)
    requires Coherent(row)
    ensures Coherent(IngestRow(row, d, now)) <==> SaveKeeps(row, d)
    ensures Faithful(d) ==> SaveKeeps(row, d)
  {
    if Faithful(d) && d.cid.Some? {
      assert d.cid.value == CidOf(d.rawRecord.value);
    }
  }

  /** What the update after a save needs: the row's record at that moment is still the one its CID names. */
  predicate OnTime(row: Row, cid: Option<Cid>) {
    cid.Some? ==> row.record == Some(cid.value.record)
  }

  /** The update writes the CID alone, so it leaves a coherent row coherent exactly when it is on time. */
  lemma MarkCoherentExactly(row: Row, cid: Option<Cid>, uri: Option<string>, now: int, touch: bool)
    requires Coherent(row)
    ensures Coherent(MarkIngested(row, cid, uri, now, touch)) <==> OnTime(row, cid)
  {
    if OnTime(row, cid) && cid.Some? {
      assert cid.value == CidOf(cid.value.record);
    }
  }

  /** A record may be saved without its CID if there is no CID, or if the put changed nothing. */
  predicate RecordKeeps(proc: Proc)
    requires proc.Accepted?
  {
    proc.snapshot.cid.None? || proc.snapshot.record == Some(proc.receipt.record)
  }

  /** The save writes the record alone, so it leaves a coherent row coherent exactly then. */
  lemma RecordCoherentExactly(proc: Proc, now: int)
    requires proc.Accepted? && CoherentProc(proc)
    ensures Coherent(RecordRow(proc, now)) <==> RecordKeeps(proc)
  {
  }

  predicate SavedRecordKeeps(s: System, step: Step) {
    step.SaveRecord? && CanSaveRecord(s, step.p) ==> RecordKeeps(s.procs[step.p])
  }

  /** The step's own condition for coherence; only the two ingest steps and the save of a record alone have one. */
  predicate Keeps(s: System, step: Step) {
    && (step.IngestSave? && IsLoaded(s, step.p) ==> SaveKeeps(s.procs[step.p].snapshot, step.delivery))
    && (step.IngestMark? && step.p in s.procs && s.procs[step.p].Ingested? ==> OnTime(s.row, s.procs[step.p].cid))
    && SavedRecordKeeps(s, step)
  }

  /** What a put does to the system besides the repository. */
  lemma PutEffect(s: System, p: nat, a: Attempt, setting: Setting)
    requires CanPut(s, p)
    ensures var t := Apply(s, Put(p, a), setting); var row := s.procs[p].snapshot;
      && t.row == s.row && t.clock == s.clock && t.procs - {p} == s.procs - {p}
      && (p in t.procs ==>
            || t.procs[p].Rejected?
            || (exists record :: Request(row, a, setting.config) == Ok(record)
                  && t.procs[p] == Accepted(Receipt(RkeyOf(row, a.freshTid), CidOf(record), record), row)))
  {
  }

  /** Processes other than `p` are untouched. */
  lemma OtherProcs(s: map<nat, Proc>, t: map<nat, Proc>, p: nat)
    requires t - {p} == s - {p}
    ensures forall q :: q != p ==> (q in t <==> q in s) && (q in s ==> t[q] == s[q])
  {
    forall q | q != p
      ensures (q in t <==> q in s) && (q in s ==> t[q] == s[q])
    {
      assert q in t <==> q in t - {p};
      assert q in s <==> q in s - {p};
      assert q in s ==> (s - {p})[q] == s[q] && (t - {p})[q] == t[q];
    }
  }

  lemma CoherentPut(s: System, p: nat, a: Attempt, setting: Setting)
    requires CoherentSystem(s) && CanPut(s, p)
    ensures CoherentSystem(Apply(s, Put(p, a), setting))
  {
    var t := Apply(s, Put(p, a), setting);
    PutEffect(s, p, a, setting);
    OtherProcs(s.procs, t.procs, p);
    assert CoherentProc(s.procs[p]);
  }

  lemma CoherentSave(s: System, p: nat, d: Delivery, at: int, setting: Setting)
    requires CoherentSystem(s) && IsLoaded(s, p)
    ensures CoherentSystem(Apply(s, IngestSave(p, d, at), setting)) <==> SaveKeeps(s.procs[p].snapshot, d)
  {
    assert CoherentProc(s.procs[p]);
    IngestCoherentExactly(s.procs[p].snapshot, d, Later(s.clock, at));
  }

  lemma CoherentMark(s: System, p: nat, at: int, touch: bool, setting: Setting)
    requires CoherentSystem(s) && p in s.procs && s.procs[p].Ingested?
    ensures CoherentSystem(Apply(s, IngestMark(p, at, touch), setting)) <==> OnTime(s.row, s.procs[p].cid)
  {
    MarkCoherentExactly(s.row, s.procs[p].cid, s.procs[p].uri, Later(s.clock, at), touch);
  }

  lemma CoherentRecord(s: System, p: nat, at: int, setting: Setting)
    requires CoherentSystem(s) && CanSaveRecord(s, p)
    ensures CoherentSystem(Apply(s, SaveRecord(p, at), setting)) <==> RecordKeeps(s.procs[p])
  {
    RecordCoherentExactly(s.procs[p], Later(s.clock, at));
  }

  /** Edits, new record keys and marks write both columns from one place. */
  lemma CoherentOthers(s: System, step: Step, setting: Setting)
    requires CoherentSystem(s)
    requires step.Mark? || step.SaveEdit? || step.SaveKey?
    ensures CoherentSystem(Apply(s, step, setting))
  {
    assert step.p in s.procs ==> CoherentProc(s.procs[step.p]);
  }

  lemma CoherentStepExactly(s: System, step: Step, setting: Setting)
    requires CoherentSystem(s)
    ensures CoherentSystem(Apply(s, step, setting)) <==> Keeps(s, step)
  {
    match step
    case Put(p, a) =>
      if CanPut(s, p) {
        CoherentPut(s, p, a, setting);
      }
    case IngestSave(p, d, at) =>
      if IsLoaded(s, p) {
        CoherentSave(s, p, d, at, setting);
      }
    case IngestMark(p, at, touch) =>
      if p in s.procs && s.procs[p].Ingested? {
        CoherentMark(s, p, at, touch, setting);
      }
    case SaveRecord(p, at) =>
      if CanSaveRecord(s, p) {
        CoherentRecord(s, p, at, setting);
      }
    case Load(_) =>
    case Crash(_) =>
    case ForeignWrite(_, _) =>
    case _ =>
      CoherentOthers(s, step, setting);
  }

  /** Every state of the run is coherent. */
  predicate StaysCoherent(s: System, steps: seq<Step>, setting: Setting) {
    CoherentSystem(Run(s, steps, setting)) && (steps == [] || StaysCoherent(s, steps[..|steps| - 1], setting))
  }

  /** Every step of the run meets its condition. */
  predicate KeepsThroughout(s: System, steps: seq<Step>, setting: Setting) {
    steps == []
    || (var init, last := steps[..|steps| - 1], steps[|steps| - 1];
        KeepsThroughout(s, init, setting) && Keeps(Run(s, init, setting), last))
  }

  /** Whoever holds a CID also holds the record it names, in every state of a run, exactly when each ingest
      saves a matching pair, each second update finds the record its ingest saved, and each record saved
      alone belongs to an event without a CID or is the one that was stored already. */
  lemma {:induction false} CoherentRunExactly(s: System, steps: seq<Step>, setting: Setting)
    requires CoherentSystem(s)
    ensures StaysCoherent(s, steps, setting) <==> KeepsThroughout(s, steps, setting)
  {
    if steps != [] {
      var init := steps[..|steps| - 1];
      CoherentRunExactly(s, init, setting);
      if CoherentSystem(Run(s, init, setting)) {
        CoherentStepExactly(Run(s, init, setting), steps[|steps| - 1], setting);
      }
    }
  }

  // ---------------------------------------------------------------- when ingests do not race

  /** The process whose ingest was the last to write the row, nobody having saved or marked it since. */
  function LastIngest(s: System, steps: seq<Step>, setting: Setting): Option<nat> {
    if steps == [] then None
    else
      var init, last := steps[..|steps| - 1], steps[|steps| - 1];
      if last.IngestSave? && IsLoaded(Run(s, init, setting), last.p) then Some(last.p)
      else if WritesRow(last) then None
      else LastIngest(s, init, setting)
  }

  /** The writers of the row other than ingests. */
  predicate WritesRow(step: Step) {
    step.Mark? || step.SaveEdit? || step.SaveKey? || step.SaveRecord?
  }

  /** Deliveries are faithful, and no other write of the row comes between an ingest's save and its second update. */
  predicate Undisturbed(s: System, steps: seq<Step>, setting: Setting) {
    steps == []
    || (var init, last := steps[..|steps| - 1], steps[|steps| - 1];
        && Undisturbed(s, init, setting)
        && (last.IngestSave? ==> Faithful(last.delivery))
        && (last.IngestMark? ==> LastIngest(s, init, setting) == Some(last.p)))
  }

  /** If `p` still has a CID to write, it is the CID of the row's record. */
  predicate Timely(s: System, p: Option<nat>) {
    p.Some? && p.value in s.procs && s.procs[p.value].Ingested? ==> OnTime(s.row, s.procs[p.value].cid)
  }

  lemma SaveIsTimely(s: System, p: nat, d: Delivery, at: int, setting: Setting)
    requires IsLoaded(s, p) && Faithful(d)
    ensures Timely(Apply(s, IngestSave(p, d, at), setting), Some(p))
  {
    if d.cid.Some? {
      assert d.cid.value == CidOf(d.rawRecord.value);
    }
  }

  /** A step that does not write the row, or only `p`'s own update, leaves `p` timely. */
  lemma OthersStayTimely(s: System, step: Step, p: nat, setting: Setting)
    requires Timely(s, Some(p)) && (step.IngestMark? ==> step.p == p) && !WritesRow(step)
    requires step.IngestSave? ==> !IsLoaded(s, step.p)
    ensures Timely(Apply(s, step, setting), Some(p))
  {
    if step.Put? && CanPut(s, step.p) {
      PutEffect(s, step.p, step.a, setting);
      OtherProcs(s.procs, Apply(s, step, setting).procs, step.p);
    }
  }

  lemma {:induction false} LastIngestOnTime(s: System, steps: seq<Step>, setting: Setting)
    requires Undisturbed(s, steps, setting)
    ensures Timely(Run(s, steps, setting), LastIngest(s, steps, setting))
  {
    if steps != [] {
      var init, last := steps[..|steps| - 1], steps[|steps| - 1];
      var before, p := Run(s, init, setting), LastIngest(s, init, setting);
      LastIngestOnTime(s, init, setting);
      if last.IngestSave? && IsLoaded(before, last.p) {
        SaveIsTimely(before, last.p, last.delivery, last.at, setting);
      } else if p.Some? && !WritesRow(last) {
        OthersStayTimely(before, last, p.value, setting);
      }
    }
  }

  /** Every record saved without its CID meets the condition of that step. */
  predicate RecordSavesKeep(s: System, steps: seq<Step>, setting: Setting) {
    steps == []
    || (var init, last := steps[..|steps| - 1], steps[|steps| - 1];
        && RecordSavesKeep(s, init, setting)
        && SavedRecordKeeps(Run(s, init, setting), last))
  }

  /** When ingests are faithful and undisturbed, only a record saved without its CID can part the two. */
  lemma {:induction false} UndisturbedIngestsKeep(s: System, steps: seq<Step>, setting: Setting)
    requires CoherentSystem(s) && Undisturbed(s, steps, setting)
    ensures StaysCoherent(s, steps, setting) <==> RecordSavesKeep(s, steps, setting)
  {
    CoherentRunExactly(s, steps, setting);
    if steps != [] {
      var init, last := steps[..|steps| - 1], steps[|steps| - 1];
      var before := Run(s, init, setting);
      UndisturbedIngestsKeep(s, init, setting);
      CoherentRunExactly(s, init, setting);
      LastIngestOnTime(s, init, setting);
      if last.IngestSave? && IsLoaded(before, last.p) && CoherentSystem(before) {
        assert CoherentProc(before.procs[last.p]);
        IngestCoherentExactly(before.procs[last.p].snapshot, last.delivery, 0);
      }
    }
  }

  // ---------------------------------------------------------------- runs that part the CID from its record

  /** One step more. */
  lemma NextStep(s: System, steps: seq<Step>, k: nat, setting: Setting)
    requires k < |steps|
    ensures Run(s, steps[..k + 1], setting) == Apply(Run(s, steps[..k], setting), steps[k], setting)
  {
    assert steps[..k + 1][..k] == steps[..k];
  }

  lemma FourSteps(s: System, steps: seq<Step>, k: nat, setting: Setting)
    requires k + 4 <= |steps|
    ensures var t := Run(s, steps[..k], setting);
      Run(s, steps[..k + 4], setting)
        == Apply(Apply(Apply(Apply(t, steps[k], setting), steps[k + 1], setting),
                       steps[k + 2], setting), steps[k + 3], setting)
  {
    NextStep(s, steps, k, setting);
    NextStep(s, steps, k + 1, setting);
    NextStep(s, steps, k + 2, setting);
    NextStep(s, steps, k + 3, setting);
  }

  lemma SixSteps(s: System, steps: seq<Step>, setting: Setting)
    requires |steps| == 6
    ensures var t := Apply(Apply(Apply(s, steps[0], setting), steps[1], setting), steps[2], setting);
      Run(s, steps, setting) == Apply(Apply(Apply(t, steps[3], setting), steps[4], setting), steps[5], setting)
  {
    FourSteps(s, steps, 0, setting);
    NextStep(s, steps, 4, setting);
    NextStep(s, steps, 5, setting);
    assert steps[..6] == steps && steps[..0] == [];
  }

  predicate NewVersion(row: Row, d: Delivery) {
    Faithful(d) && CidChanges(row, d)
  }

  /** Two faithful deliveries whose saves and updates interleave leave the first one's CID with the second
      one's record. */
  lemma RacingIngestsDisagree(s: System, x: Delivery, y: Delivery, at: int, touch: bool, setting: Setting)
    requires NonEmpty(s.row.uri) && NewVersion(s.row, x) && NewVersion(s.row, y) && x.cid != y.cid
    ensures var steps := [Load(0), Load(1), IngestSave(0, x, at), IngestSave(1, y, at),
                          IngestMark(1, at, touch), IngestMark(0, at, touch)];
      var row := Run(s, steps, setting).row;
      row.cid == x.cid && row.record == y.rawRecord && !Coherent(row)
  {
    var steps := [Load(0), Load(1), IngestSave(0, x, at), IngestSave(1, y, at),
                  IngestMark(1, at, touch), IngestMark(0, at, touch)];
    SixSteps(s, steps, setting);
    TwoLoads(s, setting);
    var loaded := Apply(Apply(s, Load(0), setting), Load(1), setting);
    SaveOfLoaded(loaded, 0, s.row, x, at, setting);
    var first := Apply(loaded, steps[2], setting);
    SaveOfLoaded(first, 1, s.row, y, at, setting);
    assert Apply(first, steps[3], setting).procs[0] == Ingested(x.cid, None);
    assert x.cid.value == CidOf(x.rawRecord.value) && y.cid.value == CidOf(y.rawRecord.value);
  }

  lemma TwoLoads(s: System, setting: Setting)
    ensures var t := Apply(Apply(s, Load(0), setting), Load(1), setting);
      t == s.(procs := s.procs[0 := Loaded(s.row)][1 := Loaded(s.row)])
  {
  }

  lemma SaveOfLoaded(s: System, p: nat, row: Row, d: Delivery, at: int, setting: Setting)
    requires p in s.procs && s.procs[p] == Loaded(row) && NonEmpty(row.uri) && NewVersion(row, d)
    ensures var t := Apply(s, IngestSave(p, d, at), setting);
      && t.row == IngestRow(row, d, Later(s.clock, at)) && t.repo == s.repo
      && t.procs == s.procs[p := Ingested(d.cid, None)]
      && t.row.cid == d.cid && t.row.record == d.rawRecord && t.row.rkey == row.rkey
  {
  }

  /** So does a publish that comes between the save and the update of one ingest: the row keeps the
      delivered CID and the published record. */
  lemma PublishDuringIngestDisagrees(s: System, d: Delivery, a: Attempt, at: int, touch: bool, setting: Setting)
    requires NonEmpty(s.row.uri) && NonEmpty(s.row.rkey) && NewVersion(s.row, d) && a.replyLost.None?
    requires var saved := IngestRow(s.row, d, Later(s.clock, at));
      ShouldPublish(saved) && Stores(saved, s.repo, setting.did, a, setting.config)
        && Request(saved, a, setting.config) != Ok(d.rawRecord.value)
    ensures var steps := [Load(0), IngestSave(0, d, at), Load(1),
                          Put(1, a), Mark(1, at, touch), IngestMark(0, at, touch)];
      var after := Run(s, steps, setting);
      && after.row.cid == d.cid && !Coherent(after.row)
      && RecordKey(setting.did, s.row.rkey.value) in after.repo
      && after.row.record == Some(after.repo[RecordKey(setting.did, s.row.rkey.value)])
  {
    var steps := [Load(0), IngestSave(0, d, at), Load(1),
                  Put(1, a), Mark(1, at, touch), IngestMark(0, at, touch)];
    SixSteps(s, steps, setting);
    var loaded := Apply(Apply(Apply(s, steps[0], setting), steps[1], setting), Load(1), setting);
    SaveThenLoad(s, d, at, setting);
    var saved := IngestRow(s.row, d, Later(s.clock, at));
    PublishThenMark(loaded, saved, d.cid.value, a, at, touch, setting);
    assert d.cid.value == CidOf(d.rawRecord.value);
  }

  lemma SaveThenLoad(s: System, d: Delivery, at: int, setting: Setting)
    requires NonEmpty(s.row.uri) && NewVersion(s.row, d)
    ensures var t := Apply(Apply(Apply(s, Load(0), setting), IngestSave(0, d, at), setting), Load(1), setting);
      var saved := IngestRow(s.row, d, Later(s.clock, at));
      && t.row == saved && t.repo == s.repo
      && 0 in t.procs && t.procs[0] == Ingested(d.cid, None)
      && 1 in t.procs && t.procs[1] == Loaded(saved)
      && saved.cid == d.cid && saved.rkey == s.row.rkey
  {
  }

  lemma PublishThenMark(s: System, row: Row, cid: Cid, a: Attempt, at: int, touch: bool, setting: Setting)
    requires 0 in s.procs && s.procs[0] == Ingested(Some(cid), None) && 1 in s.procs && s.procs[1] == Loaded(row)
    requires NonEmpty(row.rkey) && a.replyLost.None? && ShouldPublish(row)
    requires Stores(row, s.repo, setting.did, a, setting.config) && Request(row, a, setting.config) != Ok(cid.record)
    ensures var after :=
        Apply(Apply(Apply(s, Put(1, a), setting), Mark(1, at, touch), setting), IngestMark(0, at, touch), setting);
      && after.row.cid == Some(cid) && !Coherent(after.row)
      && RecordKey(setting.did, row.rkey.value) in after.repo
      && after.row.record == Some(after.repo[RecordKey(setting.did, row.rkey.value)])
  {
    PutOfLoaded(s, 1, a, setting);
    MarkBetween(Apply(s, Put(1, a), setting), 0, cid, 1, at, touch, setting);
  }

  /** A stored put is answered with its receipt unless the reply is lost. */
  lemma StoredReply(row: Row, repo: Repo, did: string, a: Attempt, config: Config)
    requires Stores(row, repo, did, a, config)
    ensures var record, key := Request(row, a, config).value, RecordKey(did, RkeyOf(row, a.freshTid));
      var reply := CreateEventRecord(row, repo, did, a, config);
      && RepoAfter(row, repo, did, a, config) == repo[key := record]
      && (a.replyLost.None? ==> reply == Ok(Receipt(key.rkey, CidOf(record), record)))
      && (a.replyLost.Some? ==> reply.Throws?)
  {
  }

  lemma AfterPutEffect(s: System, p: nat, row: Row, reply: Outcome<Receipt, JsError>)
    ensures var procs := AfterPut(s, p, row, reply);
      && procs - {p} == s.procs - {p}
      && (reply.Ok? ==> procs == s.procs[p := Accepted(reply.value, row)])
      && (reply.Throws? && p in procs ==> procs[p].Rejected?)
  {
  }

  lemma PutOfLoaded(s: System, p: nat, a: Attempt, setting: Setting)
    requires CanPut(s, p) && Stores(s.procs[p].snapshot, s.repo, setting.did, a, setting.config)
    ensures var row := s.procs[p].snapshot; var put := Apply(s, Put(p, a), setting);
      var record := Request(row, a, setting.config).value;
      && put.row == s.row && put.clock == s.clock && put.procs - {p} == s.procs - {p}
      && put.repo == s.repo[KeyOf(row, a, setting) := record]
      && (a.replyLost.None? ==>
            put.procs == s.procs[p := Accepted(Receipt(RkeyOf(row, a.freshTid), CidOf(record), record), row)])
      && (a.replyLost.Some? && p in put.procs ==> put.procs[p].Rejected?)
  {
    var row := s.procs[p].snapshot;
    var reply := CreateEventRecord(row, s.repo, setting.did, a, setting.config);
    StoredReply(row, s.repo, setting.did, a, setting.config);
    AfterPutEffect(s, p, row, reply);
  }

  /** A publisher's mark between an ingest's save and its update: the update then names another record than
      the one stored. */
  lemma MarkBetween(s: System, p: nat, cid: Cid, q: nat, at: int, touch: bool, setting: Setting)
    requires p != q && p in s.procs && s.procs[p] == Ingested(Some(cid), None)
    requires CanMark(s, q) && s.procs[q].Accepted? && s.procs[q].receipt.record != cid.record
    ensures var after := Apply(Apply(s, Mark(q, at, touch), setting), IngestMark(p, at, touch), setting);
      after.row.cid == Some(cid) && after.row.record == Some(s.procs[q].receipt.record) && !Coherent(after.row)
        && after.repo == s.repo
  {
    var marked := Apply(s, Mark(q, at, touch), setting);
    assert marked.row.record == Some(s.procs[q].receipt.record) && marked.procs[p] == Ingested(Some(cid), None);
    assert cid == CidOf(cid.record);
  }
}

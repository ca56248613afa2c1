/**
 What runs of the publishing protocol keep: foreign data under accepted swaps, the event's record
 key, a divergence from the PDS until the firehose repairs it, and the end of retries.
 */
module PublishSafety {
  import opened Basics
  import opened RecordMerge
  import opened EventRecord
  import opened RecordProperties
  import opened RecordReading
  import opened Publisher
  import SyncScheduler
  import opened PublishProtocol

  // ---------------------------------------------------------------- accepted swaps

  /** The step makes the PDS accept a put that carried `swapRecord`. */
  predicate AcceptsSwap(s: System, step: Step, setting: Setting) {
    && step.Put? && CanPut(s, step.p) && s.procs[step.p].snapshot.cid.Some?
    && Stores(s.procs[step.p].snapshot, s.repo, setting.did, step.a, setting.config)
  }

  /** A process that loads a published row has its put accepted exactly when the row is one to publish, nothing
      stops it on the way, and the PDS still holds the stored record. */
  lemma SwapAcceptedExactly(s: System, p: nat, a: Attempt, setting: Setting)
    requires CoherentSystem(s) && s.row.cid.Some?
    ensures var key := KeyOf(s.row, a, setting);
      AcceptsSwap(Apply(s, Load(p), setting), Put(p, a), setting)
      <==> Publishes(s.row) && Sendable(s.row, a, setting.config) && key in s.repo && Some(s.repo[key]) == s.row.record
  {
    var loaded := Apply(s, Load(p), setting);
    assert loaded.procs[p] == Loaded(s.row) && loaded.repo == s.repo;
    assert Coherent(s.row);
  }

  /** What the PDS stores has the foreign part of the merge base. */
  lemma StoredKeepsView(row: Row, repo: Repo, did: string, a: Attempt, config: Config)
    requires Stores(row, repo, did, a, config)
    ensures ViewOf(RepoAfter(row, repo, did, a, config)[RecordKey(did, RkeyOf(row, a.freshTid))], config.sourceId)
         == ViewOf(Base(row), config.sourceId)
  {
    StoredIsPublished(row, repo, did, a, config);
    PublishKeepsForeign(row.content, Base(row), a.image, config);
  }

  lemma StoredIsPublished(row: Row, repo: Repo, did: string, a: Attempt, config: Config)
    requires Stores(row, repo, did, a, config)
    ensures PublishedRecord(row.content, Base(row), a.image, config)
         == Ok(RepoAfter(row, repo, did, a, config)[RecordKey(did, RkeyOf(row, a.freshTid))])
  {
  }

  /** The accepted put leaves the replaced record's foreign part as it was. */
  predicate Lossless(s: System, step: Step, setting: Setting)
    requires AcceptsSwap(s, step, setting)
  {
    var key := KeyOf(s.procs[step.p].snapshot, step.a, setting);
    var after := Apply(s, step, setting).repo;
    && key in s.repo && key in after
    && ViewOf(after[key], setting.config.sourceId) == ViewOf(s.repo[key], setting.config.sourceId)
  }

  /** Any accepted swap replaced the record its CID names, and no other, and lost nothing foreign exactly when
      the stored record it merged into agrees with that record on the foreign part. */
  lemma SwapLosslessExactly(s: System, step: Step, setting: Setting)
    requires AcceptsSwap(s, step, setting)
    ensures var row := s.procs[step.p].snapshot; var key := KeyOf(row, step.a, setting);
      var after := Apply(s, step, setting).repo;
      && key in s.repo && row.cid == Some(CidOf(s.repo[key]))
      && (Lossless(s, step, setting) <==> Agrees(row, setting.config.sourceId))
      && (forall other :: other in s.repo && other != key ==> other in after && after[other] == s.repo[other])
  {
    var row := s.procs[step.p].snapshot;
    var replaced := s.repo[KeyOf(row, step.a, setting)];
    StoredIsPublished(row, s.repo, setting.did, step.a, setting.config);
    OverwriteIsLosslessExactlyWhenBaseAgrees(row.content, Base(row), step.a.image, setting.config, replaced);
  }

  /** From coherent columns, an accepted swap merges into exactly the record it replaces. */
  lemma AcceptedSwapKeepsForeign(s: System, step: Step, setting: Setting)
    requires CoherentSystem(s) && AcceptsSwap(s, step, setting)
    ensures var row := s.procs[step.p].snapshot; var key := KeyOf(row, step.a, setting);
      key in s.repo && Base(row) == s.repo[key] && Lossless(s, step, setting)
  {
    SwapLosslessExactly(s, step, setting);
    assert CoherentProc(s.procs[step.p]);
  }

  /** Rows published before the record column existed hold a CID without its record: exactly a record with
      nothing foreign survives their next publish. */
  lemma LegacyRowLosesForeignExactly(row: Row, repo: Repo, did: string, a: Attempt, config: Config)
    requires row.cid.Some? && row.record.None? && Stores(row, repo, did, a, config)
    ensures var key := RecordKey(did, RkeyOf(row, a.freshTid));
      && key in repo
      && (ViewOf(RepoAfter(row, repo, did, a, config)[key], config.sourceId) == ViewOf(repo[key], config.sourceId)
          <==> ViewOf(repo[key], config.sourceId) == ForeignView(map[], [], [], []))
  {
    StoredKeepsView(row, repo, did, a, config);
    assert ViewOf(map[], config.sourceId) == ForeignView(map[], [], [], []);
  }

  // ---------------------------------------------------------------- no lost update

  /** The stored record and the record that the CID names have the same foreign part. */
  predicate Agrees(row: Row, id: string) {
    row.cid.Some? ==> ViewOf(Base(row), id) == ViewOf(row.cid.value.record, id)
  }

  predicate AgreeingProc(proc: Proc, id: string) {
    && (proc.Loaded? ==> Agrees(proc.snapshot, id))
    && (proc.Accepted? ==>
          && proc.receipt.cid == CidOf(proc.receipt.record) && Agrees(proc.snapshot, id)
          && ViewOf(proc.receipt.record, id) == ViewOf(Base(proc.snapshot), id))
  }

  predicate AgreeingSystem(s: System, id: string) {
    Agrees(s.row, id) && forall p :: p in s.procs ==> AgreeingProc(s.procs[p], id)
  }

  /** What a save needs to keep the agreement: a new CID names a record with the foreign part of the stored
      one, and a record without a CID has the foreign part of the one before it. */
  predicate SaveAgrees(row: Row, d: Delivery, id: string) {
    || row.cid.None? || IsEcho(row, d)
    || (var stored := if d.rawRecord.Some? then d.rawRecord.value else Base(row);
        ViewOf(stored, id) == ViewOf(if d.cid.Some? then d.cid.value.record else Base(row), id))
  }

  predicate UpdateAgrees(row: Row, cid: Option<Cid>, id: string) {
    cid.Some? ==> ViewOf(Base(row), id) == ViewOf(cid.value.record, id)
  }

  /** The step's own condition for agreement; only the two ingest steps have one. */
  predicate KeepsView(s: System, step: Step, id: string) {
    && (step.IngestSave? && IsLoaded(s, step.p) ==> SaveAgrees(s.procs[step.p].snapshot, step.delivery, id))
    && (step.IngestMark? && step.p in s.procs && s.procs[step.p].Ingested? ==>
          UpdateAgrees(s.row, s.procs[step.p].cid, id))
  }

  lemma IngestAgreesExactly(row: Row, d: Delivery, now: int, id: string)
    requires Agrees(row, id)
    ensures Agrees(IngestRow(row, d, now), id) <==> SaveAgrees(row, d, id)
  {
  }

  /** A save touches the row and the process only. */
  lemma SaveEffect(s: System, p: nat, d: Delivery, at: int, setting: Setting)
    requires IsLoaded(s, p)
    ensures var t := Apply(s, IngestSave(p, d, at), setting); var row := s.procs[p].snapshot;
      && (if IsEcho(row, d) then t.row == s.row else t.row == IngestRow(row, d, SyncScheduler.Later(s.clock, at)))
      && t.procs - {p} == s.procs - {p} && (p in t.procs ==> t.procs[p].Ingested?)
  {
  }

  lemma AgreeingSave(s: System, p: nat, d: Delivery, at: int, setting: Setting)
    requires AgreeingSystem(s, setting.config.sourceId) && IsLoaded(s, p)
    ensures AgreeingSystem(Apply(s, IngestSave(p, d, at), setting), setting.config.sourceId)
       <==> SaveAgrees(s.procs[p].snapshot, d, setting.config.sourceId)
  {
    var id, row, t := setting.config.sourceId, s.procs[p].snapshot, Apply(s, IngestSave(p, d, at), setting);
    assert AgreeingProc(s.procs[p], id);
    SaveEffect(s, p, d, at, setting);
    OtherProcs(s.procs, t.procs, p);
    IngestAgreesExactly(row, d, SyncScheduler.Later(s.clock, at), id);
    assert AgreeingSystem(t, id) <==> Agrees(t.row, id);
  }

  lemma MarkAgreesExactly(row: Row, cid: Option<Cid>, uri: Option<string>, now: int, touch: bool, id: string)
    requires Agrees(row, id)
    ensures Agrees(MarkIngested(row, cid, uri, now, touch), id) <==> UpdateAgrees(row, cid, id)
  {
  }

  lemma IngestMarkEffect(s: System, p: nat, at: int, touch: bool, setting: Setting)
    requires p in s.procs && s.procs[p].Ingested?
    ensures var t := Apply(s, IngestMark(p, at, touch), setting);
      && t.row == MarkIngested(s.row, s.procs[p].cid, s.procs[p].uri, SyncScheduler.Later(s.clock, at), touch)
      && t.procs - {p} == s.procs - {p} && (p in t.procs ==> t.procs[p].Ingested?)
  {
  }

  lemma AgreeingMark(s: System, p: nat, at: int, touch: bool, setting: Setting)
    requires AgreeingSystem(s, setting.config.sourceId) && p in s.procs && s.procs[p].Ingested?
    ensures AgreeingSystem(Apply(s, IngestMark(p, at, touch), setting), setting.config.sourceId)
       <==> UpdateAgrees(s.row, s.procs[p].cid, setting.config.sourceId)
  {
    var id, t := setting.config.sourceId, Apply(s, IngestMark(p, at, touch), setting);
    IngestMarkEffect(s, p, at, touch, setting);
    OtherProcs(s.procs, t.procs, p);
    MarkAgreesExactly(s.row, s.procs[p].cid, s.procs[p].uri, SyncScheduler.Later(s.clock, at), touch, id);
    assert AgreeingSystem(t, id) <==> Agrees(t.row, id);
  }

  /** The record a put sends has the foreign part of its merge base. */
  lemma RequestKeepsView(row: Row, a: Attempt, config: Config)
    requires Request(row, a, config).Ok?
    ensures ViewOf(Request(row, a, config).value, config.sourceId) == ViewOf(Base(row), config.sourceId)
  {
    PublishKeepsForeign(row.content, Base(row), a.image, config);
  }

  lemma AgreeingPut(s: System, p: nat, a: Attempt, setting: Setting)
    requires AgreeingSystem(s, setting.config.sourceId) && CanPut(s, p)
    ensures AgreeingSystem(Apply(s, Put(p, a), setting), setting.config.sourceId)
  {
    var t := Apply(s, Put(p, a), setting);
    PutEffect(s, p, a, setting);
    OtherProcs(s.procs, t.procs, p);
    assert AgreeingProc(s.procs[p], setting.config.sourceId);
    if Request(s.procs[p].snapshot, a, setting.config).Ok? {
      RequestKeepsView(s.procs[p].snapshot, a, setting.config);
    }
  }

  /** A record saved without its CID still has the foreign part of the record that the CID names. */
  lemma AgreeingRecord(s: System, p: nat, at: int, setting: Setting)
    requires AgreeingSystem(s, setting.config.sourceId) && CanSaveRecord(s, p)
    ensures AgreeingSystem(Apply(s, SaveRecord(p, at), setting), setting.config.sourceId)
  {
    assert AgreeingProc(s.procs[p], setting.config.sourceId);
    assert Agrees(RecordRow(s.procs[p], SyncScheduler.Later(s.clock, at)), setting.config.sourceId);
  }

  lemma AgreeingOthers(s: System, step: Step, setting: Setting)
    requires AgreeingSystem(s, setting.config.sourceId)
    requires step.Mark? || step.SaveEdit? || step.SaveKey?
    ensures AgreeingSystem(Apply(s, step, setting), setting.config.sourceId)
  {
    assert step.p in s.procs ==> AgreeingProc(s.procs[step.p], setting.config.sourceId);
  }

  lemma AgreeStepExactly(s: System, step: Step, setting: Setting)
    requires AgreeingSystem(s, setting.config.sourceId)
    ensures AgreeingSystem(Apply(s, step, setting), setting.config.sourceId)
      <==> KeepsView(s, step, setting.config.sourceId)
  {
    match step
    case Put(p, a) =>
      if CanPut(s, p) {
        AgreeingPut(s, p, a, setting);
      }
    case IngestSave(p, d, at) =>
      if IsLoaded(s, p) {
        AgreeingSave(s, p, d, at, setting);
      }
    case IngestMark(p, at, touch) =>
      if p in s.procs && s.procs[p].Ingested? {
        AgreeingMark(s, p, at, touch, setting);
      }
    case SaveRecord(p, at) =>
      if CanSaveRecord(s, p) {
        AgreeingRecord(s, p, at, setting);
      }
    case Load(_) =>
    case Crash(_) =>
    case ForeignWrite(_, _) =>
    case _ =>
      AgreeingOthers(s, step, setting);
  }

  /** In every state of the run the stored records agree with those the CIDs name. */
  predicate StaysAgreeing(s: System, steps: seq<Step>, setting: Setting) {
    && AgreeingSystem(Run(s, steps, setting), setting.config.sourceId)
    && (steps == [] || StaysAgreeing(s, steps[..|steps| - 1], setting))
  }

  /** Every ingest step of the run meets its condition. */
  predicate KeepsViewThroughout(s: System, steps: seq<Step>, setting: Setting) {
    steps == []
    || (var init, last := steps[..|steps| - 1], steps[|steps| - 1];
        KeepsViewThroughout(s, init, setting) && KeepsView(Run(s, init, setting), last, setting.config.sourceId))
  }

  /** Edits, publishes, crashes, foreign writes and records saved without their CID never part the foreign data
      of a stored record from that of the record its CID names; ingests keep them together exactly when
      each of their steps does. */
  lemma {:induction false} AgreeRunExactly(s: System, steps: seq<Step>, setting: Setting)
    requires AgreeingSystem(s, setting.config.sourceId)
    ensures StaysAgreeing(s, steps, setting) <==> KeepsViewThroughout(s, steps, setting)
  {
    if steps != [] {
      var init := steps[..|steps| - 1];
      AgreeRunExactly(s, init, setting);
      if AgreeingSystem(Run(s, init, setting), setting.config.sourceId) {
        AgreeStepExactly(Run(s, init, setting), steps[|steps| - 1], setting);
      }
    }
  }

  /** Undisturbed ingests of faithful deliveries meet the conditions, whatever else runs. */
  lemma {:induction false} UndisturbedIngestsKeepView(s: System, steps: seq<Step>, setting: Setting)
    requires AgreeingSystem(s, setting.config.sourceId) && Undisturbed(s, steps, setting)
    ensures KeepsViewThroughout(s, steps, setting)
  {
    if steps != [] {
      var init, last := steps[..|steps| - 1], steps[|steps| - 1];
      UndisturbedIngestsKeepView(s, init, setting);
      LastIngestOnTime(s, init, setting);
      if last.IngestSave? {
        assert last.delivery.cid.Some? ==> last.delivery.cid.value == CidOf(last.delivery.rawRecord.value);
      }
    }
  }

  /** No lost update: in every run whose ingests keep the agreement, whatever other apps had on the record
      survives every accepted swap, even one on a row whose CID is not that of its record. */
  lemma NoLostUpdate(s: System, steps: seq<Step>, step: Step, setting: Setting)
    requires AgreeingSystem(s, setting.config.sourceId) && KeepsViewThroughout(s, steps, setting)
    requires AcceptsSwap(Run(s, steps, setting), step, setting)
    ensures var before := Run(s, steps, setting); var key := KeyOf(before.procs[step.p].snapshot, step.a, setting);
      && Lossless(before, step, setting)
      && SameForOthers(Apply(before, step, setting).repo[key], before.repo[key], setting.config.sourceId)
  {
    var before := Run(s, steps, setting);
    var key := KeyOf(before.procs[step.p].snapshot, step.a, setting);
    AgreeRunExactly(s, steps, setting);
    SwapLosslessExactly(before, step, setting);
    assert AgreeingProc(before.procs[step.p], setting.config.sourceId);
    SameViewIsSameForOthers(Apply(before, step, setting).repo[key], before.repo[key], setting.config.sourceId);
  }

  // ---------------------------------------------------------------- events that are not public

  /** A put that changes the PDS comes from a copy that is public, published or cancelled, and native, or from
      one that has a Bluesky source with a record key. */
  lemma PutsAreEligible(s: System, p: nat, a: Attempt, setting: Setting)
    requires p in s.procs && s.procs[p].Loaded? && Apply(s, Put(p, a), setting).repo != s.repo
    ensures var row := s.procs[p].snapshot;
      || (row.sourceType == Some("bluesky") && row.sourceRkey.Some? && row.sourceRkey != Some(""))
      || (row.visibility == Public && row.sourceType == None
          && (row.content.status == Published || row.content.status == Cancelled))
  {
  }

  predicate HiddenRow(row: Row) {
    row.visibility != Public && row.sourceType != Some("bluesky")
  }

  predicate HiddenProc(proc: Proc) {
    && (proc.Loaded? ==> HiddenRow(proc.snapshot))
    && (proc.Accepted? ==> proc.snapshot.sourceType != Some("bluesky"))
  }

  /** Neither the row nor any copy of it is public or has a Bluesky source. */
  predicate Hidden(s: System) {
    HiddenRow(s.row) && forall p :: p in s.procs ==> HiddenProc(s.procs[p])
  }

  /** The step does not make the event public nor link it to Bluesky. */
  predicate KeepsHidden(step: Step) {
    && (step.SaveEdit? ==>
          step.edit.visibility != Public && (step.edit.source.Some? ==> step.edit.source.value.kind != "bluesky"))
    && (step.IngestSave? ==> step.delivery.visibility != Some(Public))
    && !step.ForeignWrite?
  }

  lemma HiddenStep(s: System, step: Step, setting: Setting)
    requires Hidden(s) && KeepsHidden(step)
    ensures Hidden(Apply(s, step, setting)) && Apply(s, step, setting).repo == s.repo
  {
    if step.Put? && step.p in s.procs {
      assert HiddenProc(s.procs[step.p]);
    } else if !step.Load? && step.p in s.procs {
      assert HiddenProc(s.procs[step.p]);
    }
  }

  /** While an event is not public, no run of the service's steps stores a record for it, and none takes away
      the record that it published when it was public. */
  lemma {:induction false} HiddenEventsAreLeftAlone(s: System, steps: seq<Step>, setting: Setting)
    requires Hidden(s) && forall k :: 0 <= k < |steps| ==> KeepsHidden(steps[k])
    ensures Hidden(Run(s, steps, setting)) && Run(s, steps, setting).repo == s.repo
  {
    if steps != [] {
      HiddenEventsAreLeftAlone(s, steps[..|steps| - 1], setting);
      HiddenStep(Run(s, steps[..|steps| - 1], setting), steps[|steps| - 1], setting);
    }
  }

  /** A copy that was loaded while the event was public is still published after the edit that ended that. */
  lemma StaleCopyIsPublished(s: System, e: Edit, a: Attempt, at: int, setting: Setting)
    requires s.row.visibility == Public && s.row.content.status == Published && s.row.sourceType == None
    requires e.visibility != Public && e.source == None && Stores(s.row, s.repo, setting.did, a, setting.config)
    ensures var after := Run(s, [Load(0), Load(1), SaveEdit(0, e, at), Put(1, a)], setting);
      && after.row.visibility != Public
      && KeyOf(s.row, a, setting) in after.repo
      && Ok(after.repo[KeyOf(s.row, a, setting)])
           == PublishedRecord(s.row.content, Base(s.row), a.image, setting.config)
  {
    var steps := [Load(0), Load(1), SaveEdit(0, e, at), Put(1, a)];
    FourSteps(s, steps, 0, setting);
    assert steps[..4] == steps && steps[..0] == [];
    PublishedBesideEdit(s, e, a, at, setting);
  }

  lemma PublishedBesideEdit(s: System, e: Edit, a: Attempt, at: int, setting: Setting)
    requires ShouldPublish(s.row) && e.visibility != Public && Stores(s.row, s.repo, setting.did, a, setting.config)
    ensures var t := Apply(Apply(Apply(Apply(s, Load(0), setting), Load(1), setting), SaveEdit(0, e, at), setting),
                           Put(1, a), setting);
      && t.row.visibility != Public && KeyOf(s.row, a, setting) in t.repo
      && Ok(t.repo[KeyOf(s.row, a, setting)]) == PublishedRecord(s.row.content, Base(s.row), a.image, setting.config)
  {
    EditBesideCopy(s, e, at, setting);
    var edited := Apply(Apply(Apply(s, Load(0), setting), Load(1), setting), SaveEdit(0, e, at), setting);
    PutOfCopy(edited, s.row, a, setting);
  }

  lemma PutOfCopy(s: System, row: Row, a: Attempt, setting: Setting)
    requires 1 in s.procs && s.procs[1] == Loaded(row) && Publishes(row)
    requires Stores(row, s.repo, setting.did, a, setting.config)
    ensures var t := Apply(s, Put(1, a), setting);
      && t.row == s.row && KeyOf(row, a, setting) in t.repo
      && Ok(t.repo[KeyOf(row, a, setting)]) == PublishedRecord(row.content, Base(row), a.image, setting.config)
  {
    PutOfLoaded(s, 1, a, setting);
    SendableExactly(row, a, setting.config);
  }

  lemma EditBesideCopy(s: System, e: Edit, at: int, setting: Setting)
    ensures var t := Apply(Apply(Apply(s, Load(0), setting), Load(1), setting), SaveEdit(0, e, at), setting);
      && t.row == EditedRow(s.row, e, SyncScheduler.Later(s.clock, at)) && t.repo == s.repo
      && 1 in t.procs && t.procs[1] == Loaded(s.row)
  {
    TwoLoads(s, setting);
  }

  // ---------------------------------------------------------------- the record key

  predicate KeepsKey(proc: Proc, rkey: string) {
    && (proc.Loaded? ==> proc.snapshot.rkey == Some(rkey))
    && (proc.Accepted? ==>
          if ViaBluesky(proc.snapshot) then proc.snapshot.rkey == Some(rkey) else proc.receipt.rkey == rkey)
  }

  /** Everyone agrees on the record key `rkey`. */
  predicate SameKey(s: System, rkey: string) {
    s.row.rkey == Some(rkey) && forall p :: p in s.procs ==> KeepsKey(s.procs[p], rkey)
  }

  lemma SameKeyStep(s: System, step: Step, rkey: string, setting: Setting)
    requires rkey != "" && SameKey(s, rkey)
    ensures SameKey(Apply(s, step, setting), rkey)
    ensures step.Put? && CanPut(s, step.p) ==> KeyOf(s.procs[step.p].snapshot, step.a, setting).rkey == rkey
  {
    if step.Put? && CanPut(s, step.p) {
      assert KeepsKey(s.procs[step.p], rkey);
      PutEffect(s, step.p, step.a, setting);
      OtherProcs(s.procs, Apply(s, step, setting).procs, step.p);
    } else if !step.Load? && !step.ForeignWrite? && step.p in s.procs {
      assert KeepsKey(s.procs[step.p], rkey);
    }
  }

  /** Once nobody works on a copy with another record key, all puts of the event go to this one, in every run. */
  lemma {:induction false} OneRecordKey(s: System, steps: seq<Step>, rkey: string, setting: Setting)
    requires rkey != "" && SameKey(s, rkey)
    requires forall k :: 0 <= k < |steps| ==> (steps[k].ForeignWrite? ==> steps[k].key == RecordKey(setting.did, rkey))
    ensures SameKey(Run(s, steps, setting), rkey)
    ensures forall key :: key != RecordKey(setting.did, rkey) ==>
      (key in Run(s, steps, setting).repo <==> key in s.repo)
      && (key in s.repo ==> Run(s, steps, setting).repo[key] == s.repo[key])
  {
    if steps != [] {
      var before := Run(s, steps[..|steps| - 1], setting);
      OneRecordKey(s, steps[..|steps| - 1], rkey, setting);
      SameKeyStep(before, steps[|steps| - 1], rkey, setting);
    }
  }

  /** After `steps` the process `p` asks the PDS for another record key. */
  predicate AsksElsewhere(s: System, steps: seq<Step>, p: nat, a: Attempt, rkey: string, setting: Setting) {
    var after := Run(s, steps, setting);
    CanPut(after, p) && KeyOf(after.procs[p].snapshot, a, setting).rkey != rkey
  }

  /** Some run ends with a put of this event under another record key. */
  ghost predicate CanSplit(s: System, rkey: string, setting: Setting) {
    exists steps, p, a :: AsksElsewhere(s, steps, p, a, rkey, setting)
  }

  /** The event keeps to one record key in every run exactly when no copy or receipt with another key is out. */
  lemma OneKeyExactly(s: System, rkey: string, a: Attempt, setting: Setting)
    requires rkey != "" && s.row.rkey == Some(rkey)
    ensures CanSplit(s, rkey, setting) <==> !SameKey(s, rkey)
  {
    if SameKey(s, rkey) {
      forall steps, p, b
        ensures !AsksElsewhere(s, steps, p, b, rkey, setting)
      {
        StaysSameKey(s, steps, rkey, setting);
        if CanPut(Run(s, steps, setting), p) {
          SameKeyStep(Run(s, steps, setting), Put(p, b), rkey, setting);
        }
      }
    } else {
      var p :| p in s.procs && !KeepsKey(s.procs[p], rkey);
      StrayCopySplits(s, p, rkey, a, setting);
    }
  }

  lemma {:induction false} StaysSameKey(s: System, steps: seq<Step>, rkey: string, setting: Setting)
    requires rkey != "" && SameKey(s, rkey)
    ensures SameKey(Run(s, steps, setting), rkey)
  {
    if steps != [] {
      StaysSameKey(s, steps[..|steps| - 1], rkey, setting);
      SameKeyStep(Run(s, steps[..|steps| - 1], setting), steps[|steps| - 1], rkey, setting);
    }
  }

  /** What a process with another key can do: write that key to the row. */
  function Stray(proc: Proc, p: nat): (step: Step) {
    if !proc.Accepted? then Load(p)
    else if ViaBluesky(proc.snapshot) then SaveRecord(p, 0)
    else Mark(p, 0, false)
  }

  /** An edit that sends the event to the PDS under the key `rkey`, unless it has one. */
  function Redirect(row: Row, rkey: string): Edit {
    Edit(row.content, row.visibility, Some(Source("bluesky", Some(rkey))))
  }

  /** From a loaded copy with another key: one edit, and the put asks for another key. */
  lemma LoadedCopySplits(s: System, p: nat, rkey: string, a: Attempt, setting: Setting)
    requires rkey != "" && IsLoaded(s, p) && s.procs[p].snapshot.rkey != Some(rkey)
    ensures var t := Apply(s, SaveEdit(p, Redirect(s.procs[p].snapshot, rkey + "2"), 0), setting);
      CanPut(t, p) && KeyOf(t.procs[p].snapshot, a, setting).rkey != rkey
  {
    assert rkey + "2" != rkey;
  }

  lemma StrayCopySplits(s: System, p: nat, rkey: string, a: Attempt, setting: Setting)
    requires rkey != "" && p in s.procs && !KeepsKey(s.procs[p], rkey)
    ensures CanSplit(s, rkey, setting)
  {
    if s.procs[p].Loaded? {
      var steps := [SaveEdit(p, Redirect(s.procs[p].snapshot, rkey + "2"), 0)];
      LoadedCopySplits(s, p, rkey, a, setting);
      assert steps[..0] == [] && Run(s, steps, setting) == Apply(s, steps[0], setting);
      assert AsksElsewhere(s, steps, p, a, rkey, setting);
    } else {
      var first := Stray(s.procs[p], p);
      var written := Apply(s, first, setting);
      assert written.row.rkey != Some(rkey);
      var loaded := Apply(written, Load(p), setting);
      var edit := SaveEdit(p, Redirect(written.row, rkey + "2"), 0);
      LoadedCopySplits(loaded, p, rkey, a, setting);
      var steps := [first, Load(p), edit];
      ThreeSteps(s, first, Load(p), edit, setting);
      assert AsksElsewhere(s, steps, p, a, rkey, setting);
    }
  }

  lemma TwoSteps(s: System, first: Step, second: Step, setting: Setting)
    ensures Run(s, [first, second], setting) == Apply(Apply(s, first, setting), second, setting)
  {
    assert [first, second][..1] == [first] && [first][..0] == [];
    assert Run(s, [first], setting) == Apply(s, first, setting);
  }

  lemma ThreeSteps(s: System, first: Step, second: Step, third: Step, setting: Setting)
    ensures Run(s, [first, second, third], setting)
      == Apply(Apply(Apply(s, first, setting), second, setting), third, setting)
  {
    TwoSteps(s, first, second, setting);
    assert [first, second, third][..2] == [first, second];
  }

  // ---------------------------------------------------------------- two records for one event

  /** A row that is about to be published for the first time, with nothing in the way. */
  predicate FirstPublish(row: Row, a: Attempt, setting: Setting) {
    ShouldPublish(row) && row.cid.None? && !NonEmpty(row.rkey) && Sendable(row, a, setting.config)
  }

  lemma SameRequest(row: Row, other: Row, a: Attempt, config: Config)
    requires row.content == other.content && row.record == other.record
    ensures Request(row, a, config) == Request(other, a, config)
  {
  }

  /** The copy is saved with its new key. */
  lemma KeySaved(s: System, p: nat, tid: string, at: int, a: Attempt, setting: Setting)
    requires IsLoaded(s, p) && FirstPublish(s.procs[p].snapshot, a, setting)
    ensures var row, t := s.procs[p].snapshot, Apply(s, SaveKey(p, tid, at), setting);
      var now := SyncScheduler.Later(s.clock, at);
      t == Saved(s, p, row.(rkey := Some(tid), updatedAt := now), now)
  {
  }

  /** Its put is then accepted without a swap. */
  lemma KeyThenPut(s: System, p: nat, tid: string, at: int, a: Attempt, setting: Setting)
    requires tid != "" && a.replyLost.None? && IsLoaded(s, p) && FirstPublish(s.procs[p].snapshot, a, setting)
    ensures var row := s.procs[p].snapshot;
      var t := Apply(Apply(s, SaveKey(p, tid, at), setting), Put(p, a), setting);
      var record := Request(row, a, setting.config).value;
      && t.row.rkey == Some(tid) && t.row.cid.None? && t.repo == s.repo[RecordKey(setting.did, tid) := record]
      && CanMark(t, p) && t.procs[p].Accepted? && t.procs[p].receipt == Receipt(tid, CidOf(record), record)
      && t.procs - {p} == s.procs - {p}
  {
    KeySaved(s, p, tid, at, a, setting);
    var saved := Apply(s, SaveKey(p, tid, at), setting);
    var keyed := saved.procs[p].snapshot;
    SameRequest(s.procs[p].snapshot, keyed, a, setting.config);
    PutOfLoaded(saved, p, a, setting);
    assert saved.procs - {p} == s.procs - {p};
  }

  /** One request publishes the event; the copy that process 1 loaded before still has neither key nor CID. */
  lemma FirstOfTwo(s: System, row: Row, tid: string, a: Attempt, at: int, touch: bool, setting: Setting)
    requires 0 in s.procs && s.procs[0] == Loaded(row) && 1 in s.procs && s.procs[1] == Loaded(row)
    requires tid != "" && a.replyLost.None? && FirstPublish(row, a, setting)
    ensures var t :=
        Apply(Apply(Apply(s, SaveKey(0, tid, at), setting), Put(0, a), setting), Mark(0, at, touch), setting);
      var record := Request(row, a, setting.config).value;
      && t.row.rkey == Some(tid) && t.row.cid == Some(CidOf(record))
      && t.repo == s.repo[RecordKey(setting.did, tid) := record]
      && 1 in t.procs && t.procs[1] == Loaded(row)
  {
    var put := Apply(Apply(s, SaveKey(0, tid, at), setting), Put(0, a), setting);
    KeyThenPut(s, 0, tid, at, a, setting);
    OtherProcs(s.procs, put.procs, 0);
  }

  /** The other request saves that copy, gives it a key of its own and publishes it as a new record. */
  lemma SecondOfTwo(s: System, row: Row, tid: string, a: Attempt, e: Edit, at: int, setting: Setting)
    requires 1 in s.procs && s.procs[1] == Loaded(row) && tid != "" && a.replyLost.None?
    requires FirstPublish(EditedRow(row, e, SyncScheduler.Later(s.clock, at)), a, setting)
    ensures var edited := Apply(s, SaveEdit(1, e, at), setting);
      var t := Apply(Apply(edited, SaveKey(1, tid, at), setting), Put(1, a), setting);
      && t.row.rkey == Some(tid) && t.row.cid.None?
      && t.repo == s.repo[RecordKey(setting.did, tid) :=
           Request(EditedRow(row, e, SyncScheduler.Later(s.clock, at)), a, setting.config).value]
  {
    KeyThenPut(Apply(s, SaveEdit(1, e, at), setting), 1, tid, at, a, setting);
  }

  /**
   Two requests that both loaded the event before its first publish. The second one's save takes the key
   and the CID of the first one's mark away again, so it picks another key and puts without a swap:
   the PDS keeps two records for one event, and the row knows only the second.
   */
  lemma TwoRecordsForOneEvent(
    s: System, first: string, second: string, a: Attempt, b: Attempt, e: Edit, at: int, touch: bool, setting: Setting)
    requires first != "" && second != "" && first != second && a.replyLost.None? && b.replyLost.None?
    requires FirstPublish(s.row, a, setting) && FirstPublish(EditedRow(s.row, e, 0), b, setting)
    ensures var steps := [Load(0), Load(1), SaveKey(0, first, at), Put(0, a), Mark(0, at, touch),
                          SaveEdit(1, e, at), SaveKey(1, second, at), Put(1, b)];
      var marked, after := Run(s, steps[..5], setting), Run(s, steps, setting);
      && marked.row.rkey == Some(first) && marked.row.cid.Some? && !SameKey(marked, first)
      && RecordKey(setting.did, first) in after.repo && RecordKey(setting.did, second) in after.repo
      && after.repo[RecordKey(setting.did, first)] == marked.row.cid.value.record
      && after.row.rkey == Some(second) && after.row.cid.None?
  {
    var steps := [Load(0), Load(1), SaveKey(0, first, at), Put(0, a), Mark(0, at, touch),
                  SaveEdit(1, e, at), SaveKey(1, second, at), Put(1, b)];
    FirstMarked(s, steps, first, a, at, touch, setting);
    SecondPut(s, Run(s, steps[..5], setting), second, b, e, at, setting);
    ThreeMore(s, steps, 5, setting);
  }

  lemma FirstMarked(s: System, steps: seq<Step>, tid: string, a: Attempt, at: int, touch: bool, setting: Setting)
    requires |steps| >= 5 && steps[0] == Load(0) && steps[1] == Load(1)
    requires steps[2] == SaveKey(0, tid, at) && steps[3] == Put(0, a) && steps[4] == Mark(0, at, touch)
    requires tid != "" && a.replyLost.None? && FirstPublish(s.row, a, setting)
    ensures var t := Run(s, steps[..5], setting);
      && t.row.rkey == Some(tid) && t.row.cid.Some? && !SameKey(t, tid)
      && RecordKey(setting.did, tid) in t.repo && t.repo[RecordKey(setting.did, tid)] == t.row.cid.value.record
      && 1 in t.procs && t.procs[1] == Loaded(s.row)
  {
    var loaded := Apply(Apply(s, Load(0), setting), Load(1), setting);
    FiveSteps(s, steps, setting);
    FirstOfTwo(loaded, s.row, tid, a, at, touch, setting);
    assert !KeepsKey(Run(s, steps[..5], setting).procs[1], tid);
  }

  /** An edit's effect on eligibility does not depend on the time. */
  lemma SecondPut(s: System, t: System, tid: string, a: Attempt, e: Edit, at: int, setting: Setting)
    requires 1 in t.procs && t.procs[1] == Loaded(s.row) && tid != "" && a.replyLost.None?
    requires FirstPublish(EditedRow(s.row, e, 0), a, setting)
    ensures var u :=
        Apply(Apply(Apply(t, SaveEdit(1, e, at), setting), SaveKey(1, tid, at), setting), Put(1, a), setting);
      && u.row.rkey == Some(tid) && u.row.cid.None? && RecordKey(setting.did, tid) in u.repo
      && forall key :: key in t.repo && key != RecordKey(setting.did, tid) ==>
           key in u.repo && u.repo[key] == t.repo[key]
  {
    assert FirstPublish(EditedRow(s.row, e, SyncScheduler.Later(t.clock, at)), a, setting);
    SecondOfTwo(t, s.row, tid, a, e, at, setting);
  }

  lemma FiveSteps(s: System, steps: seq<Step>, setting: Setting)
    requires |steps| >= 5
    ensures Run(s, steps[..5], setting)
         == Apply(Apply(Apply(Apply(Apply(s, steps[0], setting), steps[1], setting), steps[2], setting),
                        steps[3], setting), steps[4], setting)
  {
    FourSteps(s, steps, 0, setting);
    NextStep(s, steps, 4, setting);
    assert steps[..0] == [];
  }

  lemma ThreeMore(s: System, steps: seq<Step>, k: nat, setting: Setting)
    requires |steps| == k + 3
    ensures Run(s, steps, setting)
         == Apply(Apply(Apply(Run(s, steps[..k], setting), steps[k], setting),
                        steps[k + 1], setting), steps[k + 2], setting)
  {
    NextStep(s, steps, k, setting);
    NextStep(s, steps, k + 1, setting);
    NextStep(s, steps, k + 2, setting);
    assert steps[..k + 3] == steps;
  }

  // ---------------------------------------------------------------- divergence

  /** The CID is not that of what the PDS has under the record key `rkey`. */
  predicate Outdated(s: System, cid: Option<Cid>, rkey: string, setting: Setting) {
    cid.Some? && !SwapAccepts(s.repo, RecordKey(setting.did, rkey), cid)
  }

  predicate OutdatedProc(s: System, proc: Proc, rkey: string, setting: Setting) {
    !proc.Accepted? && (proc.Loaded? ==> Outdated(s, proc.snapshot.cid, rkey, setting))
  }

  /** Every CID held for the record key `rkey` differs from the CID of what the PDS has there. */
  predicate Diverged(s: System, rkey: string, setting: Setting) {
    && SameKey(s, rkey) && Outdated(s, s.row.cid, rkey, setting)
    && forall p :: p in s.procs ==> OutdatedProc(s, s.procs[p], rkey, setting)
  }

  /** The PDS side and the firehose stay silent. */
  predicate IsLocal(step: Step) {
    !step.ForeignWrite? && !step.IngestSave? && !step.IngestMark?
  }

  predicate LocalOnly(steps: seq<Step>) {
    forall k :: 0 <= k < |steps| ==> IsLocal(steps[k])
  }

  lemma DivergedPut(s: System, p: nat, a: Attempt, rkey: string, setting: Setting)
    requires rkey != "" && Diverged(s, rkey, setting) && CanPut(s, p)
    ensures var t := Apply(s, Put(p, a), setting);
      && t.row == s.row && t.repo == s.repo && t.procs - {p} == s.procs - {p} && (p in t.procs ==> t.procs[p].Rejected?)
  {
    var row := s.procs[p].snapshot;
    assert OutdatedProc(s, s.procs[p], rkey, setting) && KeepsKey(s.procs[p], rkey);
    assert RkeyOf(row, a.freshTid) == rkey;
    assert !Stores(row, s.repo, setting.did, a, setting.config);
  }

  lemma DivergedStep(s: System, step: Step, rkey: string, setting: Setting)
    requires rkey != "" && Diverged(s, rkey, setting) && IsLocal(step)
    ensures Diverged(Apply(s, step, setting), rkey, setting)
    ensures Apply(s, step, setting).repo == s.repo
  {
    SameKeyStep(s, step, rkey, setting);
    if step.Put? && CanPut(s, step.p) {
      DivergedPut(s, step.p, step.a, rkey, setting);
      OtherProcs(s.procs, Apply(s, step, setting).procs, step.p);
    } else if step.p in s.procs {
      assert OutdatedProc(s, s.procs[step.p], rkey, setting);
    }
  }

  /**
   Optimistic concurrency has no local way back: once the PDS record has moved on, no number of
   edits, passes and retries changes it again until the firehose delivers the newer version.
   */
  lemma {:induction false} DivergenceLastsUntilIngest(s: System, steps: seq<Step>, rkey: string, setting: Setting)
    requires rkey != "" && Diverged(s, rkey, setting) && LocalOnly(steps)
    ensures Diverged(Run(s, steps, setting), rkey, setting)
    ensures Run(s, steps, setting).repo == s.repo
  {
    if steps != [] {
      DivergenceLastsUntilIngest(s, steps[..|steps| - 1], rkey, setting);
      DivergedStep(Run(s, steps[..|steps| - 1], setting), steps[|steps| - 1], rkey, setting);
    }
  }

  predicate HoldsCid(proc: Proc, cid: Cid) {
    !proc.Accepted? && (proc.Loaded? ==> proc.snapshot.cid == Some(cid))
  }

  /** The row and all loaded copies hold this CID, and no accepted put waits for its mark. */
  predicate AllHold(s: System, cid: Cid) {
    s.row.cid == Some(cid) && forall p :: p in s.procs ==> HoldsCid(s.procs[p], cid)
  }

  /** While all hold one CID, the event has diverged exactly when the PDS has another record. */
  lemma DivergedExactly(s: System, cid: Cid, record: Record, rkey: string, setting: Setting)
    requires SameKey(s, rkey) && AllHold(s, cid)
    requires RecordKey(setting.did, rkey) in s.repo && s.repo[RecordKey(setting.did, rkey)] == record
    ensures Diverged(s, rkey, setting) <==> record != cid.record
  {
    assert CidOf(record) == cid <==> record == cid.record;
    forall p | p in s.procs && record != cid.record
      ensures OutdatedProc(s, s.procs[p], rkey, setting)
    {
      assert HoldsCid(s.procs[p], cid);
    }
  }

  /** Without `p` everything is as before, except that the PDS has the record `p` put. */
  lemma PutThenCrash(s: System, p: nat, a: Attempt, rkey: string, setting: Setting)
    requires rkey != "" && SameKey(s, rkey) && AcceptsSwap(s, Put(p, a), setting)
    ensures var t := Apply(Apply(s, Put(p, a), setting), Crash(p), setting);
      && t.row == s.row && t.procs == s.procs - {p}
      && t.repo == s.repo[RecordKey(setting.did, rkey) := Request(s.procs[p].snapshot, a, setting.config).value]
  {
    assert KeepsKey(s.procs[p], rkey);
    PutOfLoaded(s, p, a, setting);
    assert (Apply(s, Put(p, a), setting).procs - {p}) == s.procs - {p};
  }

  /** A crash between an accepted put and its mark, or the loss of the PDS's reply, diverges the event exactly
      when the put changed the record, whatever other processes work on the same version. */
  lemma CrashAfterPutDiverges(s: System, p: nat, a: Attempt, cid: Cid, rkey: string, setting: Setting)
    requires rkey != "" && SameKey(s, rkey) && CoherentSystem(s) && AllHold(s, cid)
    requires AcceptsSwap(s, Put(p, a), setting)
    ensures var row := s.procs[p].snapshot; var put := Apply(s, Put(p, a), setting);
      var changed := Request(row, a, setting.config) != Ok(Base(row));
      && (Diverged(Apply(put, Crash(p), setting), rkey, setting) <==> changed)
      && (a.replyLost.Some? ==> (Diverged(put, rkey, setting) <==> changed))
  {
    var put := Apply(s, Put(p, a), setting);
    var crashed := Apply(put, Crash(p), setting);
    var record := Request(s.procs[p].snapshot, a, setting.config).value;
    assert CoherentProc(s.procs[p]) && HoldsCid(s.procs[p], cid) && KeepsKey(s.procs[p], rkey);
    PutThenCrash(s, p, a, rkey, setting);
    DivergedExactly(crashed, cid, record, rkey, setting);
    if a.replyLost.Some? {
      LostReply(s, p, a, cid, rkey, setting);
      DivergedExactly(put, cid, record, rkey, setting);
    }
  }

  /** A lost reply leaves the process without a receipt. */
  lemma LostReply(s: System, p: nat, a: Attempt, cid: Cid, rkey: string, setting: Setting)
    requires rkey != "" && SameKey(s, rkey) && AllHold(s, cid)
    requires AcceptsSwap(s, Put(p, a), setting) && a.replyLost.Some?
    ensures var put := Apply(s, Put(p, a), setting);
      && SameKey(put, rkey) && AllHold(put, cid)
      && put.repo == s.repo[RecordKey(setting.did, rkey) := Request(s.procs[p].snapshot, a, setting.config).value]
  {
    assert KeepsKey(s.procs[p], rkey);
    PutOfLoaded(s, p, a, setting);
    OtherProcs(s.procs, Apply(s, Put(p, a), setting).procs, p);
    SameKeyStep(s, Put(p, a), rkey, setting);
  }

  /**
   No ingest is needed to part the CID from its record: an edit that gives a published event a Bluesky
   source makes the update handler put the record itself, and it saves the record alone. Exactly when the
   put changed the record, the row then holds the old CID beside the new record, and every later put
   of the event is rejected until the firehose delivers.
   */
  lemma RecordSaveDiverges(s: System, p: nat, e: Edit, a: Attempt, at: int, cid: Cid, rkey: string, setting: Setting)
    requires rkey != "" && SameKey(s, rkey) && Coherent(s.row) && AllHold(s, cid) && a.replyLost.None?
    requires var edited := EditedRow(s.row, e, SyncScheduler.Later(s.clock, at));
      ViaBluesky(edited) && Stores(edited, s.repo, setting.did, a, setting.config)
    ensures var edited := EditedRow(s.row, e, SyncScheduler.Later(s.clock, at));
      var changed := Request(edited, a, setting.config) != Ok(Base(s.row));
      var after := Run(s, [Load(p), SaveEdit(p, e, at), Put(p, a), SaveRecord(p, at)], setting);
      && RecordKey(setting.did, rkey) in after.repo
      && after.row.record == Some(after.repo[RecordKey(setting.did, rkey)]) && after.row.cid == s.row.cid
      && (Coherent(after.row) <==> !changed) && (Diverged(after, rkey, setting) <==> changed)
  {
    var steps := [Load(p), SaveEdit(p, e, at), Put(p, a), SaveRecord(p, at)];
    FourSteps(s, steps, 0, setting);
    assert steps[..4] == steps && steps[..0] == [];
    var edited := EditedRow(s.row, e, SyncScheduler.Later(s.clock, at));
    var saved := Apply(Apply(s, steps[0], setting), steps[1], setting);
    EditOfLoaded(s, p, e, at, setting);
    var after := Apply(Apply(saved, steps[2], setting), steps[3], setting);
    PutThenSaveRecord(saved, p, edited, a, at, setting);
    assert AllHold(after, cid) && SameKey(after, rkey);
    DivergedExactly(after, cid, after.repo[RecordKey(setting.did, rkey)], rkey, setting);
  }

  lemma EditOfLoaded(s: System, p: nat, e: Edit, at: int, setting: Setting)
    ensures var now := SyncScheduler.Later(s.clock, at);
      var t := Apply(Apply(s, Load(p), setting), SaveEdit(p, e, at), setting);
      && t.row == EditedRow(s.row, e, now) && t.repo == s.repo && t.clock == now
      && t.procs == s.procs[p := Loaded(EditedRow(s.row, e, now))]
  {
  }

  lemma PutThenSaveRecord(s: System, p: nat, row: Row, a: Attempt, at: int, setting: Setting)
    requires p in s.procs && s.procs[p] == Loaded(row) && ViaBluesky(row) && a.replyLost.None?
    requires Stores(row, s.repo, setting.did, a, setting.config)
    ensures var t := Apply(Apply(s, Put(p, a), setting), SaveRecord(p, at), setting);
      var record := Request(row, a, setting.config).value;
      && t.row == row.(record := Some(record), updatedAt := SyncScheduler.Later(s.clock, at))
      && t.repo == s.repo[KeyOf(row, a, setting) := record] && t.procs == s.procs - {p}
  {
    var put := Apply(s, Put(p, a), setting);
    PutOfLoaded(s, p, a, setting);
    assert put.procs[p].snapshot == row && CanSaveRecord(put, p);
    RecordSaved(put, p, at, setting);
  }

  lemma RecordSaved(s: System, p: nat, at: int, setting: Setting)
    requires CanSaveRecord(s, p)
    ensures var t := Apply(s, SaveRecord(p, at), setting);
      && t.row == RecordRow(s.procs[p], SyncScheduler.Later(s.clock, at)) && t.repo == s.repo
      && t.procs == s.procs - {p}
  {
  }

  /** An ingest of the current PDS version, from load to its last update, repairs the row: the next put
      based on it is accepted exactly when the row is one to publish and nothing else stops it. */
  lemma IngestReopens(s: System, d: Delivery, at: int, touch: bool, q: nat, a: Attempt, setting: Setting)
    requires NewVersion(s.row, d) && NonEmpty(s.row.uri) && NonEmpty(s.row.rkey)
    requires var key := RecordKey(setting.did, s.row.rkey.value); key in s.repo && s.repo[key] == d.rawRecord.value
    ensures var ingested := Apply(Apply(Apply(s, Load(q), setting), IngestSave(q, d, at), setting),
      IngestMark(q, at, touch), setting);
      && Coherent(ingested.row) && q !in ingested.procs && ingested.row.content == d.content
      && ingested.row.record == d.rawRecord && ingested.row.cid == d.cid
      && (AcceptsSwap(Apply(ingested, Load(q), setting), Put(q, a), setting)
          <==> Publishes(ingested.row) && Sendable(ingested.row, a, setting.config))
  {
    var saved := Apply(Apply(s, Load(q), setting), IngestSave(q, d, at), setting);
    assert d.cid.value == CidOf(d.rawRecord.value);
    assert saved.row == IngestRow(s.row, d, SyncScheduler.Later(s.clock, at)) && saved.procs[q] == Ingested(d.cid, None)
      && saved.repo == s.repo;
    var ingested := Apply(saved, IngestMark(q, at, touch), setting);
    assert ingested.row.cid == d.cid && ingested.row.record == d.rawRecord && ingested.row.rkey == s.row.rkey
      && ingested.repo == s.repo;
    assert RkeyOf(ingested.row, a.freshTid) == s.row.rkey.value;
    assert Apply(ingested, Load(q), setting).procs[q] == Loaded(ingested.row);
  }

  // ---------------------------------------------------------------- quiescence under interleaving

  predicate IsSave(step: Step) {
    step.SaveEdit? || step.SaveKey? || step.SaveRecord? || step.IngestSave?
  }

  /** Nobody saves the row between passes. */
  predicate NoSaves(steps: seq<Step>) {
    forall k :: 0 <= k < |steps| ==> !IsSave(steps[k])
  }

  predicate Unselected(s: System) {
    !SyncScheduler.Stale(s.row) && s.row.updatedAt <= s.clock
  }

  lemma MarkUnselects(s: System, p: nat, at: int, touch: bool, setting: Setting)
    requires s.row.updatedAt <= s.clock && CanMark(s, p)
    ensures Unselected(Apply(s, Mark(p, at, touch), setting))
  {
  }

  lemma UnselectedStep(s: System, step: Step, setting: Setting)
    requires Unselected(s) && !IsSave(step)
    ensures Unselected(Apply(s, step, setting))
  {
    if step.Mark? && CanMark(s, step.p) {
      MarkUnselects(s, step.p, step.at, step.touch, setting);
    }
  }

  /** A mark takes the row out of the selection, and it stays out, whoever else publishes, until a save. */
  lemma {:induction false} MarkedStaysUnselected(
    s: System, p: nat, at: int, touch: bool, steps: seq<Step>, setting: Setting)
    requires s.row.updatedAt <= s.clock && CanMark(s, p) && NoSaves(steps)
    ensures Unselected(Run(Apply(s, Mark(p, at, touch), setting), steps, setting))
  {
    var marked := Apply(s, Mark(p, at, touch), setting);
    if steps == [] {
      MarkUnselects(s, p, at, touch, setting);
    } else {
      MarkedStaysUnselected(s, p, at, touch, steps[..|steps| - 1], setting);
      UnselectedStep(Run(marked, steps[..|steps| - 1], setting), steps[|steps| - 1], setting);
    }
  }
}

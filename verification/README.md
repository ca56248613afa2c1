# OpenMeet API: a verified model of its protocols

OpenMeet is an event platform whose events, RSVPs and user identities are also published to the AT Protocol.
This project models the parts of its API that are protocols or calculations rather than wiring, and proves
what they keep in every run. Each module follows one component of the service; operations that change
state are classes and methods, tied by their contracts to functions on values, and the properties are lemmas about
those functions and about runs of steps.

| module | component |
|---|---|
| `RecordMerge`, `EventRecord`, `RecordProperties` | the event record: source-tagged array merge, assembly, media rule, repeated publishing |
| `RecordReading` | the published record as other apps and readers of the lexicon find it |
| `Publisher`, `SyncScheduler` | compare-and-swap publishing, error classification, the retry pass |
| `PublishProtocol`, `PublishSafety` | the parties that touch one event in any interleaving, and what all runs keep |
| `SqlSanitizer`, `SqlValues` | query sanitizing as string rewriting; what becomes of values and lists of them |
| `ConnectionCache`, `ConnectionPool` | the timestamped connection cache as an LRU list, and under overlapping calls |
| `RedisLock`, `HandleCache` | the lock with expiry and unconditional delete; the DID-to-handle cache with late stores |
| `ActivityFeed`, `KeysetPagination` | time-window aggregation; pages, cursors and the probe row |
| `AtUri`, `Rsvp` | AT-URI printing and parsing; RSVP records under hashed keys |
| `IdentityCustody`, `HandleSearch` | identity rows across four services; the unique-handle search and its retry |
| `BlockedIp`, `ImageLadder` | signed 32-bit range tests; fitting an image under a size limit |

`dafny verify dfyconfig.toml` checks everything.

## What the model treats as given

- A CID determines its record (`CidOf` is a constructor), and `com.atproto.repo.putRecord` with `swapRecord` is an atomic compare-and-swap.
- SHA-256 is a function parameter. Where a property needs it to be injective on the DIDs or URIs in play, the lemma says so.
- Clocks are parameters. The connection cache needs one that advances from lookup to lookup for its LRU result and its bound; the feed's spacing bound needs none.
- The PDS, Redis and the database are small state machines with atomic operations; a timeout or a lost connection is a separate outcome of a step.
- Lexicon validation, the image encoder, the handle-availability check and base64 JSON cursors are arbitrary functions or answers.

## Findings

These are places where the code does something other than its comments, tests or callers expect. Each is proved, with the exact condition.

- A lexicon failure never reaches the scheduler as a validation result: `createEventRecord` prefixes the message, so the publisher's
  `startsWith` test cannot match (`Publisher.ValidationIsNeverTyped`) and the event is selected by every pass (`SyncScheduler.FailuresAreRetriedForever`).
- The scheduler selects on the columns' microseconds, the publisher compares millisecond dates: an event whose stamps fall into one millisecond is selected by every
  pass and skipped by all of them (`SyncScheduler.SelectedButSkippedExactly`, `FailuresAreRetriedForever`).
- An event whose name contains `InvalidSwap` has every failure classified as a conflict (`Publisher.ConflictExactly`).
- A conflict, or a crash or a lost reply after a put that changed the record, lasts until the firehose delivers the newer record (`PublishSafety.CrashAfterPutDiverges`, `DivergenceLastsUntilIngest`).
- A firehose ingest saves the row and then writes the CID alone in a second update. When another ingest's save or a publisher's mark comes between the two, the row
  ends with one version's CID and another version's record (`PublishProtocol.RacingIngestsDisagree`, `PublishDuringIngestDisagrees`).
- No ingest is needed for that: a PATCH that gives a published event a Bluesky source makes the update handler put the record itself and save it without its CID. If the put changed
  the record, the row keeps the old CID beside the new record, and every later put is rejected until the firehose delivers (`PublishSafety.RecordSaveDiverges`).
- CID and record stay together in every state of a run exactly when each ingest's save and update, and each record saved alone, meets its own condition (`PublishProtocol.CoherentRunExactly`);
  when ingests are not disturbed, only the records saved alone matter (`UndisturbedIngestsKeep`). The foreign data of the two stays equal even then (`PublishSafety.AgreeRunExactly`).
- Two requests that loaded an event before its first publish can leave two PDS records for it: the second one's save takes the record key and the CID away again, so it picks a new key and puts
  without `swapRecord` (`PublishSafety.TwoRecordsForOneEvent`). An event keeps to one key in every run exactly when no copy or receipt with another key is out (`OneKeyExactly`).
- A swap that the PDS accepts loses foreign data exactly when the stored record it merged into differs from the PDS record on the foreign part (`PublishSafety.SwapLosslessExactly`).
  Rows with a CID from before the record column existed are such rows whenever the PDS record has foreign data (`LegacyRowLosesForeignExactly`).
- An event that is no longer public keeps the record it published before: no run of the service's steps stores or removes one while it is hidden (`PublishSafety.HiddenEventsAreLeftAlone`),
  and a copy loaded before the edit is still published after it (`StaleCopyIsPublished`).
- The aggregation key names a group or else an event by number alone, so a group and an event with one number share entries of one type and scope (`ActivityFeed.TwoCallsShareExactly`).
- The connection cache keeps its limit for serial calls only while the clock advances: a miss on a full cache without an entry older than the clock exceeds it
  (`ConnectionPool.SerialCallFitsExactly`). With an advancing clock and P overlapping initializations it holds up to P - 1 more, and that is reached (`OverlapBound`, `OverlapExceedsLimit`).
- A lock holder that outlives its time-to-live not only lets a second one in; its own delete removes the second one's lock (`RedisLock.LateDeleteUnlocksSuccessor`).
- After an invalidation an older handle can return to the cache exactly while a resolution or a store for that DID is under way (`HandleCache.InvalidationHoldsExactlyWhenNothingIsOut`).
- A cursor keeps milliseconds, the column microseconds. The service's own writes go through millisecond dates; if a finer date gets into the table at a page end, the walk does not
  yield the list (`KeysetPagination.YieldsExactly`), and a millisecond crowded with more such events than fit on a page is never passed (`CrowdedMillisecondNeverEnds`).
- `createRsvp` stores the record before it validates the URI parts, so for a DID such as a `did:web` with a path the call fails although the RSVP exists; a lost reply does the same (`Rsvp.StoredThoughRefusedExactly`).
- An identity update writes the whole row it read, so an update that overlaps taking ownership can make the identity custodial again (`IdentityCustody.OwnershipIsFinalExactly`).
- A link to a different DID deletes first and creates afterwards; when the delete takes effect and the create does not follow, or when somebody else took the DID between the two
  and nobody gave the user an identity meanwhile, the user has no identity (`IdentityCustody.FailedLinkLosesIdentityExactly`, `ReplacementLosesIdentityExactly`).
- An activity without an actor appends an entry whose count is not its number of actors, for as long as no later call aggregates into it (`ActivityFeed.CountOffExactly`).

## Model

| member | source | states |
|---|---|---|
| RecordMerge.OthersAreForeign | src/bluesky/atproto-record-merge.utils.ts:8-41 | the merge's filter keeps the entries that pass its test, in order; which ones these are is `MergeOfWellFormed` and `MergeDropsOurs` |
| RecordMerge.OthersThrowOnlyOnUnreadable | src/bluesky/atproto-record-merge.utils.ts:8-41 | the merge fails exactly when a stored entry cannot be read |
| RecordMerge.MergeShape | src/bluesky/atproto-record-merge.utils.ts:8-17 | a merged array is the foreign entries in stored order, then exactly the current OpenMeet entries |
| RecordMerge.MergeKeepsForeign | src/bluesky/atproto-record-merge.utils.ts:8-41 | merging source-tagged entries leaves the foreign part of the array unchanged |
| RecordMerge.MergeAbsorbs | src/bluesky/atproto-record-merge.utils.ts:8-41 | a second merge erases every trace of the first one's entries |
| RecordMerge.MergeKeepsOtherApps | src/bluesky/atproto-record-merge.utils.ts:8-41 | by the shape of the entries alone: well-formed ones that OpenMeet did not write stay in their order and number |
| RecordMerge.MergeDropsOurs | src/bluesky/atproto-record-merge.utils.ts:8-41 | what is kept of the stored array is never tagged, and never an untagged OpenMeet entry by its link or name; the current entries follow it |
| RecordMerge.MergeOfWellFormed | src/bluesky/atproto-record-merge.utils.ts:8-41 | on well-formed entries the merge is exactly other apps' entries in order, then the current ones |
| RecordMerge.MergeThrowsExactly | src/bluesky/atproto-record-merge.utils.ts:8-41 | the merge fails exactly on a value that is no array, a null entry, or an entry whose link has no includes |
| EventRecord.BuildUris | src/bluesky/bluesky.service.ts:442-477 | pushing the links one by one yields the meeting link and, unless it already leads to the event page, the event page |
| EventRecord.SetMedia | src/bluesky/bluesky.service.ts:522-550 | the three-case rule: uploaded thumbnail, preserved thumbnail after a failed upload, or none; other media kept; field dropped when empty |
| EventRecord.SetMeta | src/bluesky/bluesky.service.ts:552-576 | the image key follows the thumbnail's three cases; the field is dropped when nothing is left |
| EventRecord.AssembledIsPublished | src/bluesky/bluesky.service.ts:482-576 | overlaying literals, dropping nulls, setting and deleting fields gives exactly the field-by-field record |
| EventRecord.BuildEventRecord | src/bluesky/bluesky.service.ts:321-576 | the step-by-step construction equals the field-by-field specification, errors included |
| RecordProperties.PublishKeepsForeign | src/bluesky/bluesky.service.ts:479-550 | one publish keeps every foreign location, link, medium and unknown field of its merge base |
| RecordProperties.ImageConsistencyExactly | src/bluesky/bluesky.service.ts:522-576 | a publish leaves at most one thumbnail, in step with the source key, unless it preserved an inconsistent pair |
| RecordProperties.ImageFollowsDecidingPublish | src/bluesky/bluesky.service.ts:395-440 | over any run from an empty record, thumbnail and key are those of the latest publish whose upload did not fail |
| EventRecord.PublishedRecord | src/bluesky/bluesky.service.ts:479-508 | assembling fails exactly when a stored array cannot be read, whatever the event and its image |
| RecordProperties.PublishedStaysReadable | src/bluesky/bluesky.service.ts:479-508 | a published record can be published over again |
| RecordProperties.PublishAll | src/bluesky/bluesky.service.ts:479-508 | from a readable base no publish of a run fails, and its last record is readable |
| RecordProperties.PublishingNeverAccumulates | src/bluesky/bluesky.service.ts:339-508 | after any run: original foreign entries, then only the last publish's entries, and the first publish's createdAt |
| RecordReading.PublishingKeepsOtherApps | src/bluesky/bluesky.service.ts:479-550 | through any run of publishes the entries, media and unknown fields of other apps, told by their shape, stay the same in number and order |
| RecordReading.PublishedTellsEvent | src/bluesky/bluesky.service.ts:321-500 | name, text, dates, mode and status read from a published record are the event's, createdAt the first one |
| RecordReading.PublishedLocates | src/bluesky/bluesky.service.ts:339-354 | a place with coordinates is among the locations with its name and tag, latitude and longitude in place |
| RecordReading.PublishedLinksMeeting | src/bluesky/bluesky.service.ts:355-362 | the meeting link, made absolute, is among locations and links |
| RecordReading.PublishedLinksPage | src/bluesky/bluesky.service.ts:458-477 | every record links to the event page, by its own entry or through the meeting link |
| RecordReading.LinksAreAbsolute | src/bluesky/bluesky.service.ts:34-39 | links with a scheme stay as they are, others get https, and making a link absolute twice changes nothing |
| RecordReading.PublishedShowsImage | src/bluesky/bluesky.service.ts:522-576 | an uploaded image is the thumbnail under the event's name, with its key in the metadata |
| RecordReading.PublishedWithoutImage | src/bluesky/bluesky.service.ts:522-576 | without an image neither a thumbnail nor its key is left |
| RecordReading.PublishedNotesSeries | src/bluesky/bluesky.service.ts:552-576 | the metadata name the series of an event that has one |
| Publisher.Pds.PutRecord | src/bluesky/bluesky.service.ts:596-603 | compare-and-swap: written and answered with the CID, or rejected with the repository untouched |
| Publisher.CreateOnPds | src/bluesky/bluesky.service.ts:364-632 | record key choice, put and error re-wrap step by step equal the outcome and repository functions |
| Publisher.PublishEvent | src/atproto-publisher/atproto-publisher.service.ts:262-382 | the publisher's decisions step by step equal the outcome and repository functions, for every failure on the way |
| Publisher.PublishesExactly | src/atproto-publisher/atproto-publisher.service.ts:144-382 | by the row's columns: the PDS gets the assembled record exactly for public, published or cancelled, native events that are due, when nothing on the way fails and the swap holds; otherwise it is untouched |
| Publisher.WrittenExactly | src/atproto-publisher/atproto-publisher.service.ts:238-382 | the caller is told of a write exactly when it happened and the reply arrived, with the CID, key and URI of the stored record |
| Publisher.EventUriParses | src/atproto-publisher/atproto-publisher.service.ts:369 | the reported URI parses back to organizer, collection and record key |
| Publisher.WrappedMentionsSwap | src/bluesky/bluesky.service.ts:619-632 | the re-wrapped message mentions the swap code exactly when the event name or the cause did |
| Publisher.ConflictExactly | src/atproto-publisher/atproto-publisher.service.ts:341-351 | exactly which re-wrapped failures are classified as conflicts |
| Publisher.ValidationIsNeverTyped | src/atproto-publisher/atproto-publisher.service.ts:353-366 | no failure of createEventRecord is ever classified as a validation error |
| Publisher.RejectedSwapIsConflict | src/bluesky/bluesky.service.ts:596-632 | every rejected swap reaches the scheduler as a conflict and leaves the PDS unchanged |
| SyncScheduler.EventTable.MarkAtprotoSynced | src/atproto-publisher/atproto-sync.utils.ts:8-27 | CID and record are written together or not at all, the sync time always; other rows untouched |
| SyncScheduler.EventTable.SelectStale | src/atproto-publisher/atproto-sync-scheduler.ts:50-66 | the selected ids are exactly the native rows with a URI whose update is later than their last sync |
| SyncScheduler.SyncEvent | src/atproto-publisher/atproto-sync-scheduler.ts:82-118 | one loop body equals the visit function on rows, PDS and clock |
| SyncScheduler.SyncTenant | src/atproto-publisher/atproto-sync-scheduler.ts:50-121 | the loop over loaded events equals the pass function on rows, PDS and clock |
| SyncScheduler.PassExactly | src/atproto-publisher/atproto-sync-scheduler.ts:68-121 | a pass changes exactly the settled rows, and a row is selected afterwards exactly if it was and did not settle |
| SyncScheduler.QuietUntilEdited | src/atproto-publisher/atproto-sync-scheduler.ts:55-61 | an unselected event stays exactly as it is through any run without an edit to it |
| SyncScheduler.EditIsPickedUp | src/atproto-publisher/atproto-sync-scheduler.ts:55-112 | an edit of a synced event is selected by the next pass, and a visit that ends with the record written leaves that record, its CID, key and URI in the row with a later sync time |
| SyncScheduler.OthersAreNeverTouched | src/atproto-publisher/atproto-sync-scheduler.ts:55-61 | an imported event, or one without URI or sync time, is unchanged by any run without an edit to it |
| SyncScheduler.SettledEventsAreNotRetried | src/atproto-publisher/atproto-sync-scheduler.ts:91-112 | once published, updated or in conflict, an event is not selected again before an edit |
| SyncScheduler.RetriedExactly | src/atproto-publisher/atproto-sync-scheduler.ts:50-121 | a stale event that nobody edits is selected after a run exactly when none of its passes settled it, and is unchanged until then |
| SyncScheduler.SelectedButSkippedExactly | src/atproto-publisher/atproto-publisher.service.ts:206-250 | a selected event with organizer and session is skipped exactly when its two stamps fall into one millisecond and nothing forces the publish |
| SyncScheduler.FailuresAreRetriedForever | src/atproto-publisher/atproto-sync-scheduler.ts:91-121 | through any run of passes, foreign writes and other edits, an event that at every visit fails validation or is taken for one in sync stays selected |
| PublishProtocol.CoherentRunExactly | src/event/services/event-management.service.ts:866-971 | every state of a run keeps CID and record together, in the row and in loaded copies, exactly when each ingest saves a matching pair, its CID update still finds the record it saved, and each record saved without its CID had none or is unchanged |
| PublishProtocol.UndisturbedIngestsKeep | src/event/services/event-integration.service.ts:770-795 | with faithful deliveries whose save and update are not separated by another write of the row, CID and record stay together exactly when each record saved without its CID meets its condition |
| PublishProtocol.MarkCoherentExactly | src/event/services/event-integration.service.ts:784-795 | the update after an ingest's save keeps the pair exactly when the row's record is still the one the CID names |
| PublishProtocol.RecordCoherentExactly | src/event/services/event-management.service.ts:928-962 | saving the published record without its CID keeps the pair exactly when there is no CID or the put changed nothing |
| PublishProtocol.RacingIngestsDisagree | src/event/services/event-integration.service.ts:770-795 | two faithful ingests can leave the first one's CID with the second one's record |
| PublishProtocol.PublishDuringIngestDisagrees | src/event/services/event-integration.service.ts:770-795 | a publisher's mark between an ingest's save and update leaves the delivered CID with the published record |
| PublishProtocol.IngestCoherentExactly | src/event/services/event-integration.service.ts:651-779 | exactly which deliveries keep CID and record together when a loaded row is saved with them |
| PublishSafety.SwapAcceptedExactly | src/bluesky/bluesky.service.ts:596-603 | a put of a loaded row is accepted exactly when the row is one to publish, nothing stops it and the PDS still holds the stored record |
| PublishSafety.SwapLosslessExactly | src/bluesky/bluesky.service.ts:479-603 | any accepted swap replaces the record its CID names and no other, and loses nothing foreign exactly when the stored record agrees with it on the foreign part |
| PublishSafety.AcceptedSwapKeepsForeign | src/bluesky/bluesky.service.ts:479-603 | from matching CID and record, an accepted swap replaces exactly its merge base and keeps its foreign part |
| PublishSafety.NoLostUpdate | src/bluesky/bluesky.service.ts:479-603 | in every run with edits, foreign writes, crashes, records saved without their CID, and ingests whose steps keep the foreign data of CID and record equal, accepted swaps keep all foreign data of the record they replace, and other apps' entries, told by their shape, in number and order |
| PublishSafety.AgreeRunExactly | src/event/services/event-integration.service.ts:651-795 | in every state of a run the stored record has the foreign data of the record its CID names exactly when each ingest step keeps it so; no other step can part them |
| PublishSafety.UndisturbedIngestsKeepView | src/event/services/event-integration.service.ts:770-795 | undisturbed ingests of faithful deliveries meet that condition in every run |
| PublishSafety.PutsAreEligible | src/atproto-publisher/atproto-publisher.service.ts:144-170 | a put that changes the PDS comes from a public, published or cancelled, native copy, or from one with a Bluesky source and record key |
| PublishSafety.HiddenEventsAreLeftAlone | src/atproto-publisher/atproto-publisher.service.ts:238-243 | while neither row nor copies are public or linked to Bluesky, no run stores or removes a record |
| PublishSafety.StaleCopyIsPublished | src/event/services/event-management.service.ts:866-1020 | a copy loaded before the edit that made the event private is published after it |
| PublishSafety.LegacyRowLosesForeignExactly | src/bluesky/bluesky.service.ts:479-480 | with a CID but no stored record, exactly records without foreign data survive |
| PublishSafety.OneRecordKey | src/bluesky/bluesky.service.ts:364-387 | once no copy or receipt with another record key is out, all puts of every run go to the one key and nothing else is touched |
| PublishSafety.OneKeyExactly | src/bluesky/bluesky.service.ts:364-387 | for a row with a record key, some run puts under another key exactly when a copy or receipt with another key is out |
| PublishSafety.TwoRecordsForOneEvent | src/event/services/event-management.service.ts:866-1020 | two requests that loaded an event before its first publish leave two PDS records, the row knowing only the second |
| PublishSafety.DivergenceLastsUntilIngest | src/atproto-publisher/atproto-sync-scheduler.ts:91-112 | once the PDS record has moved on, no local run changes it again |
| PublishSafety.CrashAfterPutDiverges | src/atproto-publisher/atproto-sync-scheduler.ts:91-112 | a crash between put and mark, or a lost reply, diverges the event exactly when the put changed the record, whatever other processes work on the same version |
| PublishSafety.RecordSaveDiverges | src/event/services/event-management.service.ts:885-962 | an update through the Bluesky source path leaves the old CID beside the new record and diverges the event exactly when the put changed the record |
| PublishSafety.IngestReopens | src/event/services/event-integration.service.ts:641-795 | an undisturbed ingest of the current PDS version takes over its content, record and CID and makes the next put acceptable exactly when the row is one to publish and nothing else stops it |
| PublishSafety.MarkedStaysUnselected | src/atproto-publisher/atproto-sync.utils.ts:8-27 | a mark takes the row out of the selection until somebody saves it, in every interleaving |
| SqlSanitizer.SanitizeEstablishes | src/database/data-source.ts:27-44 | the four rewriting passes always end in the normal form: at most one quote, no standalone number, lists and mark runs collapsed |
| SqlSanitizer.FixedExactlyWhenSanitized | src/database/data-source.ts:27-44 | the fixed points of sanitizing are exactly the normal forms |
| SqlSanitizer.SanitizeIsIdempotent | src/database/data-source.ts:27-44 | sanitizing twice is sanitizing once, on every string |
| SqlSanitizer.LiteralIndependent | src/database/data-source.ts:30-31 | after an even number of quotes the contents of a literal never reach the sanitized text, nor therefore the fingerprint |
| SqlSanitizer.HiddenExactlyAfterEvenQuotes | src/database/data-source.ts:30-31 | the contents of a quoted piece are hidden exactly when an even number of quotes precedes it |
| SqlValues.NumberIsMark | src/database/data-source.ts:34-35 | a number that stands alone gives the same text as a question mark, anywhere in a query |
| SqlValues.LiteralIsMark | src/database/data-source.ts:30-31 | after an even number of quotes a literal gives the same text as a question mark |
| SqlValues.LinkedMarks | src/database/data-source.ts:37-41 | two marks joined by a comma give the same text as one, anywhere in a query |
| SqlValues.ListIsMark | src/database/data-source.ts:30-41 | a list of numbers, literals and marks of any length and spacing gives the same text as one mark |
| SqlValues.NamesAreKept | src/database/data-source.ts:33-35 | a word that is more than a number keeps its digits |
| ConnectionCache.KeyIsInjective | src/database/data-source.ts:289-296 | two tenants never share a cache key |
| ConnectionCache.WriteTouches | src/database/data-source.ts:297-304 | writing a newer timestamp is moving the key to the recent end of the LRU list |
| ConnectionCache.LeastRecentIsHead | src/database/data-source.ts:311-330 | the entry with the oldest timestamp is the least recently used one |
| ConnectionCache.EvictedIsHead | src/database/data-source.ts:311-330 | at the limit, with a clock past every timestamp, exactly the least recently used entry goes |
| ConnectionCache.AskedIsLru | src/database/data-source.ts:289-330 | on an advancing clock a lookup on the map is a lookup on the LRU list |
| ConnectionCache.ConnectionCache.Oldest | src/database/data-source.ts:313-321 | the scan finds an entry no newer than any other, or none exactly when all are as new as the clock |
| ConnectionCache.ConnectionCache.EvictIfFull | src/database/data-source.ts:310-330 | at the limit an oldest entry goes, or none when no timestamp is older than the clock |
| ConnectionCache.ConnectionCache.AppDataSource | src/database/data-source.ts:289-330 | on any clock: the connection handed out was built for the asking tenant, and what becomes of the map; on an advancing clock, the LRU list |
| ConnectionCache.ConnectionCache.Initialize | src/database/data-source.ts:463-467 | an initialized connection is cached as the most recent one |
| ConnectionCache.ConnectionCache.GetTenantConnection | src/database/data-source.ts:289-467 | a serial call is one access on a bounded LRU list, and the limit holds |
| ConnectionCache.ConnectionCache.Sweep | src/database/data-source.ts:249-266 | a sweep keeps exactly the entries idle for at most the timeout, in their order |
| ConnectionPool.AlwaysIsolated | src/database/data-source.ts:289-467 | with any overlap, sweeps and any clock, the entry found for a tenant was built for that tenant |
| ConnectionPool.AdvancingFindsRoom | src/database/data-source.ts:311-330 | on a clock that advances from lookup to lookup, every lookup that needs room finds an entry to evict |
| ConnectionPool.OverlapBound | src/database/data-source.ts:311-467 | on such a clock, with at most P initializations in flight the cache never exceeds its limit by more than P - 1 |
| ConnectionPool.SerialCallFitsExactly | src/database/data-source.ts:311-467 | a serial call keeps the limit exactly when it hits, leaves room, or finds an entry older than the clock |
| ConnectionPool.OverlapExceedsLimit | src/database/data-source.ts:311-467 | for every P a run from an empty cache on an advancing clock, with at most P initializations in flight, reaches the bound |
| RedisLock.Redis.AcquireLock | src/elasticache/elasticache.service.ts:357-381 | acquired exactly when the reply arrives and no live lock was there; a lost reply still sets the key |
| RedisLock.Redis.ReleaseLock | src/elasticache/elasticache.service.ts:387-402 | deletes the key whoever owns it; skipped on a closed connection |
| RedisLock.WithLock | src/elasticache/elasticache.service.ts:411-429 | null exactly without the lock; otherwise the result or the error of the function, with the lock released in both cases |
| RedisLock.MutualExclusion | src/elasticache/elasticache.service.ts:411-429 | if every holder of a key deletes within its time-to-live, at most one call at a time is between acquire and delete |
| RedisLock.DeleteRemovesOwnLock | src/elasticache/elasticache.service.ts:387-429 | under the same hypothesis each delete removes a live lock that its caller set |
| RedisLock.SecondEntersExactlyAfterDeadline | src/elasticache/elasticache.service.ts:366-372 | while one call holds the key a second gets in exactly from the deadline on |
| RedisLock.LateDeleteUnlocksSuccessor | src/elasticache/elasticache.service.ts:387-402 | an overstaying call's delete frees its successor's lock, and a third call enters beside the punctual second |
| RedisLock.OrphanExpires | src/elasticache/elasticache.service.ts:366-372 | a lock left by a crash, lost reply or skipped delete blocks its key for at most one time-to-live |
| RedisLock.SessionsContendExactlyPerDid | src/bluesky/bluesky.service.ts:85-95 | session restore and reset share a lock exactly when they are for one DID |
| RedisLock.RestoreAndResetNeverOverlap | src/bluesky/bluesky.service.ts:842-853 | a restore and a reset of one DID are never both under the lock if both keep to their 30 seconds |
| RedisLock.SchedulerPassesNeverOverlap | src/atproto-publisher/atproto-sync-scheduler.ts:22-41 | two scheduler passes never overlap if each keeps to ten minutes |
| HandleCache.PatternDecides | src/bluesky/atproto-handle-cache.service.ts:46-75 | the length and control-character checks reject nothing the DID pattern accepts |
| HandleCache.HonestRun | src/bluesky/atproto-handle-cache.service.ts:94-206 | in every interleaving cached and pending handles were resolved for the DID they are filed under |
| HandleCache.HandleAgreement | src/bluesky/atproto-handle-cache.service.ts:94-206 | in every run a result is the handle in a document resolved for that DID by this call or within the time-to-live before, or the DID: exactly when it is not valid, the call gave up, or that document has no other handle |
| HandleCache.InvalidationHoldsExactlyWhenNothingIsOut | src/bluesky/atproto-handle-cache.service.ts:246-258 | after an invalidation an older handle can be cached again exactly while a resolution or store for that DID is under way |
| HandleCache.SharedCache.ResolveHandle | src/bluesky/atproto-handle-cache.service.ts:94-206 | one undisturbed call matches the step protocol; a live entry is returned, and after a miss the document's handle is returned and cached, or the DID if it has none |
| HandleCache.StoredAnswerIsServed | src/bluesky/atproto-handle-cache.service.ts:128-151 | what is cached is what a later call returns within the time-to-live, whatever its own document says |
| HandleCache.ValidDidExactly | src/bluesky/atproto-handle-cache.service.ts:27-75 | exactly the plc and web DIDs with one to a hundred identifier characters are resolved |
| HandleCache.ResolveHandles | src/bluesky/atproto-handle-cache.service.ts:214-238 | in any completion order the keys are exactly the input DIDs, each with the answer of its last completion |
| ActivityFeed.Feed.Create | src/activity-feed/activity-feed.service.ts:32-95 | a call aggregates into a matching row, or appends one when none matches |
| ActivityFeed.WindowSpacing | src/activity-feed/activity-feed.service.ts:58-86 | two entries with one key were created at least a window apart, in every run |
| ActivityFeed.LookupIsUnambiguous | src/activity-feed/activity-feed.service.ts:63-68 | on one clock at most one row matches a call |
| ActivityFeed.TwoCallsShareExactly | src/activity-feed/activity-feed.service.ts:58-86 | two calls end in one entry exactly when type, scope, subject and window hour agree and the second comes within its window |
| ActivityFeed.ListedActorsActed | src/activity-feed/activity-feed.service.ts:268-281 | in every run an entry lists only actors who acted on its subject, in its scope, by its type and hour |
| ActivityFeed.EntriesPerKey | src/activity-feed/activity-feed.service.ts:268-281 | a key has at most as many entries as windows start in its hour: 60/W when W divides 60, one for W of 60 and more |
| ActivityFeed.ActorsConserved | src/activity-feed/activity-feed.service.ts:226-263 | the entries of a key together list exactly the actors who called with it |
| ActivityFeed.CountIsNumberOfActors | src/activity-feed/activity-feed.service.ts:247-263 | with an actor in every call, each entry lists its actors once and counts them |
| ActivityFeed.CountOffExactly | src/activity-feed/activity-feed.service.ts:226-263 | in every state a row's count differs from its number of actors exactly when a call without an actor appended it and no later call aggregated into it |
| KeysetPagination.GetMyEvents | src/did-api/did-api.service.ts:144-249 | fetching one row more, noticing and dropping it gives the first rows after the cursor, and a cursor exactly when more follow |
| KeysetPagination.MatchingIsOrderedSelection | src/did-api/did-api.service.ts:178-227 | the query's rows are exactly the listed rows after the cursor, strictly ordered by date and id |
| KeysetPagination.ShownExactly | src/did-api/did-api.service.ts:178-224 | published events of the period and group after the cursor: public ones only on request and if attended, others if attended or of a group of the user |
| KeysetPagination.BoundaryExactly | src/did-api/did-api.service.ts:216-249 | the next page continues right after this one exactly when the last date is a whole millisecond |
| KeysetPagination.YieldsExactly | src/did-api/did-api.service.ts:216-249 | following cursors ends with the whole ordered list exactly when the rows at the list's page ends have whole milliseconds |
| KeysetPagination.PagesAreTheWholeListExactly | src/did-api/did-api.service.ts:216-249 | a walk that ends joins to the whole ordered list exactly under the same condition on the list |
| KeysetPagination.FollowingCursorsEnds | src/did-api/did-api.service.ts:216-249 | under that condition following cursors ends after at most list / limit + 1 requests with the whole list |
| KeysetPagination.MillisecondDatesSuffice | src/did-api/did-api.service.ts:216-249 | in particular whenever all listed dates are whole milliseconds, for every page size |
| KeysetPagination.CrowdedMillisecondNeverEnds | src/did-api/did-api.service.ts:216-249 | a millisecond with more listed events strictly inside it than fit on a page is never passed, from any cursor before it |
| KeysetPagination.StableEventsAppearOnce | src/did-api/did-api.service.ts:216-249 | although the table changes between requests, an event listed at every request is returned exactly once if requests end on whole milliseconds |
| KeysetPagination.StableEventsAreNeverLost | src/did-api/did-api.service.ts:216-249 | whatever the dates, a walk that ends has returned every event that was listed at every request |
| KeysetPagination.OnceExactly | src/did-api/did-api.service.ts:216-249 | if the rows that end pages stay, all events listed throughout are returned exactly once if and only if those rows have whole milliseconds |
| AtUri.ParseOfPrintedExactly | src/bluesky/bluesky-id.service.ts:31-118 | parsing a printed URI gives the parts back exactly when the collection is not already suffixed and no slash splits it |
| AtUri.PrintedIsValidExactly | src/bluesky/bluesky-id.service.ts:31-145 | a printed URI is valid exactly when a suffix that is used consists of collection characters |
| AtUri.ValidExactlyWhenPrinted | src/bluesky/bluesky-id.service.ts:125-193 | isValidUri accepts exactly the printed forms of valid parts |
| AtUri.PrintOfParsedExactly | src/bluesky/bluesky-id.service.ts:31-118 | printing a parsed valid URI gives it back exactly when its collection is not a bare calendar one while a suffix is set |
| AtUri.ValidDidExactly | src/bluesky/bluesky-id.service.ts:162-166 | exactly the plc, web and key DIDs with at least one identifier character are valid |
| AtUri.ValidRkeyExactly | src/bluesky/bluesky-id.service.ts:185-195 | single letters, digits and hyphens are valid record keys, and longer texts exactly when all their parts are |
| AtUri.ValidCollectionExactly | src/bluesky/bluesky-id.service.ts:173-180 | valid collections begin with a letter and go on with letters, digits, dots and hyphens |
| Rsvp.Pds.CreateRsvp | src/bluesky/bluesky-rsvp.service.ts:87-237 | what is stored and what is returned, for every failure on the way, a lost reply included |
| Rsvp.Pds.DeleteRsvp | src/bluesky/bluesky-rsvp.service.ts:302-324 | what is deleted, and when the call succeeds |
| Rsvp.OneRsvpPerEvent | src/bluesky/bluesky-rsvp.service.ts:31-33 | in every run a repository holds at most one RSVP per event URI, even if hashes collide |
| Rsvp.RepoIsLatestWord | src/bluesky/bluesky-rsvp.service.ts:184-324 | in every run the repository is exactly the latest create for each event that no delete has named since |
| Rsvp.PublishedEventRsvp | src/bluesky/bluesky-rsvp.service.ts:86-184 | an RSVP to a published event stores its URI, its CID as known or fetched, and the answer's lexicon name under the hashed URI |
| Rsvp.ImportedEventRsvp | src/bluesky/bluesky-rsvp.service.ts:92-184 | an RSVP to an imported event stores a URI that parses back to the event's creator and record key |
| Rsvp.NothingStoredOtherwise | src/bluesky/bluesky-rsvp.service.ts:114-130 | no other event gets an RSVP, and none is stored without session, valid record or executed put |
| Rsvp.DeletesExactly | src/bluesky/bluesky-rsvp.service.ts:284-324 | a deletion removes exactly the record that a URI of the user's own DID names |
| Rsvp.StoredThoughRefusedExactly | src/bluesky/bluesky-rsvp.service.ts:217-237 | a stored RSVP is reported as failed exactly when the PDS's reply is lost or the DID or key does not pass the URI checks |
| Rsvp.DeletingTheReturnedUri | src/bluesky/bluesky-rsvp.service.ts:302-324 | deleting the returned URI removes exactly the stored record, through print, suffix and parse, exactly for suffixes without a slash |
| Rsvp.CreateThenDelete | src/bluesky/bluesky-rsvp.service.ts:184-324 | a create followed by deleting its URI leaves all other records as they were |
| Rsvp.DeleteIgnoresCollection | src/bluesky/bluesky-rsvp.service.ts:302-324 | any of the user's URIs with the key deletes the RSVP, whatever its collection |
| IdentityCustody.CustodyInvariant | src/auth-bluesky/auth-bluesky.service.ts:950-1018 | in every interleaving of all services' writes: custodial exactly with credentials, one identity per user, one user per DID |
| IdentityCustody.OwnershipIsFinalExactly | src/atproto-identity/atproto-identity-recovery.service.ts:256-278 | an owned identity can become custodial again exactly when an update that read it before is still to be saved |
| IdentityCustody.LinkKeepsConstraints | src/auth-bluesky/auth-bluesky.service.ts:924-1018 | one undisturbed link callback never makes a DID belong to two users, even if the database did not forbid it |
| IdentityCustody.OverlappingLinksShareDidExactly | src/auth-bluesky/auth-bluesky.service.ts:924-1018 | two callbacks that both passed the check keep a DID apart exactly when the database has the constraint on DIDs |
| IdentityCustody.LinkTakesOver | src/auth-bluesky/auth-bluesky.service.ts:956-1018 | after a link whose writes went through the user has exactly the linked DID without credentials, under the resolved or else the known handle, and everybody else keeps theirs |
| IdentityCustody.FailedLinkLosesIdentityExactly | src/auth-bluesky/auth-bluesky.service.ts:984-1003 | a link costs the identity exactly when it replaces another DID, its delete takes effect and its create does not follow |
| IdentityCustody.ReplacementLosesIdentityExactly | src/auth-bluesky/auth-bluesky.service.ts:984-1003 | whatever runs between delete and create, the identity is lost exactly when somebody else took the DID and nobody gave the user an identity meanwhile |
| IdentityCustody.IdentityStore.LinkCallback | src/auth-bluesky/auth-bluesky.service.ts:924-1018 | refused, failed or done, and the rows in each case, for every outcome of its delete and its write |
| IdentityCustody.IdentityStore.EnsureOwnDid | src/auth-bluesky/auth-bluesky.service.ts:1173-1220 | a first login adds a row without credentials exactly when the user has none and the constraints allow it |
| IdentityCustody.IdentityStore.CreateCustodial | src/atproto-identity/atproto-identity.service.ts:114-135 | a custodial row with credentials is added exactly when the user has none and the constraints allow it |
| IdentityCustody.IdentityStore.CompleteTakeOwnership | src/atproto-identity/atproto-identity-recovery.service.ts:256-278 | refused exactly without a custodial identity, else only its credentials and flag change |
| IdentityCustody.IdentityStore.UpdateHandle | src/atproto-identity/atproto-identity.service.ts:150-230 | only the handle of an identity on the own PDS changes |
| HandleSearch.CandidatesDistinct | src/atproto-identity/atproto-identity.service.ts:348-365 | no two candidates are the same handle |
| HandleSearch.TrimExactly | src/atproto-identity/atproto-identity.service.ts:322 | trimming takes off the white space at both ends and nothing else |
| HandleSearch.Base | src/atproto-identity/atproto-identity.service.ts:322-340 | the base is the longest start of the trimmed slug within 16 characters that does not end in a hyphen |
| HandleSearch.DecimalReads | src/atproto-identity/atproto-identity.service.ts:348-365 | the number appended to a candidate reads back as its index |
| HandleSearch.GenerateUniqueHandle | src/atproto-identity/atproto-identity.service.ts:317-370 | the loop equals the search function, returns the candidate of its last probe, and probes at most 99 times |
| HandleSearch.FirstFreeCandidate | src/auth/auth.service.ts:1858-1917 | a candidate is returned exactly when it is free and all before it are taken; the search gives up exactly when all 99 are taken |
| HandleSearch.HandleFits | src/auth/auth.service.ts:1873-1911 | the handle found has at most 18 characters before the domain |
| HandleSearch.CreateAccount | src/auth/auth.service.ts:1742-1846 | the first round that is not a lost race decides; at most five creations and one account, which may stay without an identity; the login path passes over a missing slug and a taken email |
| HandleSearch.DecisiveIsFirst | src/auth/auth.service.ts:1767-1840 | rounds are repeated exactly while the handle is taken between check and creation |
| BlockedIp.FoldIsSigned | src/bluesky/bluesky-identity.service.ts:76-80 | the shift-and-add fold is the address as a signed 32-bit number |
| BlockedIp.SignedRangeTestExactly | src/bluesky/bluesky-identity.service.ts:85-105 | signed comparison decides a range rightly for all addresses exactly when the range does not cross 128.0.0.0 |
| BlockedIp.BlockedExactly | src/bluesky/bluesky-identity.service.ts:57-105 | an IPv4 address is blocked exactly when it lies in one of the eight CIDR blocks |
| ImageLadder.NormalizeForBlob | src/bluesky/event-image-blob.service.ts:284-373 | the quality loop and the ladder equal going down nine settings in order, with at most nine encodes |
| ImageLadder.BestFittingSetting | src/bluesky/event-image-blob.service.ts:318-373 | for any encoder the result is the first setting's output under the limit, and none exactly when all nine are over |

## Left out

- Nest wiring, guards, OAuth client flows, tokens, mail, metrics, tracing, the embed widget and scripts: plumbing without state worth modelling.
- RSVP publishing from the publisher service and its status maps: the same put-then-report shape as `Rsvp`, without a merge.
- An edit made between the scheduler's load and its mark may stay unpublished until the next edit; eventual publication is not claimed.
- ActivityFeed.Feed.Create: one call is one instant; two calls racing between lookup and insert can create two entries, because the source takes no lock.
- ActivityFeed.WindowSpacing: the cutoff is computed in local minutes; the model assumes a zone without clock changes.
- ActivityFeed.EntriesPerKey: the key's text is modelled as its fields, which its fixed-width hour and numeric id determine.
- KeysetPagination.GetMyEvents: `take` is modelled as its comment says, the first limit + 1 rows; whether the query builder applies it to raw results is a library matter. The organizer and attendee lookups for the rows of a page are left out. A user has at most one membership row per group here; the table does not constrain it, and a second row would repeat the group's events.
- PublishProtocol.Apply: one organizer DID for all puts of the event; the update handler's own put takes it from the event's source columns. The create handler's own put comes before the row exists, so it is a starting state: a record without a CID.
- Publisher.NeedsRepublish: stamps are whole microseconds from 1970 on, and a date is their milliseconds rounded down.
- Publisher.PublishesExactly: the organizer's identity, the session, the image upload and lexicon validation are answers, not modelled services.
- KeysetPagination.PagesAreTheWholeListExactly: every request of a walk uses the same filters; a request without `fromDate` starts at the current time, which moves between requests.
- HandleCache.HandleAgreement: the age of a cached handle is measured from when Redis stored it to when Redis read it; the store can land some time after the resolution.
- ConnectionCache.ConnectionCache.GetTenantConnection: destroying evicted connections is outside the cache map; overlapping calls are covered by `ConnectionPool`.
- RedisLock.MutualExclusion: the hypothesis that holders finish in time is the caller's; the code does not extend or fence locks.
- Publisher.PublishEvent: the identity lookup answers yes or no, because `ensureIdentityForUser` catches its own errors.
- IdentityCustody.IdentityStore.UpdateHandle: the checks against the PDS are one yes-or-no parameter.
- The fingerprint of a query is a function of the sanitized text; its hash and case folding are not modelled.
- The retries of session restore: only its lock is modelled.
- HandleSearch.GenerateUniqueHandle: a configuration value with several domains is used as it stands.
- IPv6 addresses, DNS lookups and redirects in the PDS address check.
- Multi-tenant migration rollback: all-or-nothing holds only in a narrow case.
- Image decoding, resizing and metadata detection: arbitrary answers of the encoder and the decoder.

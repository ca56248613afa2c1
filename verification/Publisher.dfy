/**
 Publishing one event: createEventRecord's compare-and-swap put with its error re-wrap
 (src/bluesky/bluesky.service.ts) and AtprotoPublisherService's classification of the outcome
 (src/atproto-publisher/atproto-publisher.service.ts).
 */
module Publisher {
  import opened Basics
  import opened RecordMerge
  import opened EventRecord
  import AtUri

  /** Content addressing: a CID determines its record. */
  datatype Cid = CidOf(record: Record)

  datatype Visibility = Public | Unlisted | Private

  /** The event row: local columns, then the ATProto sync columns, then its timestamps. */
  datatype Row = Row(
    content: EventContent,
    visibility: Visibility,
    sourceType: Option<string>,
    sourceRkey: Option<string>,
    hasUser: bool,
    uri: Option<string>,
    rkey: Option<string>,
    cid: Option<Cid>,
    record: Option<Record>,
    updatedAt: int,
    syncedAt: Option<int>)

  /** What a JavaScript Error carries as far as the callers look. */
  datatype JsError = JsError(message: string, code: Option<string>, status: Option<int>)

  datatype RecordKey = RecordKey(did: string, rkey: string)

  /** The records of one collection on the PDS. */
  type Repo = map<RecordKey, Record>

  datatype Session = NoSession | Unavailable | SessionThrows(error: JsError) | Session(did: string)

  /** Everything one publish meets outside the two services. */
  datatype Attempt = Attempt(
    force: bool,
    identity: bool,
    session: Session,
    image: ImageUpload,
    lexiconError: Option<string>,
    networkError: Option<JsError>,
    replyLost: Option<JsError>,
    freshTid: string)

  datatype Receipt = Receipt(rkey: string, cid: Cid, record: Record)

  datatype PublishResult =
    | Skipped
    | Conflict
    | SessionError
    | ValidationError(text: string)
    | Written(update: bool, uri: string, receipt: Receipt)

  const SWAP_CODE := "InvalidSwap"

  /** The XRPC error of a rejected swap; its message names a CID, never the code. */
  const SWAP_REJECTED: JsError := JsError("Record was at ", Some(SWAP_CODE), Some(400))

  /** com.atproto.repo.putRecord refuses a `swapRecord` that is not the CID of the current record. */
  predicate SwapAccepts(repo: Repo, key: RecordKey, swap: Option<Cid>) {
    swap.Some? ==> key in repo && CidOf(repo[key]) == swap.value
  }

  /** A truthy optional string. */
  predicate NonEmpty(text: Option<string>) {
    text.Some? && text.value != ""
  }

  function RkeyOf(row: Row, freshTid: string): string {
    if NonEmpty(row.rkey) then row.rkey.value
    else if NonEmpty(row.sourceRkey) then row.sourceRkey.value
    else freshTid
  }

  /** The re-wrap: message prefixed with the event name, XRPC code and status preserved. */
  function WrapError(name: string, error: JsError): JsError {
    JsError("Failed to create Bluesky event " + "\"" + name + "\"" + ": " + error.message, error.code, error.status)
  }

  function Base(row: Row): Record {
    if row.record.Some? then row.record.value else map[]
  }

  /** Nothing stops this attempt before the PDS decides. */
  predicate Sendable(row: Row, a: Attempt, config: Config) {
    Readable(Base(row), config.sourceId) && a.lexiconError.None? && a.networkError.None?
  }

  /** The record this attempt asks the PDS to store, or why it never asks. */
  function Request(row: Row, a: Attempt, config: Config): (request: Outcome<Record, JsError>)
    ensures request.Ok? <==> Sendable(row, a, config)
  {
    match PublishedRecord(row.content, Base(row), a.image, config)
    case Throws(_) => Throws(JsError("Cannot read stored entries", None, None))
    case Ok(record) =>
      if a.lexiconError.Some?
      then Throws(JsError("AT Protocol record validation failed: " + a.lexiconError.value, None, None))
      else if a.networkError.Some? then Throws(a.networkError.value)
      else Ok(record)
  }

  /** Whether the PDS stores the record, even if the caller never learns it. */
  predicate Stores(row: Row, repo: Repo, did: string, a: Attempt, config: Config) {
    Sendable(row, a, config) && SwapAccepts(repo, RecordKey(did, RkeyOf(row, a.freshTid)), row.cid)
  }

  function RepoAfter(row: Row, repo: Repo, did: string, a: Attempt, config: Config): Repo {
    if Stores(row, repo, did, a, config)
    then repo[RecordKey(did, RkeyOf(row, a.freshTid)) := Request(row, a, config).value]
    else repo
  }

  /** What createEventRecord returns or throws. */
  function CreateEventRecord(row: Row, repo: Repo, did: string, a: Attempt, config: Config): Outcome<Receipt, JsError> {
    var request := Request(row, a, config);
    var key := RecordKey(did, RkeyOf(row, a.freshTid));
    if request.Throws? then Throws(WrapError(row.content.name, request.error))
    else if !SwapAccepts(repo, key, row.cid) then Throws(WrapError(row.content.name, SWAP_REJECTED))
    else if a.replyLost.Some? then Throws(WrapError(row.content.name, a.replyLost.value))
    else Ok(Receipt(key.rkey, CidOf(request.value), request.value))
  }

  // ---------------------------------------------------------------- the publisher's decisions

  predicate ShouldPublish(row: Row) {
    row.visibility.Public? && (row.content.status.Published? || row.content.status.Cancelled?) && row.sourceType.None?
  }

  /** The columns hold microseconds, the loaded dates only milliseconds. */
  function Millis(stamp: int): int {
    stamp / 1000
  }

  predicate NeedsRepublish(row: Row) {
    !NonEmpty(row.uri) || row.syncedAt.None? || Millis(row.updatedAt) > Millis(row.syncedAt.value)
  }

  predicate IsConflict(error: JsError) {
    error.code == Some(SWAP_CODE) || error.status == Some(409) || Includes(error.message, SWAP_CODE)
  }

  const VALIDATION_PREFIX := "AT Protocol record validation failed:"

  function Classify(error: JsError): Outcome<PublishResult, JsError> {
    if IsConflict(error) then Ok(Conflict)
    else if VALIDATION_PREFIX <= error.message then Ok(ValidationError(error.message))
    else Throws(error)
  }

  function EventUri(did: string, rkey: string): string {
    "at://" + did + "/community.lexicon.calendar.event/" + rkey
  }

  /** The publisher's answer for one event. */
  function PublishOutcome(row: Row, repo: Repo, a: Attempt, config: Config): Outcome<PublishResult, JsError> {
    if !ShouldPublish(row) || !(a.force || NeedsRepublish(row)) then Ok(Skipped)
    else if !row.hasUser then Throws(JsError("Event has no organizer", None, None))
    else if !a.identity then Ok(Skipped)
    else
      match a.session
      case NoSession => Ok(Skipped)
      case Unavailable => Ok(SessionError)
      case SessionThrows(error) => Throws(error)
      case Session(did) =>
        (match CreateEventRecord(row, repo, did, a, config)
         case Throws(error) => Classify(error)
         case Ok(receipt) => Ok(Written(NonEmpty(row.uri), EventUri(did, receipt.rkey), receipt)))
  }

  /** The PDS after one publish. */
  function PublishRepo(row: Row, repo: Repo, a: Attempt, config: Config): Repo {
    if ShouldPublish(row) && (a.force || NeedsRepublish(row)) && row.hasUser && a.identity && a.session.Session?
    then RepoAfter(row, repo, a.session.did, a, config)
    else repo
  }

  class Pds {
    var records: Repo

    constructor ()
      ensures records == map[]
    {
      records := map[];
    }

    /** Compare-and-swap write. */
    method PutRecord(key: RecordKey, record: Record, swapRecord: Option<Cid>) returns (reply: Outcome<Cid, JsError>)
      modifies this
      ensures SwapAccepts(old(records), key, swapRecord) ==>
        reply == Ok(CidOf(record)) && records == old(records)[key := record]
      ensures !SwapAccepts(old(records), key, swapRecord) ==>
        reply == Throws(SWAP_REJECTED) && records == old(records)
    {
      if swapRecord.Some? {
        if key !in records || CidOf(records[key]) != swapRecord.value {
          return Throws(SWAP_REJECTED);
        }
      }
      records := records[key := record];
      reply := Ok(CidOf(record));
    }
  }

  /** createEventRecord, step by step against a PDS. */
  method CreateOnPds(row: Row, pds: Pds, did: string, a: Attempt, config: Config)
    returns (reply: Outcome<Receipt, JsError>)
    modifies pds
    ensures reply == CreateEventRecord(row, old(pds.records), did, a, config)
    ensures pds.records == RepoAfter(row, old(pds.records), did, a, config)
  {
    var rkey := a.freshTid;
    if NonEmpty(row.rkey) {
      rkey := row.rkey.value;
    } else if NonEmpty(row.sourceRkey) {
      rkey := row.sourceRkey.value;
    }
    var built := BuildEventRecord(row.content, row.record, a.image, config);
    if built.Throws? {
      return Throws(WrapError(row.content.name, JsError("Cannot read stored entries", None, None)));
    }
    if a.lexiconError.Some? {
      return Throws(WrapError(row.content.name,
        JsError("AT Protocol record validation failed: " + a.lexiconError.value, None, None)));
    }
    if a.networkError.Some? {
      return Throws(WrapError(row.content.name, a.networkError.value));
    }
    var put := pds.PutRecord(RecordKey(did, rkey), built.value, row.cid);
    if put.Throws? {
      return Throws(WrapError(row.content.name, put.error));
    }
    if a.replyLost.Some? {
      return Throws(WrapError(row.content.name, a.replyLost.value));
    }
    reply := Ok(Receipt(rkey, put.value, built.value));
  }

  /** publishEvent and doPublishEvent, step by step against a PDS. */
  method PublishEvent(row: Row, pds: Pds, a: Attempt, config: Config) returns (answer: Outcome<PublishResult, JsError>)
    modifies pds
    ensures answer == PublishOutcome(row, old(pds.records), a, config)
    ensures pds.records == PublishRepo(row, old(pds.records), a, config)
  {
    if !ShouldPublish(row) {
      return Ok(Skipped);
    }
    if !a.force && !NeedsRepublish(row) {
      return Ok(Skipped);
    }
    var isUpdate := NonEmpty(row.uri);
    if !row.hasUser {
      return Throws(JsError("Event has no organizer", None, None));
    }
    if !a.identity {
      return Ok(Skipped);
    }
    match a.session {
      case NoSession => answer := Ok(Skipped);
      case Unavailable => answer := Ok(SessionError);
      case SessionThrows(error) => answer := Throws(error);
      case Session(did) =>
        var created := CreateOnPds(row, pds, did, a, config);
        match created {
          case Throws(error) => answer := Classify(error);
          case Ok(receipt) => answer := Ok(Written(isUpdate, EventUri(did, receipt.rkey), receipt));
        }
    }
  }

  // ---------------------------------------------------------------- error classification

  lemma PartBefore(a: string, b: string, i: nat, n: nat)
    requires i + n <= |a|
    ensures (a + b)[i..][..n] == a[i..][..n]
  {
  }

  lemma PartBehind(a: string, b: string, i: nat, n: nat)
    requires i + n <= |b|
    ensures (a + b)[|a| + i..][..n] == b[i..][..n]
  {
    assert (a + b)[|a| + i..] == b[i..];
  }

  /** A pattern without the separator cannot straddle it. */
  lemma IncludesAcross(a: string, separator: char, b: string, part: string)
    requires part != "" && separator !in part
    ensures Includes(a + [separator] + b, part) <==> Includes(a, part) || Includes(b, part)
  {
    var head := a + [separator];
    var text := head + b;
    if Includes(text, part) {
      var i :| 0 <= i <= |text| - |part| && text[i..][..|part|] == part;
      assert text[|a|] == separator;
      NotStraddled(text, i, |a|, part);
      if i + |part| <= |a| {
        assert text == a + ([separator] + b);
        PartBefore(a, [separator] + b, i, |part|);
      } else {
        PartBehind(head, b, i - |head|, |part|);
      }
    }
    if Includes(a, part) {
      var i :| 0 <= i <= |a| - |part| && a[i..][..|part|] == part;
      assert text == a + ([separator] + b);
      PartBefore(a, [separator] + b, i, |part|);
    }
    if Includes(b, part) {
      var i :| 0 <= i <= |b| - |part| && b[i..][..|part|] == part;
      PartBehind(head, b, i, |part|);
    }
  }

  lemma NotStraddled(text: string, i: nat, k: nat, part: string)
    requires i + |part| <= |text| && text[i..][..|part|] == part && k < |text| && text[k] !in part
    ensures i + |part| <= k || k < i
  {
    assert forall m :: i <= m < i + |part| ==> text[m] == part[m - i];
  }

  /** Text lacking the first character of a pattern cannot start an occurrence of it. */
  lemma IncludesAfter(prefix: string, b: string, part: string)
    requires part != "" && part[0] !in prefix
    ensures Includes(prefix + b, part) <==> Includes(b, part)
  {
    var text := prefix + b;
    if Includes(text, part) {
      var i :| 0 <= i <= |text| - |part| && text[i..][..|part|] == part;
      assert text[i] == part[0];
      assert i >= |prefix|;
      PartBehind(prefix, b, i - |prefix|, |part|);
    }
    if Includes(b, part) {
      var i :| 0 <= i <= |b| - |part| && b[i..][..|part|] == part;
      PartBehind(prefix, b, i, |part|);
    }
  }

  /** The re-wrapped message mentions the swap code exactly when the event name or the cause did. */
  lemma WrappedMentionsSwap(name: string, error: JsError)
    ensures Includes(WrapError(name, error).message, SWAP_CODE)
      <==> Includes(name, SWAP_CODE) || Includes(error.message, SWAP_CODE)
  {
    var prefix := "Failed to create Bluesky event ";
    var rest := name + ['"'] + (": " + error.message);
    assert WrapError(name, error).message == prefix + ['"'] + rest;
    IncludesAcross(prefix, '"', rest, SWAP_CODE);
    IncludesAcross(name, '"', ": " + error.message, SWAP_CODE);
    IncludesAfter(": ", error.message, SWAP_CODE);
    IncludesAfter(prefix, "", SWAP_CODE);
    assert prefix + "" == prefix;
  }

  /** After the re-wrap a failure is taken for a conflict in exactly these cases. */
  lemma ConflictExactly(name: string, error: JsError)
    ensures Classify(WrapError(name, error)) == Ok(Conflict)
       <==> error.code == Some(SWAP_CODE) || error.status == Some(409)
            || Includes(error.message, SWAP_CODE) || Includes(name, SWAP_CODE)
  {
    WrappedMentionsSwap(name, error);
  }

  /** A lexicon failure never reaches the caller as a validation result: the re-wrap hides its prefix. */
  lemma ValidationIsNeverTyped(name: string, error: JsError)
    ensures !(Classify(WrapError(name, error)).Ok? && Classify(WrapError(name, error)).value.ValidationError?)
  {
    assert WrapError(name, error).message[0] == 'F';
    assert VALIDATION_PREFIX[0] == 'A';
  }

  /** Every rejected swap is reported as a conflict, whatever the event is called. */
  lemma RejectedSwapIsConflict(row: Row, repo: Repo, a: Attempt, config: Config)
    requires ShouldPublish(row) && (a.force || NeedsRepublish(row)) && row.hasUser && a.identity && a.session.Session?
    requires Sendable(row, a, config)
    requires !SwapAccepts(repo, RecordKey(a.session.did, RkeyOf(row, a.freshTid)), row.cid)
    ensures PublishOutcome(row, repo, a, config) == Ok(Conflict)
    ensures PublishRepo(row, repo, a, config) == repo
  {
  }

  // ---------------------------------------------------------------- which events are published

  /** What a publish needs before the PDS decides, by the row's columns and the answers on the way. */
  predicate Publishable(row: Row, a: Attempt, config: Config) {
    && row.visibility == Public && row.sourceType == None
    && (row.content.status == Published || row.content.status == Cancelled)
    && (a.force || row.uri == None || row.uri == Some("") || row.syncedAt == None
        || row.updatedAt / 1000 > row.syncedAt.value / 1000)
    && row.hasUser && a.identity && a.session.Session?
    && Readable(Base(row), config.sourceId) && a.lexiconError == None && a.networkError == None
  }

  /** No `swapRecord`, or the PDS has the very record whose CID the row holds. */
  predicate SwapHolds(row: Row, repo: Repo, key: RecordKey) {
    row.cid == None || (key in repo && row.cid == Some(CidOf(repo[key])))
  }

  /** An event is published exactly when it is public, published or cancelled, native, due for it, has an organizer
      with identity and session, a readable base and no failure on the way, and the PDS accepts the swap. The
      PDS then has the assembled record under the event's key, and in all other cases it is untouched. */
  lemma PublishesExactly(row: Row, repo: Repo, a: Attempt, config: Config)
    requires a.session.Session?
    ensures var key := RecordKey(a.session.did, RkeyOf(row, a.freshTid));
      var record := PublishedRecord(row.content, Base(row), a.image, config);
      var written := Publishable(row, a, config) && SwapHolds(row, repo, key);
      && (written ==> record.Ok? && PublishRepo(row, repo, a, config) == repo[key := record.value])
      && (!written ==> PublishRepo(row, repo, a, config) == repo)
  {
    SendableExactly(row, a, config);
    RepoExactly(row, repo, a, config);
  }

  lemma RepoExactly(row: Row, repo: Repo, a: Attempt, config: Config)
    requires a.session.Session?
    ensures var key := RecordKey(a.session.did, RkeyOf(row, a.freshTid));
      PublishRepo(row, repo, a, config)
        == if ShouldPublish(row) && (a.force || NeedsRepublish(row)) && row.hasUser && a.identity
              && Sendable(row, a, config) && SwapHolds(row, repo, key)
           then repo[key := Request(row, a, config).value] else repo
  {
  }

  lemma SendableExactly(row: Row, a: Attempt, config: Config)
    ensures Sendable(row, a, config) ==>
      var record := PublishedRecord(row.content, Base(row), a.image, config);
      record.Ok? && Request(row, a, config) == Ok(record.value)
    ensures ShouldPublish(row) && (a.force || NeedsRepublish(row)) && row.hasUser && a.identity && a.session.Session?
              && Sendable(row, a, config)
       <==> Publishable(row, a, config)
  {
  }

  /** Without a session nothing reaches the PDS. */
  lemma NoSessionNoPublish(row: Row, repo: Repo, a: Attempt, config: Config)
    requires !a.session.Session?
    ensures PublishRepo(row, repo, a, config) == repo
    ensures !(PublishOutcome(row, repo, a, config).Ok? && PublishOutcome(row, repo, a, config).value.Written?)
  {
  }

  /** The caller learns that the record is written exactly when it is and the reply arrives, and learns its CID. */
  lemma WrittenExactly(row: Row, repo: Repo, a: Attempt, config: Config)
    requires a.session.Session?
    ensures var key := RecordKey(a.session.did, RkeyOf(row, a.freshTid));
      var outcome := PublishOutcome(row, repo, a, config);
      && (outcome.Ok? && outcome.value.Written?
          <==> Publishable(row, a, config) && SwapHolds(row, repo, key) && a.replyLost == None)
      && (outcome.Ok? && outcome.value.Written? ==>
            && key in PublishRepo(row, repo, a, config)
            && ReceiptFor(outcome.value, key, PublishRepo(row, repo, a, config)[key]))
  {
    SendableExactly(row, a, config);
    RepoExactly(row, repo, a, config);
    ReplyExactly(row, repo, a, config);
  }

  lemma ReplyExactly(row: Row, repo: Repo, a: Attempt, config: Config)
    requires a.session.Session?
    ensures var key := RecordKey(a.session.did, RkeyOf(row, a.freshTid));
      var outcome := PublishOutcome(row, repo, a, config);
      && (outcome.Ok? && outcome.value.Written? <==>
            && ShouldPublish(row) && (a.force || NeedsRepublish(row)) && row.hasUser && a.identity
            && Sendable(row, a, config) && SwapHolds(row, repo, key) && a.replyLost == None)
      && (outcome.Ok? && outcome.value.Written? ==> ReceiptFor(outcome.value, key, Request(row, a, config).value))
  {
    CreatedExactly(row, repo, a.session.did, a, config);
    WrittenIfCreated(row, repo, a, config);
  }

  lemma CreatedExactly(row: Row, repo: Repo, did: string, a: Attempt, config: Config)
    ensures var key := RecordKey(did, RkeyOf(row, a.freshTid));
      var reply := CreateEventRecord(row, repo, did, a, config);
      && (reply.Ok? <==> Sendable(row, a, config) && SwapHolds(row, repo, key) && a.replyLost == None)
      && (reply.Ok? ==>
            var record := Request(row, a, config).value; reply.value == Receipt(key.rkey, CidOf(record), record))
  {
  }

  lemma WrittenIfCreated(row: Row, repo: Repo, a: Attempt, config: Config)
    requires a.session.Session?
    ensures var reply := CreateEventRecord(row, repo, a.session.did, a, config);
      var outcome := PublishOutcome(row, repo, a, config);
      && (outcome.Ok? && outcome.value.Written? <==>
            ShouldPublish(row) && (a.force || NeedsRepublish(row)) && row.hasUser && a.identity && reply.Ok?)
      && (outcome.Ok? && outcome.value.Written? ==>
            outcome.value == Written(NonEmpty(row.uri), EventUri(a.session.did, reply.value.rkey), reply.value))
  {
    ConflictIsNotWritten(row, repo, a, config);
  }

  /** The answer to a publish that stored `record`. */
  predicate ReceiptFor(result: PublishResult, key: RecordKey, record: Record) {
    && result.Written? && result.receipt.record == record && result.receipt.cid == CidOf(record)
    && result.receipt.rkey == key.rkey && result.uri == EventUri(key.did, key.rkey)
  }

  lemma ConflictIsNotWritten(row: Row, repo: Repo, a: Attempt, config: Config)
    requires a.session.Session?
    ensures var reply := CreateEventRecord(row, repo, a.session.did, a, config);
      reply.Throws? ==> !(Classify(reply.error).Ok? && Classify(reply.error).value.Written?)
  {
  }

  /** The URI reported for a published event leads back to its organizer, collection and record key. */
  lemma EventUriParses(did: string, rkey: string)
    requires '/' !in did && '/' !in rkey
    ensures AtUri.ParseUri("", EventUri(did, rkey))
         == Ok(AtUri.Parts(did, "community.lexicon.calendar.event", rkey))
  {
    EventUriIsPrinted(did, rkey);
    AtUri.CalendarNames("");
    AtUri.SplitPrinted(did, AtUri.EVENT, rkey);
  }

  lemma EventUriIsPrinted(did: string, rkey: string)
    ensures EventUri(did, rkey) == AtUri.Print(did, AtUri.EVENT, rkey)
  {
    assert "/community.lexicon.calendar.event/" == "/" + AtUri.EVENT + "/";
    var a, b := "at://" + did, AtUri.EVENT;
    assert a + ("/" + b + "/") == a + "/" + b + "/";
  }
}

/**
 RSVP records in one user's repository, src/bluesky/bluesky-rsvp.service.ts: the record key is a hash of
 the event URI, creation is a put under that key, deletion parses an RSVP URI and deletes by key.
 */
module Rsvp {
  import opened Basics
  import AtUri

  datatype Status = Going | Interested | NotGoing

  /** The fields of an event row that an RSVP reads; "" is a missing string. */
  datatype Event = Event(
    atprotoUri: string,
    atprotoRkey: string,
    atprotoCid: string,
    fromBluesky: bool,
    sourceRkey: string,
    sourceDid: string,
    sourceCid: string
  )

  datatype Record = Record(eventUri: string, eventCid: Option<string>, status: string, createdAt: int)

  /** The RSVP collection of the user's repository, by record key. */
  type Repo = map<string, Record>

  datatype RsvpError =
    | MissingCreatorDid
    | NoAtprotoSource
    | BadUri(error: AtUri.UriError)
    | NoSession
    | InvalidRecord
    | PutFailed
    | OtherDid
    | DeleteFailed

  /** What the services around one call answer; `reply` is how its put or delete ends. */
  datatype Answers = Answers(session: bool, fetchedCid: Option<string>, recordValid: bool, reply: Reply, now: int)

  /** Two settings: the collection suffix, and the first 13 hexadecimal digits of a hash. */
  datatype Service = Service(suffix: string, rkey: string -> string)

  function StatusName(status: Status): string {
    AtUri.RSVP + match status
                 case Going => "#going"
                 case Interested => "#interested"
                 case NotGoing => "#notgoing"
  }

  /** The event's URI: the published one, or one rebuilt from the import source. */
  function EventUri(service: Service, event: Event): Outcome<string, RsvpError> {
    if event.atprotoUri != "" && event.atprotoRkey != "" then Ok(event.atprotoUri)
    else if event.sourceRkey != "" && event.fromBluesky then
      if event.sourceDid == "" then Throws(MissingCreatorDid)
      else
        match AtUri.CreateUri(service.suffix, AtUri.Parts(event.sourceDid, AtUri.EVENT, event.sourceRkey))
        case Ok(uri) => Ok(uri)
        case Throws(e) => Throws(BadUri(e))
    else Throws(NoAtprotoSource)
  }

  function NonEmpty(s: string): Option<string> {
    if s == "" then None else Some(s)
  }

  /** The stored CID, or for a published event without one the CID fetched on demand. */
  function EventCid(event: Event, fetched: Option<string>): Option<string> {
    if event.atprotoUri != "" && event.atprotoRkey != "" then
      if event.atprotoCid != "" then Some(event.atprotoCid) else if fetched.Some? then NonEmpty(fetched.value) else None
    else NonEmpty(event.sourceCid)
  }

  /** The repository is written: there is a session, and the PDS executes what it is sent, whether or not
      its reply arrives. */
  predicate Writes(a: Answers) {
    a.session && !a.reply.NotExecuted?
  }

  /** Whether the put is reached and the record stored. */
  predicate Stores(service: Service, event: Event, a: Answers) {
    EventUri(service, event).Ok? && a.recordValid && Writes(a)
  }

  /** Whether createRsvp returns: the record is stored, the reply arrives, and the URI of the record can be printed. */
  predicate Succeeds(service: Service, did: string, event: Event, a: Answers) {
    && Stores(service, event, a) && a.reply.Executed?
    && AtUri.IsValidDid(did) && AtUri.IsValidRkey(service.rkey(EventUri(service, event).value))
  }

  function RecordFor(service: Service, event: Event, status: Status, a: Answers): Record
    requires EventUri(service, event).Ok?
  {
    Record(EventUri(service, event).value, EventCid(event, a.fetchedCid), StatusName(status), a.now)
  }

  function AfterCreate(service: Service, repo: Repo, event: Event, status: Status, a: Answers): Repo {
    if Stores(service, event, a)
    then repo[service.rkey(EventUri(service, event).value) := RecordFor(service, event, status, a)]
    else repo
  }

  /** Which record key a deletion names, if it gets as far as deleting. */
  function Target(service: Service, rsvpUri: string, did: string): Outcome<string, RsvpError> {
    match AtUri.ParseUri(service.suffix, rsvpUri)
    case Throws(e) => Throws(BadUri(e))
    case Ok(p) => if p.did != did then Throws(OtherDid) else Ok(p.rkey)
  }

  function AfterDelete(service: Service, repo: Repo, rsvpUri: string, did: string, a: Answers): Repo {
    if Target(service, rsvpUri, did).Ok? && Writes(a)
    then repo - {Target(service, rsvpUri, did).value}
    else repo
  }

  class Pds {
    const did: string
    var records: Repo

    constructor (did: string)
      ensures this.did == did && records == map[]
    {
      this.did, records := did, map[];
    }

    /** createRsvp: the put comes first, the URI is validated and printed afterwards. */
    method CreateRsvp(service: Service, event: Event, status: Status, a: Answers)
      returns (result: Outcome<string, RsvpError>)
      modifies this`records
      ensures records == AfterCreate(service, old(records), event, status, a)
      ensures result.Ok? <==> Succeeds(service, did, event, a)
      ensures EventUri(service, event).Throws? ==> result == Throws(EventUri(service, event).error)
      ensures result.Throws? && Stores(service, event, a) ==>
        (if a.reply.ReplyLost? then result == Throws(PutFailed) else result.error.BadUri?)
      ensures result.Ok? ==>
        AtUri.CreateUri(service.suffix, AtUri.Parts(did, AtUri.RSVP, service.rkey(EventUri(service, event).value)))
          == Ok(result.value)
    {
      AtUri.CalendarNames(service.suffix);
      var eventUri := EventUri(service, event);
      if eventUri.Throws? {
        return Throws(eventUri.error);
      }
      if !a.session {
        return Throws(NoSession);
      }
      var record := Record(eventUri.value, EventCid(event, a.fetchedCid), StatusName(status), a.now);
      var rkey := service.rkey(eventUri.value);
      if !a.recordValid {
        return Throws(InvalidRecord);
      }
      if !a.reply.NotExecuted? {
        records := records[rkey := record];
      }
      if !a.reply.Executed? {
        return Throws(PutFailed);
      }
      var uri := AtUri.CreateUri(service.suffix, AtUri.Parts(did, AtUri.RSVP, rkey));
      match uri
      case Ok(u) => return Ok(u);
      case Throws(e) => return Throws(BadUri(e));
    }

    method DeleteRsvp(service: Service, rsvpUri: string, a: Answers) returns (result: Outcome<(), RsvpError>)
      modifies this`records
      ensures records == AfterDelete(service, old(records), rsvpUri, did, a)
      ensures result.Ok? <==> Target(service, rsvpUri, did).Ok? && a.session && a.reply.Executed?
      ensures Target(service, rsvpUri, did).Throws? ==> result == Throws(Target(service, rsvpUri, did).error)
    {
      var target := Target(service, rsvpUri, did);
      if target.Throws? {
        return Throws(target.error);
      }
      if !a.session {
        return Throws(NoSession);
      }
      if !a.reply.NotExecuted? {
        records := records - {target.value};
      }
      if !a.reply.Executed? {
        return Throws(DeleteFailed);
      }
      return Ok(());
    }
  }

  // ---------------------------------------------------------------- runs of creates and deletes by one user

  datatype Op =
    | Create(event: Event, status: Status, answers: Answers)
    | Delete(rsvpUri: string, answers: Answers)

  function Apply(service: Service, did: string, repo: Repo, op: Op): Repo {
    match op
    case Create(event, status, a) => AfterCreate(service, repo, event, status, a)
    case Delete(uri, a) => AfterDelete(service, repo, uri, did, a)
  }

  function Run(service: Service, did: string, ops: seq<Op>): Repo {
    if ops == [] then map[] else Apply(service, did, Run(service, did, ops[..|ops| - 1]), ops[|ops| - 1])
  }

  /** What the user last said about an event: the latest stored create, unless a delete named its key since. */
  function LastSaid(service: Service, did: string, ops: seq<Op>, uri: string): Option<Record> {
    if ops == [] then None
    else
      var earlier := LastSaid(service, did, ops[..|ops| - 1], uri);
      match ops[|ops| - 1]
      case Create(event, status, a) =>
        if Stores(service, event, a) && EventUri(service, event).value == uri
        then Some(RecordFor(service, event, status, a))
        else earlier
      case Delete(rsvpUri, a) =>
        if Target(service, rsvpUri, did) == Ok(service.rkey(uri)) && Writes(a) then None else earlier
  }

  /** The record that the repository holds for an event URI. */
  function Held(service: Service, repo: Repo, uri: string): Option<Record> {
    var key := service.rkey(uri);
    if key in repo && repo[key].eventUri == uri then Some(repo[key]) else None
  }

  ghost predicate KeysAreHashes(service: Service, repo: Repo) {
    forall key :: key in repo ==> key == service.rkey(repo[key].eventUri)
  }

  lemma {:induction false} RunKeysAreHashes(service: Service, did: string, ops: seq<Op>)
    ensures KeysAreHashes(service, Run(service, did, ops))
  {
    if ops != [] {
      RunKeysAreHashes(service, did, ops[..|ops| - 1]);
    }
  }

  /** However the hash behaves, a repository never holds two RSVPs for one event URI. */
  lemma OneRsvpPerEvent(service: Service, did: string, ops: seq<Op>, a: string, b: string)
    requires var repo := Run(service, did, ops); a in repo && b in repo && repo[a].eventUri == repo[b].eventUri
    ensures a == b
  {
    RunKeysAreHashes(service, did, ops);
  }

  ghost predicate CollisionFree(service: Service, uris: set<string>) {
    forall a, b :: a in uris && b in uris && service.rkey(a) == service.rkey(b) ==> a == b
  }

  ghost predicate About(service: Service, ops: seq<Op>, uris: set<string>) {
    forall i :: 0 <= i < |ops| && ops[i].Create? && EventUri(service, ops[i].event).Ok? ==>
      EventUri(service, ops[i].event).value in uris
  }

  /** The repository is exactly the user's latest word on each event, and holds nothing else. */
  lemma {:induction false} RepoIsLatestWord(service: Service, did: string, ops: seq<Op>, uris: set<string>)
    requires CollisionFree(service, uris) && About(service, ops, uris)
    ensures forall uri :: uri in uris ==> Held(service, Run(service, did, ops), uri) == LastSaid(service, did, ops, uri)
    ensures forall key :: key in Run(service, did, ops) ==>
      Run(service, did, ops)[key].eventUri in uris && key == service.rkey(Run(service, did, ops)[key].eventUri)
  {
    RunKeysAreHashes(service, did, ops);
    if ops != [] {
      var init, last := ops[..|ops| - 1], ops[|ops| - 1];
      assert forall i :: 0 <= i < |init| ==> init[i] == ops[i];
      RepoIsLatestWord(service, did, init, uris);
      var before := Run(service, did, init);
      forall uri | uri in uris
        ensures Held(service, Run(service, did, ops), uri) == LastSaid(service, did, ops, uri)
      {
        StepIsLatestWord(service, did, init, last, uris, uri);
      }
    }
  }

  lemma StepIsLatestWord(service: Service, did: string, init: seq<Op>, last: Op, uris: set<string>, uri: string)
    requires CollisionFree(service, uris) && About(service, [last], uris) && uri in uris
    requires Held(service, Run(service, did, init), uri) == LastSaid(service, did, init, uri)
    ensures Held(service, Apply(service, did, Run(service, did, init), last), uri)
      == LastSaid(service, did, init + [last], uri)
  {
    assert (init + [last])[..|init|] == init && [last][0] == last;
  }

  // ---------------------------------------------------------------- what a create returns, and deleting it

  /** The put precedes the validation: a stored RSVP is reported as failed exactly when the PDS's reply is
      lost, or the user's DID or the key does not pass the URI checks, as a did:web with a port or path
      does not. */
  lemma StoredThoughRefusedExactly(service: Service, repo: Repo, did: string, event: Event, status: Status, a: Answers)
    requires Stores(service, event, a)
    ensures var uri := EventUri(service, event).value; var rkey := service.rkey(uri);
      && Held(service, AfterCreate(service, repo, event, status, a), uri) == Some(RecordFor(service, event, status, a))
      && (!Succeeds(service, did, event, a) <==>
            a.reply.ReplyLost? || !AtUri.IsValidDid(did) || !AtUri.IsValidRkey(rkey))
      && (AtUri.CreateUri(service.suffix, AtUri.Parts(did, AtUri.RSVP, rkey)).Throws? <==>
            !AtUri.IsValidDid(did) || !AtUri.IsValidRkey(rkey))
  {
    AtUri.CalendarNames(service.suffix);
  }

  /** A did:web with a path is such a DID. */
  lemma PathDidIsRefused()
    ensures !AtUri.IsValidDid("did:web:example.com:alice")
  {
    var did := "did:web:example.com:alice";
    assert did[19] == ':' && !AtUri.CollectionChar(did[19]);
  }

  /** Deleting the URI that createRsvp returned removes exactly the record it stored; only a slash in the
      suffix breaks this. */
  lemma DeletingTheReturnedUri(service: Service, repo: Repo, did: string, event: Event, rsvpUri: string, a: Answers)
    requires EventUri(service, event).Ok? && Writes(a)
    requires var rkey := service.rkey(EventUri(service, event).value);
      AtUri.CreateUri(service.suffix, AtUri.Parts(did, AtUri.RSVP, rkey)) == Ok(rsvpUri)
    ensures var rkey := service.rkey(EventUri(service, event).value);
      && (Target(service, rsvpUri, did) == Ok(rkey) <==> '/' !in service.suffix)
      && ('/' !in service.suffix ==> AfterDelete(service, repo, rsvpUri, did, a) == repo - {rkey})
      && ('/' in service.suffix ==> AfterDelete(service, repo, rsvpUri, did, a) == repo)
  {
    var rkey := service.rkey(EventUri(service, event).value);
    var p := AtUri.Parts(did, AtUri.RSVP, rkey);
    AtUri.PartsHaveNoSlash(p);
    AtUri.SplitPrinted(did, AtUri.ApplyCollectionSuffix(service.suffix, AtUri.RSVP), rkey);
    AtUri.SuffixSlash(service.suffix, AtUri.RSVP);
    AtUri.CalendarNames(service.suffix);
    AtUri.NormalizeApplied(service.suffix, AtUri.RSVP);
  }

  /** Creating and then deleting by the returned URI leaves every other record alone and this event without one. */
  lemma CreateThenDelete(
    service: Service, repo: Repo, did: string, event: Event, status: Status, rsvpUri: string, a: Answers, b: Answers)
    requires Stores(service, event, a) && Writes(b) && '/' !in service.suffix
    requires var rkey := service.rkey(EventUri(service, event).value);
      AtUri.CreateUri(service.suffix, AtUri.Parts(did, AtUri.RSVP, rkey)) == Ok(rsvpUri)
    ensures var rkey := service.rkey(EventUri(service, event).value);
      AfterDelete(service, AfterCreate(service, repo, event, status, a), rsvpUri, did, b) == repo - {rkey}
  {
    DeletingTheReturnedUri(service, AfterCreate(service, repo, event, status, a), did, event, rsvpUri, b);
  }

  /** The collection in the URI is not looked at: any valid URI of the user's with this key deletes the RSVP. */
  lemma DeleteIgnoresCollection(service: Service, repo: Repo, p: AtUri.Parts, a: Answers)
    requires AtUri.Valid(p) && Writes(a)
    ensures AfterDelete(service, repo, AtUri.Print(p.did, p.collection, p.rkey), p.did, a) == repo - {p.rkey}
  {
    AtUri.PartsHaveNoSlash(p);
    AtUri.SplitPrinted(p.did, p.collection, p.rkey);
  }

  // ---------------------------------------------------------------- what a create stores, spelled out

  function StatusWord(status: Status): string {
    match status
    case Going => "going"
    case Interested => "interested"
    case NotGoing => "notgoing"
  }

  function FirstNonEmpty(a: string, b: Option<string>): Option<string> {
    if a != "" then Some(a) else if b == Some("") then None else b
  }

  lemma StatusSpelled(status: Status)
    ensures StatusName(status) == "community.lexicon.calendar.rsvp#" + StatusWord(status)
  {
    assert "community.lexicon.calendar.rsvp#" + "going" == "community.lexicon.calendar.rsvp" + "#going";
    assert "community.lexicon.calendar.rsvp#" + "interested" == "community.lexicon.calendar.rsvp" + "#interested";
    assert "community.lexicon.calendar.rsvp#" + "notgoing" == "community.lexicon.calendar.rsvp" + "#notgoing";
  }

  /** An RSVP to a published event names that event, its CID as stored or as fetched, and the user's answer. */
  lemma PublishedEventRsvp(service: Service, repo: Repo, event: Event, status: Status, a: Answers)
    requires event.atprotoUri != "" && event.atprotoRkey != "" && a.recordValid && a.session && a.reply != NotExecuted
    ensures AfterCreate(service, repo, event, status, a)
         == repo[service.rkey(event.atprotoUri) :=
              Record(event.atprotoUri, FirstNonEmpty(event.atprotoCid, a.fetchedCid),
                     "community.lexicon.calendar.rsvp#" + StatusWord(status), a.now)]
  {
    StatusSpelled(status);
  }

  /** An RSVP to an imported event names a URI that leads back to the event's creator and record key. */
  lemma ImportedEventRsvp(service: Service, repo: Repo, event: Event, status: Status, a: Answers)
    returns (uri: string)
    requires event.atprotoUri == "" || event.atprotoRkey == ""
    requires event.fromBluesky && event.sourceRkey != "" && '/' !in service.suffix
    requires AtUri.IsValidDid(event.sourceDid) && AtUri.IsValidRkey(event.sourceRkey)
    requires a.recordValid && a.session && a.reply != NotExecuted
    ensures AtUri.ParseUri(service.suffix, uri) == Ok(AtUri.Parts(event.sourceDid, AtUri.EVENT, event.sourceRkey))
    ensures AfterCreate(service, repo, event, status, a)
         == repo[service.rkey(uri) :=
              Record(uri, FirstNonEmpty(event.sourceCid, None),
                     "community.lexicon.calendar.rsvp#" + StatusWord(status), a.now)]
  {
    var p := AtUri.Parts(event.sourceDid, AtUri.EVENT, event.sourceRkey);
    StatusSpelled(status);
    AtUri.CalendarNames(service.suffix);
    AtUri.ParseOfPrintedExactly(service.suffix, p);
    uri := AtUri.CreateUri(service.suffix, p).value;
  }

  /** Any other event gets no RSVP, and neither does one without a session or whose put is not executed. */
  lemma NothingStoredOtherwise(service: Service, repo: Repo, event: Event, status: Status, a: Answers)
    requires
      || ((event.atprotoUri == "" || event.atprotoRkey == "") && (!event.fromBluesky || event.sourceRkey == ""))
      || !a.recordValid || !a.session || a.reply == NotExecuted
    ensures AfterCreate(service, repo, event, status, a) == repo
  {
  }

  /** A deletion removes one record, the one that a URI of the user's own DID names, and nothing otherwise. */
  lemma DeletesExactly(service: Service, repo: Repo, rsvpUri: string, did: string, a: Answers)
    ensures var parsed := AtUri.ParseUri(service.suffix, rsvpUri);
      AfterDelete(service, repo, rsvpUri, did, a)
        == if parsed.Ok? && parsed.value.did == did && a.session && a.reply != NotExecuted
           then repo - {parsed.value.rkey} else repo
  {
  }
}

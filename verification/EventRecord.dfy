/**
 The record that BlueskyService.createEventRecord (src/bluesky/bluesky.service.ts) sends to the
 organizer's PDS: merge base, source-tagged arrays, three-case media rule, rebuilt metadata.
 */
module EventRecord {
  import opened Basics
  import opened RecordMerge

  /** Top-level field names: the twelve the publisher writes, and every other name. */
  datatype Field =
    | TypeTag | Name | Description | CreatedAt | StartsAt | EndsAt | Mode | Status
    | Locations | Uris | Media | OpenMeetMeta
    | Unknown(text: string)

  type Record = map<Field, Json>

  datatype EventType = InPerson | Online | Hybrid

  datatype EventStatus = Draft | Pending | Published | Cancelled

  /** The local columns that are copied into the record; dates are already ISO strings. */
  datatype EventContent = EventContent(
    name: string,
    slug: string,
    description: Option<string>,
    createdAt: Option<string>,
    startDate: Option<string>,
    endDate: Option<string>,
    kind: EventType,
    status: EventStatus,
    location: string,
    lat: Option<string>,
    lon: Option<string>,
    locationOnline: string,
    seriesSlug: Option<string>)

  /** What the image step of one publish came to. */
  datatype ImageUpload =
    | NoImage
    | UploadFailed
    | Uploaded(blob: Json, sourceKey: string, size: Option<(int, int)>)

  /** Deployment configuration read by the publisher. */
  datatype Config = Config(sourceId: string, baseUrl: string)

  function FieldOf(record: Record, field: Field): Json {
    if field in record then record[field] else Null
  }

  function OrNull(text: Option<string>): Json {
    if text.Some? then Str(text.value) else Null
  }

  // ---------------------------------------------------------------- parts of the record

  /** Case-insensitive `^https?://`. */
  predicate HasScheme(url: string) {
    var lower := seq(|url|, i requires 0 <= i < |url| =>
      if 'A' <= url[i] <= 'Z' then url[i] - 'A' + 'a' else url[i]);
    "http://" <= lower || "https://" <= lower
  }

  function EnsureUri(url: string): string {
    if HasScheme(url) then url else "https://" + url
  }

  function ModeOf(kind: EventType): string {
    match kind
    case InPerson => "community.lexicon.calendar.event#inperson"
    case Online => "community.lexicon.calendar.event#virtual"
    case Hybrid => "community.lexicon.calendar.event#hybrid"
  }

  function StatusOf(status: EventStatus): string {
    match status
    case Draft => "community.lexicon.calendar.event#planned"
    case Pending => "community.lexicon.calendar.event#scheduled"
    case Published => "community.lexicon.calendar.event#scheduled"
    case Cancelled => "community.lexicon.calendar.event#cancelled"
  }

  function GeoEntry(e: EventContent, sourceId: string): Json
    requires e.lat.Some? && e.lon.Some?
  {
    Obj(map["$type" := Str("community.lexicon.location.geo"), "latitude" := Str(e.lat.value),
            "longitude" := Str(e.lon.value), "name" := Str(e.location), "source" := Str(sourceId)])
  }

  function UriEntry(uri: string, name: string, sourceId: string): Json {
    Obj(map["$type" := Str("community.lexicon.calendar.event#uri"), "uri" := Str(uri),
            "name" := Str(name), "source" := Str(sourceId)])
  }

  function MeetingEntries(e: EventContent, sourceId: string): seq<Json> {
    if e.locationOnline != "" then [UriEntry(EnsureUri(e.locationOnline), "Online Meeting Link", sourceId)] else []
  }

  /** Exactly the location entries this deployment owns for the event. */
  function OpenMeetLocations(e: EventContent, sourceId: string): (entries: seq<Json>)
    ensures AllTagged(entries, sourceId)
  {
    (if e.location != "" && e.lat.Some? && e.lon.Some? then [GeoEntry(e, sourceId)] else [])
    + MeetingEntries(e, sourceId)
  }

  /** Exactly the uri entries this deployment owns: the event page is linked once. */
  function OpenMeetUris(e: EventContent, config: Config): (entries: seq<Json>)
    ensures AllTagged(entries, config.sourceId)
  {
    var meetingLinksHere := e.locationOnline != "" && Includes(EnsureUri(e.locationOnline), "/events/" + e.slug);
    MeetingEntries(e, config.sourceId)
    + (if meetingLinksHere then []
       else [UriEntry(config.baseUrl + "/events/" + e.slug, "OpenMeet Event", config.sourceId)])
  }

  predicate IsThumbnail(entry: Json) {
    Get(entry, "role") == Str("thumbnail")
  }

  /** `Array.isArray(base.media) ? base.media : []`. */
  function MediaEntries(record: Record): seq<Json> {
    var media := FieldOf(record, Media);
    if media.Arr? then media.items else []
  }

  function Thumbnails(record: Record): seq<Json> {
    Filter(IsThumbnail, MediaEntries(record))
  }

  function ForeignMedia(record: Record): seq<Json> {
    Filter(m => !IsThumbnail(m), MediaEntries(record))
  }

  function ImageKey(record: Record): Json {
    Get(FieldOf(record, OpenMeetMeta), "imageSourceKey")
  }

  function ThumbnailEntry(blob: Json, alt: string, size: Option<(int, int)>): Json {
    Obj(map["role" := Str("thumbnail"), "content" := blob, "alt" := Str(alt)]
        + (if size.Some? then
           map["aspect_ratio" := Obj(map["width" := Num(size.value.0), "height" := Num(size.value.1)])]
           else map[]))
  }

  /** The thumbnail the new record carries, if any. */
  function OwnMedia(base: Record, image: ImageUpload, alt: string): seq<Json> {
    match image
    case Uploaded(blob, _, size) => if Truthy(blob) then [ThumbnailEntry(blob, alt, size)] else []
    case UploadFailed => Thumbnails(base)[..if Thumbnails(base) == [] then 0 else 1]
    case NoImage => []
  }

  function MediaAfter(base: Record, image: ImageUpload, alt: string): Json {
    var entries := ForeignMedia(base) + OwnMedia(base, image, alt);
    if entries == [] then Null else Arr(entries)
  }

  function KeyAfter(base: Record, image: ImageUpload): Json {
    match image
    case Uploaded(_, key, _) => if key != "" then Str(key) else Null
    case UploadFailed => if ImageKey(base).Str? then ImageKey(base) else Null
    case NoImage => Null
  }

  function MetaFields(e: EventContent, base: Record, image: ImageUpload): map<string, Json> {
    (if e.seriesSlug.Some? then map["seriesSlug" := Str(e.seriesSlug.value), "isRecurring" := Bool(true)] else map[])
    + (if KeyAfter(base, image) != Null then map["imageSourceKey" := KeyAfter(base, image)] else map[])
  }

  function MetaAfter(e: EventContent, base: Record, image: ImageUpload): Json {
    if MetaFields(e, base, image) == map[] then Null else Obj(MetaFields(e, base, image))
  }

  // ---------------------------------------------------------------- the whole record

  /** The value of each field of the new record, Null when the record has no such field. */
  function FieldAfter(
    field: Field, e: EventContent, base: Record, image: ImageUpload, locations: seq<Json>, uris: seq<Json>): Json {
    match field
    case TypeTag => Str("community.lexicon.calendar.event")
    case Name => Str(e.name)
    case Description => OrNull(e.description)
    case CreatedAt => if FieldOf(base, CreatedAt) != Null then base[CreatedAt] else OrNull(e.createdAt)
    case StartsAt => OrNull(e.startDate)
    case EndsAt => OrNull(e.endDate)
    case Mode => Str(ModeOf(e.kind))
    case Status => Str(StatusOf(e.status))
    case Locations => Arr(locations)
    case Uris => Arr(uris)
    case Media => MediaAfter(base, image, e.name)
    case OpenMeetMeta => MetaAfter(e, base, image)
    case Unknown(_) => FieldOf(base, field)
  }

  const MANAGED: set<Field> := {TypeTag, Name, Description, CreatedAt, StartsAt, EndsAt, Mode, Status,
                                Locations, Uris, Media, OpenMeetMeta}

  /** The record whose fields are FieldAfter's non-null values. */
  function RecordWith(e: EventContent, base: Record, image: ImageUpload, locations: seq<Json>, uris: seq<Json>)
    : Record
  {
    map f | f in base.Keys + MANAGED && FieldAfter(f, e, base, image, locations, uris) != Null
      :: FieldAfter(f, e, base, image, locations, uris)
  }

  /** A merge base whose two merged arrays the publisher can read. */
  predicate Readable(base: Record, sourceId: string) {
    && MergeArrayField(FieldOf(base, Locations), [], sourceId).Ok?
    && MergeArrayField(FieldOf(base, Uris), [], sourceId).Ok?
  }

  /** The record put to the PDS, or the TypeError raised while merging malformed arrays, whatever the event. */
  function PublishedRecord(e: EventContent, base: Record, image: ImageUpload, config: Config)
    : (published: Outcome<Record, TypeError>)
    ensures published.Ok? <==> Readable(base, config.sourceId)
  {
    var locations := MergeArrayField(FieldOf(base, Locations), OpenMeetLocations(e, config.sourceId), config.sourceId);
    var uris := MergeArrayField(FieldOf(base, Uris), OpenMeetUris(e, config), config.sourceId);
    if locations.Throws? || uris.Throws? then Throws(TypeError)
    else Ok(RecordWith(e, base, image, locations.value, uris.value))
  }

  /** `stripNullish`: null-valued fields are dropped. */
  function StripNullish(record: Record): Record {
    map f | f in record && record[f] != Null :: record[f]
  }

  function Find(test: Json -> bool, items: seq<Json>): Option<Json> {
    if items == [] then None
    else if test(items[0]) then Some(items[0])
    else Find(test, items[1..])
  }

  lemma {:induction false} FindIsFirstKept(test: Json -> bool, items: seq<Json>)
    ensures Find(test, items) == if Filter(test, items) == [] then None else Some(Filter(test, items)[0])
  {
    if items != [] {
      FindIsFirstKept(test, items[1..]);
    }
  }

  /** A record with one field set, or deleted when its value is Null. */
  function WithField(record: Record, field: Field, value: Json): Record {
    if value == Null then record - {field} else record[field := value]
  }

  /** The fields written over the merge base by the object literal. */
  function Literal(e: EventContent, base: Record, locations: seq<Json>, uris: seq<Json>): Record {
    map[
      TypeTag := Str("community.lexicon.calendar.event"),
      Name := Str(e.name),
      Description := OrNull(e.description),
      CreatedAt := if FieldOf(base, CreatedAt) != Null then base[CreatedAt] else OrNull(e.createdAt),
      StartsAt := OrNull(e.startDate),
      EndsAt := OrNull(e.endDate),
      Mode := Str(ModeOf(e.kind)),
      Status := Str(StatusOf(e.status)),
      Locations := Arr(locations),
      Uris := Arr(uris)]
  }

  lemma LiteralNames(e: EventContent, base: Record, locations: seq<Json>, uris: seq<Json>)
    ensures Literal(e, base, locations, uris).Keys == MANAGED - {Media, OpenMeetMeta}
  {
  }

  lemma LiteralFields(f: Field, e: EventContent, base: Record, locations: seq<Json>, uris: seq<Json>)
    ensures f in Literal(e, base, locations, uris) ==>
      Literal(e, base, locations, uris)[f] == FieldAfter(f, e, base, NoImage, locations, uris)
  {
    match f
    case Media =>
    case OpenMeetMeta =>
    case Unknown(_) =>
    case _ =>
  }

  method BuildLocations(e: EventContent, sourceId: string) returns (locations: seq<Json>)
    ensures locations == OpenMeetLocations(e, sourceId)
  {
    locations := [];
    if e.location != "" && e.lat.Some? && e.lon.Some? {
      locations := locations + [GeoEntry(e, sourceId)];
    }
    if e.locationOnline != "" {
      locations := locations + [UriEntry(EnsureUri(e.locationOnline), "Online Meeting Link", sourceId)];
    }
  }

  /** The test that keeps the event page from being linked twice. */
  predicate LinksEvent(entry: Json, slug: string) {
    || Get(entry, "name") == Str("OpenMeet Event")
    || (Get(entry, "uri").Str? && Get(entry, "uri") != Str("") && Includes(Get(entry, "uri").s, "/events/" + slug))
  }

  lemma LinksByUri(uri: string, sourceId: string, slug: string)
    ensures LinksEvent(UriEntry(uri, "Online Meeting Link", sourceId), slug) <==> Includes(uri, "/events/" + slug)
  {
    var entry := UriEntry(uri, "Online Meeting Link", sourceId);
    assert |"Online Meeting Link"| == 19 && |"OpenMeet Event"| == 14;
    assert Get(entry, "uri") == Str(uri) && Get(entry, "name") == Str("Online Meeting Link");
    if uri == "" {
      assert |"/events/" + slug| > 0;
    }
  }

  method BuildUris(e: EventContent, config: Config) returns (uris: seq<Json>)
    ensures uris == OpenMeetUris(e, config)
  {
    uris := [];
    if e.locationOnline != "" {
      uris := uris + [UriEntry(EnsureUri(e.locationOnline), "Online Meeting Link", config.sourceId)];
    }
    var linksEvent := (u: Json) => LinksEvent(u, e.slug);
    var existing := Find(linksEvent, uris);
    if e.locationOnline != "" {
      LinksByUri(EnsureUri(e.locationOnline), config.sourceId, e.slug);
      assert Find(linksEvent, uris[1..]) == None;
      assert uris == MeetingEntries(e, config.sourceId);
      assert existing == if linksEvent(uris[0]) then Some(uris[0]) else None;
    }
    if existing.None? {
      uris := uris + [UriEntry(config.baseUrl + "/events/" + e.slug, "OpenMeet Event", config.sourceId)];
    }
  }

  lemma MediaCases(base: Record, image: ImageUpload, alt: string)
    ensures image.Uploaded? && Truthy(image.blob) ==>
      MediaAfter(base, image, alt) == Arr(ForeignMedia(base) + [ThumbnailEntry(image.blob, alt, image.size)])
    ensures image.UploadFailed? && Thumbnails(base) != [] ==>
      MediaAfter(base, image, alt) == Arr(ForeignMedia(base) + [Thumbnails(base)[0]])
    ensures !(image.Uploaded? && Truthy(image.blob)) && !(image.UploadFailed? && Thumbnails(base) != []) ==>
      MediaAfter(base, image, alt) == (if ForeignMedia(base) == [] then Null else Arr(ForeignMedia(base)))
  {
    assert ForeignMedia(base) + [] == ForeignMedia(base);
    if Thumbnails(base) != [] {
      assert Thumbnails(base)[..1] == [Thumbnails(base)[0]];
    }
  }

  /** The three-case media rule, in the order the service tests its cases. */
  method SetMedia(record: Record, base: Record, image: ImageUpload, alt: string) returns (recordData: Record)
    ensures recordData == WithField(record, Media, MediaAfter(base, image, alt))
  {
    recordData := record;
    var eventImageBlob := if image.Uploaded? then image.blob else Null;
    var existingThumbnail := Find(IsThumbnail, MediaEntries(base));
    var foreignMedia := ForeignMedia(base);
    FindIsFirstKept(IsThumbnail, MediaEntries(base));
    MediaCases(base, image, alt);
    if Truthy(eventImageBlob) {
      recordData := recordData[Media := Arr(foreignMedia + [ThumbnailEntry(eventImageBlob, alt, image.size)])];
    } else if image.UploadFailed? && existingThumbnail.Some? {
      recordData := recordData[Media := Arr(foreignMedia + [existingThumbnail.value])];
    } else if |foreignMedia| > 0 {
      recordData := recordData[Media := Arr(foreignMedia)];
    } else {
      recordData := recordData - {Media};
    }
  }

  method SetMeta(record: Record, e: EventContent, base: Record, image: ImageUpload) returns (recordData: Record)
    ensures recordData == WithField(record, OpenMeetMeta, MetaAfter(e, base, image))
  {
    recordData := record;
    var sourceKey := if image.Uploaded? then image.sourceKey else "";
    var openMeetMeta: map<string, Json> := map[];
    if e.seriesSlug.Some? {
      openMeetMeta := openMeetMeta["seriesSlug" := Str(e.seriesSlug.value)]["isRecurring" := Bool(true)];
    }
    if sourceKey != "" {
      openMeetMeta := openMeetMeta["imageSourceKey" := Str(sourceKey)];
    } else if image.UploadFailed? && ImageKey(base).Str? {
      openMeetMeta := openMeetMeta["imageSourceKey" := ImageKey(base)];
    }
    assert openMeetMeta == MetaFields(e, base, image);
    if openMeetMeta != map[] {
      recordData := recordData[OpenMeetMeta := Obj(openMeetMeta)];
    } else {
      recordData := recordData - {OpenMeetMeta};
    }
  }

  /** The record after assembly, media and metadata. */
  function Assembled(e: EventContent, base: Record, image: ImageUpload, locations: seq<Json>, uris: seq<Json>): Record {
    WithField(WithField(StripNullish(base + Literal(e, base, locations, uris)),
                        Media, MediaAfter(base, image, e.name)), OpenMeetMeta, MetaAfter(e, base, image))
  }

  lemma OverlayField(f: Field, base: Record, literal: Record, media: Json, meta: Json)
    ensures var r := WithField(WithField(StripNullish(base + literal), Media, media), OpenMeetMeta, meta);
      && FieldOf(r, f) == (if f == OpenMeetMeta then meta else if f == Media then media
                           else if f in literal then literal[f] else FieldOf(base, f))
      && (f in r <==> FieldOf(r, f) != Null)
  {
  }

  lemma AssembledField(
    f: Field, e: EventContent, base: Record, image: ImageUpload, locations: seq<Json>, uris: seq<Json>)
    ensures var r := Assembled(e, base, image, locations, uris);
      && FieldOf(r, f) == FieldAfter(f, e, base, image, locations, uris)
      && (f in r <==> FieldOf(r, f) != Null)
  {
    OverlayField(f, base, Literal(e, base, locations, uris), MediaAfter(base, image, e.name),
      MetaAfter(e, base, image));
    LiteralNames(e, base, locations, uris);
    LiteralFields(f, e, base, locations, uris);
    if f != Media && f != OpenMeetMeta {
      FieldIgnoresImage(f, e, base, image, locations, uris);
    }
  }

  lemma AssembledIsPublished(
    e: EventContent, base: Record, image: ImageUpload, config: Config, locations: seq<Json>, uris: seq<Json>)
    requires MergeArrayField(FieldOf(base, Locations), OpenMeetLocations(e, config.sourceId), config.sourceId)
      == Ok(locations)
    requires MergeArrayField(FieldOf(base, Uris), OpenMeetUris(e, config), config.sourceId) == Ok(uris)
    ensures PublishedRecord(e, base, image, config) == Ok(Assembled(e, base, image, locations, uris))
  {
    var assembled := Assembled(e, base, image, locations, uris);
    var spec := RecordWith(e, base, image, locations, uris);
    forall f: Field
      ensures f in assembled <==> f in spec
      ensures FieldOf(assembled, f) == FieldOf(spec, f)
    {
      AssembledField(f, e, base, image, locations, uris);
      RecordWithField(f, e, base, image, locations, uris);
    }
    SameFields(assembled, spec);
  }

  lemma SameFields(a: Record, b: Record)
    requires forall f: Field :: (f in a <==> f in b) && FieldOf(a, f) == FieldOf(b, f)
    ensures a == b
  {
  }

  lemma FieldIgnoresImage(
    f: Field, e: EventContent, base: Record, image: ImageUpload, locations: seq<Json>, uris: seq<Json>)
    requires f != Media && f != OpenMeetMeta
    ensures FieldAfter(f, e, base, image, locations, uris) == FieldAfter(f, e, base, NoImage, locations, uris)
  {
  }

  /** The published record read field by field: it has no null fields, and each value is FieldAfter's. */
  lemma RecordWithField(
    f: Field, e: EventContent, base: Record, image: ImageUpload, locations: seq<Json>, uris: seq<Json>)
    ensures var r := RecordWith(e, base, image, locations, uris);
      && FieldOf(r, f) == FieldAfter(f, e, base, image, locations, uris)
      && (f in r <==> FieldOf(r, f) != Null)
  {
    match f
    case Unknown(_) => assert f in base.Keys || FieldOf(base, f) == Null;
    case _ =>
  }

  /**
   The construction as the service performs it: entries are pushed one by one, the record is
   assembled over the stored one, and `media` and `openMeetMeta` are set or deleted afterwards.
   */
  method BuildEventRecord(e: EventContent, stored: Option<Record>, image: ImageUpload, config: Config)
    returns (built: Outcome<Record, TypeError>)
    ensures built == PublishedRecord(e, if stored.Some? then stored.value else map[], image, config)
  {
    var locations := BuildLocations(e, config.sourceId);
    var uris := BuildUris(e, config);
    var base: Record := if stored.Some? then stored.value else map[];
    var mergedLocations := MergeArrayField(FieldOf(base, Locations), locations, config.sourceId);
    if mergedLocations.Throws? {
      return Throws(TypeError);
    }
    var mergedUris := MergeArrayField(FieldOf(base, Uris), uris, config.sourceId);
    if mergedUris.Throws? {
      return Throws(TypeError);
    }
    var recordData := StripNullish(base + Literal(e, base, mergedLocations.value, mergedUris.value));
    recordData := SetMedia(recordData, base, image, e.name);
    recordData := SetMeta(recordData, e, base, image);
    built := Ok(recordData);
    AssembledIsPublished(e, base, image, config, mergedLocations.value, mergedUris.value);
  }
}

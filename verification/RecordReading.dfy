/**
 A published record read by others, in terms of its JSON alone: what other apps find of their own data
 in it, and what it says about the event.
 */
module RecordReading {
  import opened Basics
  import opened RecordMerge
  import opened EventRecord
  import opened RecordProperties

  // ---------------------------------------------------------------- what other apps see

  /** The entries of an array field that OpenMeet did not write. */
  function OtherAppsEntries(record: Record, field: Field, sourceId: string): seq<Json> {
    if field in record && record[field].Arr? then Filter(e => OtherApps(e, sourceId), record[field].items) else []
  }

  predicate HasThumbnailRole(m: Json) {
    m.Obj? && "role" in m.fields && m.fields["role"] == Str("thumbnail")
  }

  /** The media that are not thumbnails. */
  function OtherMedia(record: Record): seq<Json> {
    if Media in record && record[Media].Arr? then Filter(m => !HasThumbnailRole(m), record[Media].items) else []
  }

  /** A field's value; null counts as missing. */
  function Held(record: Record, field: Field): Option<Json> {
    if field in record && record[field] != Null then Some(record[field]) else None
  }

  /** Other apps' entries are the same in number and order, and so are all fields that OpenMeet does not know. */
  ghost predicate SameForOthers(a: Record, b: Record, sourceId: string) {
    && OtherAppsEntries(a, Locations, sourceId) == OtherAppsEntries(b, Locations, sourceId)
    && OtherAppsEntries(a, Uris, sourceId) == OtherAppsEntries(b, Uris, sourceId)
    && OtherMedia(a) == OtherMedia(b)
    && forall name :: Held(a, Unknown(name)) == Held(b, Unknown(name))
  }

  lemma OtherMediaIsForeign(record: Record)
    ensures OtherMedia(record) == ForeignMedia(record)
  {
    FilterSame(m => !HasThumbnailRole(m), m => !IsThumbnail(m), MediaEntries(record));
  }

  lemma EntriesFromView(record: Record, field: Field, sourceId: string)
    ensures OtherAppsEntries(record, field, sourceId)
         == Filter(e => OtherApps(e, sourceId), ForeignEntries(FieldOf(record, field), sourceId))
  {
    OthersAmongForeign(FieldOf(record, field), sourceId);
  }

  /** Records with one foreign view are the same to the other apps. */
  lemma SameViewIsSameForOthers(a: Record, b: Record, sourceId: string)
    requires ViewOf(a, sourceId) == ViewOf(b, sourceId)
    ensures SameForOthers(a, b, sourceId)
  {
    EntriesFromView(a, Locations, sourceId);
    EntriesFromView(b, Locations, sourceId);
    EntriesFromView(a, Uris, sourceId);
    EntriesFromView(b, Uris, sourceId);
    OtherMediaIsForeign(a);
    OtherMediaIsForeign(b);
    forall name
      ensures Held(a, Unknown(name)) == Held(b, Unknown(name))
    {
      var f := Unknown(name);
      assert f in UnknownFields(a) <==> Held(a, f).Some?;
      assert f in UnknownFields(b) <==> Held(b, f).Some?;
      if f in UnknownFields(a) {
        assert UnknownFields(a)[f] == UnknownFields(b)[f];
      }
    }
  }

  /** No run of publishes ever drops, doubles, reorders or alters what other apps put into the record. */
  lemma {:induction false} PublishingKeepsOtherApps(base: Record, run: seq<Publish>, config: Config)
    requires Readable(base, config.sourceId)
    ensures SameForOthers(PublishAll(base, run, config), base, config.sourceId)
  {
    if run != [] {
      PublishingNeverAccumulates(base, run, config);
      SameViewIsSameForOthers(PublishAll(base, run, config), base, config.sourceId);
    }
  }

  // ---------------------------------------------------------------- reading a record back

  function TextOrNothing(text: Option<string>): Option<Json> {
    if text.Some? then Some(Str(text.value)) else None
  }

  function ModeWord(kind: EventType): string {
    if kind == InPerson then "community.lexicon.calendar.event#inperson"
    else if kind == Online then "community.lexicon.calendar.event#virtual"
    else "community.lexicon.calendar.event#hybrid"
  }

  /** A pending event is scheduled. */
  function StatusWord(status: EventStatus): string {
    if status == Cancelled then "community.lexicon.calendar.event#cancelled"
    else if status == Draft then "community.lexicon.calendar.event#planned"
    else "community.lexicon.calendar.event#scheduled"
  }

  /** The event as any reader of the lexicon finds it in its record. */
  predicate TellsEvent(record: Record, e: EventContent) {
    && Held(record, Name) == Some(Str(e.name))
    && Held(record, Description) == TextOrNothing(e.description)
    && Held(record, StartsAt) == TextOrNothing(e.startDate)
    && Held(record, EndsAt) == TextOrNothing(e.endDate)
    && Held(record, Mode) == Some(Str(ModeWord(e.kind)))
    && Held(record, Status) == Some(Str(StatusWord(e.status)))
  }

  lemma HeldAfter(f: Field, e: EventContent, base: Record, image: ImageUpload, locations: seq<Json>, uris: seq<Json>)
    ensures var value := FieldAfter(f, e, base, image, locations, uris);
      Held(RecordWith(e, base, image, locations, uris), f) == if value == Null then None else Some(value)
  {
    RecordWithField(f, e, base, image, locations, uris);
  }

  lemma TellsTexts(e: EventContent, base: Record, image: ImageUpload, locations: seq<Json>, uris: seq<Json>)
    ensures var r := RecordWith(e, base, image, locations, uris);
      && Held(r, Name) == Some(Str(e.name)) && Held(r, Description) == TextOrNothing(e.description)
      && Held(r, StartsAt) == TextOrNothing(e.startDate) && Held(r, EndsAt) == TextOrNothing(e.endDate)
  {
    HeldAfter(Name, e, base, image, locations, uris);
    HeldAfter(Description, e, base, image, locations, uris);
    HeldAfter(StartsAt, e, base, image, locations, uris);
    HeldAfter(EndsAt, e, base, image, locations, uris);
  }

  lemma TellsStatus(e: EventContent, base: Record, image: ImageUpload, locations: seq<Json>, uris: seq<Json>)
    ensures Held(RecordWith(e, base, image, locations, uris), Status)
         == Some(Str(StatusWord(e.status)))
  {
    HeldAfter(Status, e, base, image, locations, uris);
  }

  lemma TellsMode(e: EventContent, base: Record, image: ImageUpload, locations: seq<Json>, uris: seq<Json>)
    ensures Held(RecordWith(e, base, image, locations, uris), Mode)
         == Some(Str(ModeWord(e.kind)))
  {
    HeldAfter(Mode, e, base, image, locations, uris);
  }

  /** A published record tells name, text, dates, mode and status of the event, and keeps the first creation date. */
  lemma PublishedTellsEvent(e: EventContent, base: Record, image: ImageUpload, config: Config)
    requires Readable(base, config.sourceId)
    ensures var r := PublishedRecord(e, base, image, config).value;
      && TellsEvent(r, e)
      && Held(r, CreatedAt) == if Held(base, CreatedAt).Some? then Held(base, CreatedAt) else TextOrNothing(e.createdAt)
  {
    var locations, uris := PublishedForm(e, base, image, config);
    TellsTexts(e, base, image, locations, uris);
    TellsStatus(e, base, image, locations, uris);
    TellsMode(e, base, image, locations, uris);
    HeldAfter(CreatedAt, e, base, image, locations, uris);
  }

  /** An entry of the array field with these values. */
  predicate HasEntry(record: Record, field: Field, values: map<string, Json>) {
    && field in record && record[field].Arr?
    && exists entry :: entry in record[field].items && IsEntry(entry, values)
  }

  predicate IsEntry(entry: Json, values: map<string, Json>) {
    entry.Obj? && forall key :: key in values ==> key in entry.fields && entry.fields[key] == values[key]
  }

  /** An entry appended by the publish is an entry of the record. */
  lemma AppendedEntry(
    record: Record, field: Field, before: seq<Json>, own: seq<Json>, i: nat, values: map<string, Json>)
    requires field in record && record[field] == Arr(before + own) && i < |own| && IsEntry(own[i], values)
    ensures HasEntry(record, field, values)
  {
    assert (before + own)[|before| + i] == own[i];
  }

  /** A record locates the event where the event is. */
  lemma PublishedLocates(e: EventContent, base: Record, image: ImageUpload, config: Config)
    requires Readable(base, config.sourceId) && e.location != "" && e.lat.Some? && e.lon.Some?
    ensures HasEntry(PublishedRecord(e, base, image, config).value, Locations,
                     map["latitude" := Str(e.lat.value), "longitude" := Str(e.lon.value),
                         "name" := Str(e.location), "source" := Str(config.sourceId)])
  {
    var r := PublishedRecord(e, base, image, config).value;
    var locations, uris := PublishedForm(e, base, image, config);
    WithArrays(e, base, image, locations, uris);
    var values := map["latitude" := Str(e.lat.value), "longitude" := Str(e.lon.value),
                      "name" := Str(e.location), "source" := Str(config.sourceId)];
    GeoEntryHas(e, config.sourceId, values);
    AppendedEntry(r, Locations, ForeignEntries(FieldOf(base, Locations), config.sourceId),
      OpenMeetLocations(e, config.sourceId), 0, values);
  }

  lemma GeoEntryHas(e: EventContent, sourceId: string, values: map<string, Json>)
    requires e.lat.Some? && e.lon.Some?
    requires values == map["latitude" := Str(e.lat.value), "longitude" := Str(e.lon.value),
                           "name" := Str(e.location), "source" := Str(sourceId)]
    ensures IsEntry(GeoEntry(e, sourceId), values)
  {
    assert |"latitude"| == 8 && |"longitude"| == 9 && |"name"| == 4 && |"source"| == 6 && |"$type"| == 5;
  }

  lemma UriEntryHas(uri: string, name: string, sourceId: string)
    ensures IsEntry(UriEntry(uri, name, sourceId),
                    map["uri" := Str(uri), "name" := Str(name), "source" := Str(sourceId)])
  {
    assert |"uri"| == 3 && |"name"| == 4 && |"source"| == 6 && |"$type"| == 5;
  }

  /** An online event's record carries its meeting link, made absolute, among locations and links alike. */
  lemma PublishedLinksMeeting(e: EventContent, base: Record, image: ImageUpload, config: Config)
    requires Readable(base, config.sourceId) && e.locationOnline != ""
    ensures var r := PublishedRecord(e, base, image, config).value;
      var values := map["uri" := Str(EnsureUri(e.locationOnline)), "name" := Str("Online Meeting Link"),
                        "source" := Str(config.sourceId)];
      HasEntry(r, Locations, values) && HasEntry(r, Uris, values)
  {
    var r := PublishedRecord(e, base, image, config).value;
    var locations, uris := PublishedForm(e, base, image, config);
    WithArrays(e, base, image, locations, uris);
    var link := EnsureUri(e.locationOnline);
    var values := map["uri" := Str(link), "name" := Str("Online Meeting Link"), "source" := Str(config.sourceId)];
    UriEntryHas(link, "Online Meeting Link", config.sourceId);
    var own := OpenMeetLocations(e, config.sourceId);
    assert own[|own| - 1] == UriEntry(link, "Online Meeting Link", config.sourceId);
    AppendedEntry(r, Locations, ForeignEntries(FieldOf(base, Locations), config.sourceId), own, |own| - 1, values);
    AppendedEntry(r, Uris, ForeignEntries(FieldOf(base, Uris), config.sourceId), OpenMeetUris(e, config), 0, values);
  }

  /** Every record links to the event's page: by an entry of its own, or through the meeting link. */
  lemma PublishedLinksPage(e: EventContent, base: Record, image: ImageUpload, config: Config)
    requires Readable(base, config.sourceId)
    ensures var r := PublishedRecord(e, base, image, config).value;
      || HasEntry(r, Uris, map["uri" := Str(config.baseUrl + "/events/" + e.slug), "name" := Str("OpenMeet Event"),
                               "source" := Str(config.sourceId)])
      || (e.locationOnline != "" && Includes(EnsureUri(e.locationOnline), "/events/" + e.slug))
  {
    if !(e.locationOnline != "" && Includes(EnsureUri(e.locationOnline), "/events/" + e.slug)) {
      var r := PublishedRecord(e, base, image, config).value;
      var locations, uris := PublishedForm(e, base, image, config);
      WithArrays(e, base, image, locations, uris);
      var page := config.baseUrl + "/events/" + e.slug;
      var own := OpenMeetUris(e, config);
      UriEntryHas(page, "OpenMeet Event", config.sourceId);
      assert own[|own| - 1] == UriEntry(page, "OpenMeet Event", config.sourceId);
      AppendedEntry(r, Uris, ForeignEntries(FieldOf(base, Uris), config.sourceId), own, |own| - 1,
        map["uri" := Str(page), "name" := Str("OpenMeet Event"), "source" := Str(config.sourceId)]);
    }
  }

  /** A URL with a scheme is left as it is, any other one gets one, and so no link is changed twice. */
  lemma LinksAreAbsolute(url: string, rest: string)
    ensures EnsureUri("http://" + rest) == "http://" + rest && EnsureUri("https://" + rest) == "https://" + rest
    ensures EnsureUri("HTTPS://" + rest) == "HTTPS://" + rest
    ensures ':' !in url ==> EnsureUri(url) == "https://" + url
    ensures EnsureUri(EnsureUri(url)) == EnsureUri(url)
  {
    SchemeFound("http://", rest);
    SchemeFound("https://", rest);
    SchemeFound("HTTPS://", rest);
    SchemeFound("https://", url);
    if HasScheme(url) {
      SchemeHasColon(url);
    }
  }

  lemma SchemeFound(scheme: string, rest: string)
    requires scheme == "http://" || scheme == "https://" || scheme == "HTTPS://"
    ensures HasScheme(scheme + rest)
  {
    var url := scheme + rest;
    var lower := seq(|url|, i requires 0 <= i < |url| =>
      if 'A' <= url[i] <= 'Z' then url[i] - 'A' + 'a' else url[i]);
    assert forall i :: 0 <= i < |scheme| ==> url[i] == scheme[i];
    if scheme == "http://" {
      assert lower[..7] == "http://";
    } else {
      assert lower[..8] == "https://";
    }
  }

  lemma SchemeHasColon(url: string)
    requires HasScheme(url)
    ensures ':' in url
  {
    var lower := seq(|url|, i requires 0 <= i < |url| =>
      if 'A' <= url[i] <= 'Z' then url[i] - 'A' + 'a' else url[i]);
    assert lower[4] == ':' || lower[5] == ':';
    assert url[4] == ':' || url[5] == ':';
  }

  /** An uploaded image is the record's thumbnail, under the event's name, and its key is noted. */
  lemma PublishedShowsImage(e: EventContent, base: Record, image: ImageUpload, config: Config)
    requires Readable(base, config.sourceId) && image.Uploaded? && image.blob.Obj? && image.sourceKey != ""
    ensures var r := PublishedRecord(e, base, image, config).value;
      && HasEntry(r, Media, map["role" := Str("thumbnail"), "content" := image.blob, "alt" := Str(e.name)])
      && Noted(r, "imageSourceKey") == Some(Str(image.sourceKey))
  {
    var locations, uris := PublishedForm(e, base, image, config);
    var r := RecordWith(e, base, image, locations, uris);
    WithMedia(e, base, image, locations, uris);
    ShowsThumbnail(r, e, base, image);
    KeyParts(e, base, image, locations, uris);
    NotedKey(r, Str(image.sourceKey));
  }

  lemma ShowsThumbnail(r: Record, e: EventContent, base: Record, image: ImageUpload)
    requires FieldOf(r, Media) == MediaAfter(base, image, e.name) && image.Uploaded? && image.blob.Obj?
    ensures HasEntry(r, Media, map["role" := Str("thumbnail"), "content" := image.blob, "alt" := Str(e.name)])
  {
    ThumbnailHas(image.blob, e.name, image.size);
    AppendedEntry(r, Media, ForeignMedia(base), OwnMedia(base, image, e.name), 0,
      map["role" := Str("thumbnail"), "content" := image.blob, "alt" := Str(e.name)]);
  }

  lemma NotedKey(r: Record, key: Json)
    requires ImageKey(r) == key != Null
    ensures Noted(r, "imageSourceKey") == Some(key)
  {
  }

  lemma ThumbnailHas(blob: Json, alt: string, size: Option<(int, int)>)
    ensures IsEntry(ThumbnailEntry(blob, alt, size),
                    map["role" := Str("thumbnail"), "content" := blob, "alt" := Str(alt)])
  {
    assert |"role"| == 4 && |"aspect_ratio"| == 12 && |"content"| == 7 && |"alt"| == 3;
  }

  /** What the record notes for OpenMeet itself. */
  function Noted(record: Record, key: string): Option<Json> {
    if OpenMeetMeta in record && record[OpenMeetMeta].Obj? && key in record[OpenMeetMeta].fields
    then Some(record[OpenMeetMeta].fields[key]) else None
  }

  /** Without an image no thumbnail is left, nor its key, whatever was there before. */
  lemma PublishedWithoutImage(e: EventContent, base: Record, config: Config)
    requires Readable(base, config.sourceId)
    ensures var r := PublishedRecord(e, base, NoImage, config).value;
      && Noted(r, "imageSourceKey") == None
      && (Media in r && r[Media].Arr? ==> forall m :: m in r[Media].items ==> !HasThumbnailRole(m))
  {
    var locations, uris := PublishedForm(e, base, NoImage, config);
    var r := PublishedRecord(e, base, NoImage, config).value;
    WithMedia(e, base, NoImage, locations, uris);
    WithMeta(e, base, NoImage, locations, uris);
    MediaParts(e, base, NoImage, locations, uris);
    MetaWithoutImage(e, base);
    assert forall m :: m in ForeignMedia(base) ==> !IsThumbnail(m);
  }

  lemma MetaWithoutImage(e: EventContent, base: Record)
    ensures "imageSourceKey" !in MetaFields(e, base, NoImage)
  {
    assert |"imageSourceKey"| == 14 && |"seriesSlug"| == 10 && |"isRecurring"| == 11;
  }

  /** An event of a series says so. */
  lemma PublishedNotesSeries(e: EventContent, base: Record, image: ImageUpload, config: Config)
    requires Readable(base, config.sourceId)
    ensures var r := PublishedRecord(e, base, image, config).value;
      Noted(r, "seriesSlug") == (if e.seriesSlug.Some? then Some(Str(e.seriesSlug.value)) else None)
  {
    var locations, uris := PublishedForm(e, base, image, config);
    WithMeta(e, base, image, locations, uris);
    SeriesInMeta(e, base, image);
  }

  lemma SeriesInMeta(e: EventContent, base: Record, image: ImageUpload)
    ensures "seriesSlug" in MetaFields(e, base, image) <==> e.seriesSlug.Some?
    ensures e.seriesSlug.Some? ==> MetaFields(e, base, image)["seriesSlug"] == Str(e.seriesSlug.value)
  {
    assert |"imageSourceKey"| == 14 && |"seriesSlug"| == 10 && |"isRecurring"| == 11;
  }
}

/** What repeated publishing does, and does not do, to a record other apps also write. */
module RecordProperties {
  import opened Basics
  import opened RecordMerge
  import opened EventRecord

  /** Everything in a record that belongs to other apps. */
  datatype ForeignView = ForeignView(
    unknown: map<Field, Json>,
    locations: seq<Json>,
    uris: seq<Json>,
    media: seq<Json>)

  function ViewOf(record: Record, sourceId: string): ForeignView {
    ForeignView(
      UnknownFields(record),
      ForeignEntries(FieldOf(record, Locations), sourceId),
      ForeignEntries(FieldOf(record, Uris), sourceId),
      ForeignMedia(record))
  }

  /** One publish: the content at that moment and how the image step went. */
  datatype Publish = Publish(content: EventContent, image: ImageUpload)

  /** uploadEventImage returns a blob reference together with a non-empty object key. */
  predicate RealUpload(image: ImageUpload) {
    image.Uploaded? ==> Truthy(image.blob) && image.sourceKey != ""
  }

  // ---------------------------------------------------------------- one publish

  /** A publish that went through merged both arrays: foreign entries in order, then exactly the current ones. */
  lemma PublishedForm(e: EventContent, base: Record, image: ImageUpload, config: Config)
    returns (locations: seq<Json>, uris: seq<Json>)
    requires Readable(base, config.sourceId)
    ensures locations == ForeignEntries(FieldOf(base, Locations), config.sourceId)
      + OpenMeetLocations(e, config.sourceId)
    ensures uris == ForeignEntries(FieldOf(base, Uris), config.sourceId) + OpenMeetUris(e, config)
    ensures MergeArrayField(FieldOf(base, Locations), OpenMeetLocations(e, config.sourceId), config.sourceId)
      == Ok(locations)
    ensures MergeArrayField(FieldOf(base, Uris), OpenMeetUris(e, config), config.sourceId) == Ok(uris)
    ensures PublishedRecord(e, base, image, config) == Ok(RecordWith(e, base, image, locations, uris))
  {
    locations := MergeArrayField(FieldOf(base, Locations), OpenMeetLocations(e, config.sourceId),
      config.sourceId).value;
    uris := MergeArrayField(FieldOf(base, Uris), OpenMeetUris(e, config), config.sourceId).value;
    MergeShape(FieldOf(base, Locations), OpenMeetLocations(e, config.sourceId), config.sourceId);
    MergeShape(FieldOf(base, Uris), OpenMeetUris(e, config), config.sourceId);
  }

  lemma WithMedia(e: EventContent, base: Record, image: ImageUpload, locations: seq<Json>, uris: seq<Json>)
    ensures FieldOf(RecordWith(e, base, image, locations, uris), Media) == MediaAfter(base, image, e.name)
  {
    var media := MediaAfter(base, image, e.name);
    assert FieldAfter(Media, e, base, image, locations, uris) == media;
    RecordWithField(Media, e, base, image, locations, uris);
  }

  lemma WithMeta(e: EventContent, base: Record, image: ImageUpload, locations: seq<Json>, uris: seq<Json>)
    ensures FieldOf(RecordWith(e, base, image, locations, uris), OpenMeetMeta) == MetaAfter(e, base, image)
  {
    var meta := MetaAfter(e, base, image);
    assert FieldAfter(OpenMeetMeta, e, base, image, locations, uris) == meta;
    RecordWithField(OpenMeetMeta, e, base, image, locations, uris);
  }

  lemma WithArrays(e: EventContent, base: Record, image: ImageUpload, locations: seq<Json>, uris: seq<Json>)
    ensures FieldOf(RecordWith(e, base, image, locations, uris), Locations) == Arr(locations)
    ensures FieldOf(RecordWith(e, base, image, locations, uris), Uris) == Arr(uris)
  {
    assert FieldAfter(Locations, e, base, image, locations, uris) == Arr(locations);
    assert FieldAfter(Uris, e, base, image, locations, uris) == Arr(uris);
    RecordWithField(Locations, e, base, image, locations, uris);
    RecordWithField(Uris, e, base, image, locations, uris);
  }

  lemma WithCreatedAt(e: EventContent, base: Record, image: ImageUpload, locations: seq<Json>, uris: seq<Json>)
    ensures FieldOf(RecordWith(e, base, image, locations, uris), CreatedAt)
         == (if FieldOf(base, CreatedAt) != Null then FieldOf(base, CreatedAt) else OrNull(e.createdAt))
  {
    RecordWithField(CreatedAt, e, base, image, locations, uris);
  }

  lemma WithUnknown(f: Field, e: EventContent, base: Record, image: ImageUpload, locations: seq<Json>, uris: seq<Json>)
    requires f.Unknown?
    ensures FieldOf(RecordWith(e, base, image, locations, uris), f) == FieldOf(base, f)
  {
    RecordWithField(f, e, base, image, locations, uris);
  }

  lemma OwnMediaAreThumbnails(base: Record, image: ImageUpload, alt: string)
    ensures forall m :: m in OwnMedia(base, image, alt) ==> IsThumbnail(m)
  {
    if image.Uploaded? {
      assert Get(ThumbnailEntry(image.blob, alt, image.size), "role") == Str("thumbnail") by {
        assert |"role"| == 4 && |"aspect_ratio"| == 12 && |"content"| == 7 && |"alt"| == 3;
      }
    }
  }

  lemma {:induction false} MediaParts(
    e: EventContent, base: Record, image: ImageUpload, locations: seq<Json>, uris: seq<Json>)
    ensures var r := RecordWith(e, base, image, locations, uris);
      ForeignMedia(r) == ForeignMedia(base) && Thumbnails(r) == OwnMedia(base, image, e.name)
  {
    var r := RecordWith(e, base, image, locations, uris);
    WithMedia(e, base, image, locations, uris);
    var foreign, own := ForeignMedia(base), OwnMedia(base, image, e.name);
    var notThumbnail := (m: Json) => !IsThumbnail(m);
    assert MediaEntries(r) == foreign + own;
    OwnMediaAreThumbnails(base, image, e.name);
    FilterConcat(notThumbnail, foreign, own);
    FilterAll(notThumbnail, foreign);
    FilterNone(notThumbnail, own);
    FilterConcat(IsThumbnail, foreign, own);
    FilterNone(IsThumbnail, foreign);
    FilterAll(IsThumbnail, own);
  }

  lemma KeyParts(e: EventContent, base: Record, image: ImageUpload, locations: seq<Json>, uris: seq<Json>)
    ensures ImageKey(RecordWith(e, base, image, locations, uris)) == KeyAfter(base, image)
  {
    WithMeta(e, base, image, locations, uris);
    var meta := MetaFields(e, base, image);
    assert |"imageSourceKey"| == 14 && |"seriesSlug"| == 10 && |"isRecurring"| == 11;
    assert KeyAfter(base, image) != Null ==>
      "imageSourceKey" in meta && meta["imageSourceKey"] == KeyAfter(base, image);
    assert KeyAfter(base, image) == Null ==> "imageSourceKey" !in meta;
  }

  lemma UnknownParts(e: EventContent, base: Record, image: ImageUpload, locations: seq<Json>, uris: seq<Json>)
    ensures UnknownFields(RecordWith(e, base, image, locations, uris)) == UnknownFields(base)
  {
    forall f: Field | f.Unknown?
      ensures FieldOf(RecordWith(e, base, image, locations, uris), f) == FieldOf(base, f)
    {
      WithUnknown(f, e, base, image, locations, uris);
    }
    SameUnknown(base, RecordWith(e, base, image, locations, uris));
  }

  /** A publish carries over other apps' part of its merge base, whole and in order. */
  lemma PublishKeepsForeign(e: EventContent, base: Record, image: ImageUpload, config: Config)
    requires Readable(base, config.sourceId)
    ensures ViewOf(PublishedRecord(e, base, image, config).value, config.sourceId) == ViewOf(base, config.sourceId)
  {
    var locations, uris := PublishedForm(e, base, image, config);
    MergeKeepsForeign(FieldOf(base, Locations), OpenMeetLocations(e, config.sourceId), config.sourceId);
    MergeKeepsForeign(FieldOf(base, Uris), OpenMeetUris(e, config), config.sourceId);
    WithArrays(e, base, image, locations, uris);
    MediaParts(e, base, image, locations, uris);
    UnknownParts(e, base, image, locations, uris);
  }

  function UnknownFields(record: Record): map<Field, Json> {
    map f | f in record && f.Unknown? && record[f] != Null :: record[f]
  }

  lemma SameUnknown(a: Record, b: Record)
    requires forall f: Field :: f.Unknown? ==> FieldOf(a, f) == FieldOf(b, f)
    ensures UnknownFields(a) == UnknownFields(b)
  {
    forall f: Field
      ensures f in UnknownFields(a) <==> f in UnknownFields(b)
    {
      assert f in UnknownFields(a) <==> f.Unknown? && FieldOf(a, f) != Null;
      assert f in UnknownFields(b) <==> f.Unknown? && FieldOf(b, f) != Null;
    }
    forall f: Field | f in UnknownFields(a)
      ensures UnknownFields(a)[f] == UnknownFields(b)[f]
    {
      assert UnknownFields(a)[f] == FieldOf(a, f);
      assert UnknownFields(b)[f] == FieldOf(b, f);
    }
  }

  /** Overwriting `pds` loses nothing foreign exactly when the merge base agrees with `pds` on the foreign part. */
  lemma OverwriteIsLosslessExactlyWhenBaseAgrees(
    e: EventContent, base: Record, image: ImageUpload, config: Config, pds: Record)
    requires Readable(base, config.sourceId)
    ensures ViewOf(PublishedRecord(e, base, image, config).value, config.sourceId) == ViewOf(pds, config.sourceId)
       <==> ViewOf(base, config.sourceId) == ViewOf(pds, config.sourceId)
  {
    PublishKeepsForeign(e, base, image, config);
  }

  // ---------------------------------------------------------------- runs of publishes

  /** A published record is readable again. */
  lemma PublishedStaysReadable(e: EventContent, base: Record, image: ImageUpload, config: Config)
    requires Readable(base, config.sourceId)
    ensures Readable(PublishedRecord(e, base, image, config).value, config.sourceId)
  {
    var locations, uris := PublishedForm(e, base, image, config);
    WithArrays(e, base, image, locations, uris);
    MergeAbsorbs(FieldOf(base, Locations), OpenMeetLocations(e, config.sourceId), [], config.sourceId);
    MergeAbsorbs(FieldOf(base, Uris), OpenMeetUris(e, config), [], config.sourceId);
  }

  /** A run of accepted publishes, each one based on the record the previous one stored; from a readable
      base none can fail. */
  function PublishAll(base: Record, run: seq<Publish>, config: Config): (last: Record)
    requires Readable(base, config.sourceId)
    ensures Readable(last, config.sourceId)
  {
    if run == [] then base
    else
      var before := PublishAll(base, run[..|run| - 1], config);
      var publish := run[|run| - 1];
      PublishedStaysReadable(publish.content, before, publish.image, config);
      PublishedRecord(publish.content, before, publish.image, config).value
  }

  // ---------------------------------------------------------------- the image reference

  predicate ConsistentImage(record: Record) {
    |Thumbnails(record)| <= 1 && (Thumbnails(record) != [] <==> ImageKey(record).Str?)
  }

  /**
   Whatever the base looked like, a publish leaves at most one thumbnail; it leaves thumbnail and
   source key in step exactly unless it preserved an already inconsistent pair after a failed upload.
   */
  lemma ImageConsistencyExactly(e: EventContent, base: Record, image: ImageUpload, config: Config)
    requires RealUpload(image)
    requires Readable(base, config.sourceId)
    ensures |Thumbnails(PublishedRecord(e, base, image, config).value)| <= 1
    ensures ConsistentImage(PublishedRecord(e, base, image, config).value)
       <==> (image.UploadFailed? ==> (Thumbnails(base) != [] <==> ImageKey(base).Str?))
  {
    var locations, uris := PublishedForm(e, base, image, config);
    MediaParts(e, base, image, locations, uris);
    KeyParts(e, base, image, locations, uris);
  }

  lemma ImageStep(e: EventContent, base: Record, image: ImageUpload, config: Config)
    requires Readable(base, config.sourceId)
    ensures Thumbnails(PublishedRecord(e, base, image, config).value) == OwnMedia(base, image, e.name)
    ensures ImageKey(PublishedRecord(e, base, image, config).value) == KeyAfter(base, image)
  {
    var locations, uris := PublishedForm(e, base, image, config);
    MediaParts(e, base, image, locations, uris);
    KeyParts(e, base, image, locations, uris);
  }

  /** The publish that decides the image: the latest one whose upload did not fail. */
  function DecidingPublish(run: seq<Publish>): Option<Publish> {
    if run == [] then None
    else if run[|run| - 1].image.UploadFailed? then DecidingPublish(run[..|run| - 1])
    else Some(run[|run| - 1])
  }

  /** The thumbnail and the source key are those of the deciding publish, and neither is present without an image. */
  predicate ImageOf(record: Record, deciding: Option<Publish>) {
    && ConsistentImage(record)
    && (if deciding.Some? && deciding.value.image.Uploaded? then
          && Thumbnails(record)
               == [ThumbnailEntry(deciding.value.image.blob, deciding.value.content.name, deciding.value.image.size)]
          && ImageKey(record) == Str(deciding.value.image.sourceKey)
        else
          Thumbnails(record) == [] && ImageKey(record) == Null)
  }

  lemma ImageOfStep(e: EventContent, before: Record, image: ImageUpload, config: Config, deciding: Option<Publish>)
    requires Readable(before, config.sourceId) && RealUpload(image) && ImageOf(before, deciding)
    ensures ImageOf(PublishedRecord(e, before, image, config).value,
                    if image.UploadFailed? then deciding else Some(Publish(e, image)))
  {
    ImageStep(e, before, image, config);
  }

  /**
   From an empty record, after any run of publishes, the image is that of the latest publish whose
   upload did not fail. So failures never lose a thumbnail and removing the image always drops it.
   */
  lemma {:induction false} ImageFollowsDecidingPublish(run: seq<Publish>, config: Config)
    requires forall p :: p in run ==> RealUpload(p.image)
    ensures ImageOf(PublishAll(map[], run, config), DecidingPublish(run))
  {
    if run != [] {
      var init, last := run[..|run| - 1], run[|run| - 1];
      ImageFollowsDecidingPublish(init, config);
      ImageOfStep(last.content, PublishAll(map[], init, config), last.image, config, DecidingPublish(init));
    }
  }

  // ---------------------------------------------------------------- repeated publishing

  /** Foreign data of `base`, and beyond it only the entries for `content`. */
  predicate Carries(record: Record, base: Record, content: EventContent, config: Config) {
    && ViewOf(record, config.sourceId) == ViewOf(base, config.sourceId)
    && FieldOf(record, Locations)
         == Arr(ForeignEntries(FieldOf(base, Locations), config.sourceId) + OpenMeetLocations(content, config.sourceId))
    && FieldOf(record, Uris)
         == Arr(ForeignEntries(FieldOf(base, Uris), config.sourceId) + OpenMeetUris(content, config))
  }

  lemma CarriesStep(e: EventContent, base: Record, before: Record, image: ImageUpload, config: Config)
    requires Readable(before, config.sourceId) && ViewOf(before, config.sourceId) == ViewOf(base, config.sourceId)
    ensures Carries(PublishedRecord(e, before, image, config).value, base, e, config)
    ensures FieldOf(before, CreatedAt) != Null ==>
      FieldOf(PublishedRecord(e, before, image, config).value, CreatedAt) == FieldOf(before, CreatedAt)
  {
    var locations, uris := PublishedForm(e, before, image, config);
    WithArrays(e, before, image, locations, uris);
    WithCreatedAt(e, before, image, locations, uris);
    PublishKeepsForeign(e, before, image, config);
  }

  /**
   Publishing never accumulates: after any non-empty run the foreign part is the original one, the
   merged arrays hold beyond it only the entries of the last publish, and createdAt is the one
   the first publish wrote.
   */
  lemma {:induction false} PublishingNeverAccumulates(base: Record, run: seq<Publish>, config: Config)
    requires run != [] && Readable(base, config.sourceId)
    ensures Carries(PublishAll(base, run, config), base, run[|run| - 1].content, config)
    ensures var first := PublishAll(base, run[..1], config);
      FieldOf(first, CreatedAt) != Null ==>
        FieldOf(PublishAll(base, run, config), CreatedAt) == FieldOf(first, CreatedAt)
  {
    var init, last := run[..|run| - 1], run[|run| - 1];
    if |run| == 1 {
      assert run[..1] == run;
    } else {
      assert init[..1] == run[..1];
      PublishingNeverAccumulates(base, init, config);
    }
    CarriesStep(last.content, base, PublishAll(base, init, config), last.image, config);
  }
}

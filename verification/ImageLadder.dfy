/**
 Fitting an event image under the blob size limit, src/bluesky/event-image-blob.service.ts: a quality loop
 at full size, then a ladder of smaller sizes. The encoder is any function from settings to a size.
 */
module ImageLadder {
  import opened Basics

  const MAX_BLOB_BYTES: nat := 900 * 1024
  const MAX_EDGE: nat := 2048
  const QUALITY_START: nat := 80
  const QUALITY_FLOOR: nat := 45

  datatype Setting = Setting(edge: nat, quality: nat, flatten: bool)

  /** An encoded image, by its size and dimensions. */
  datatype Blob = Blob(size: nat, mimeType: string, width: nat, height: nat)

  datatype Error = EncodeError

  /** What the decoder reports of the original: a supported MIME type and dimensions; 0 is a missing dimension. */
  datatype Metadata = Metadata(mimeType: Option<string>, width: nat, height: nat)

  const FALLBACK_LADDER: seq<Setting> := [
    Setting(1280, 70, false), Setting(1024, 60, false), Setting(800, 55, true), Setting(640, 50, true)
  ]

  /** Every setting that can be tried, best fidelity first. */
  const SETTINGS: seq<Setting> := [
    Setting(2048, 80, false), Setting(2048, 70, false), Setting(2048, 60, false), Setting(2048, 50, false),
    Setting(2048, 45, false),
    Setting(1280, 70, false), Setting(1024, 60, false), Setting(800, 55, true), Setting(640, 50, true)
  ]

  predicate TooBig(answer: Outcome<Blob, Error>) {
    answer.Ok? && answer.value.size > MAX_BLOB_BYTES
  }

  /** The reference: go down the settings until an encode fits or fails. */
  function FirstFit(encode: Setting -> Outcome<Blob, Error>, n: nat): Outcome<Option<Blob>, Error>
    requires n <= |SETTINGS|
    decreases |SETTINGS| - n
  {
    if n == |SETTINGS| then Ok(None)
    else
      match encode(SETTINGS[n])
      case Throws(e) => Throws(e)
      case Ok(blob) => if blob.size <= MAX_BLOB_BYTES then Ok(Some(blob)) else FirstFit(encode, n + 1)
  }

  /** An image within the limit is kept byte for byte if it decodes to a supported raster. */
  function Original(size: nat, metadata: Option<Metadata>): Option<Blob> {
    if metadata.Some? && metadata.value.mimeType.Some? && metadata.value.width != 0 && metadata.value.height != 0
    then Some(Blob(size, metadata.value.mimeType.value, metadata.value.width, metadata.value.height))
    else None
  }

  method NormalizeForBlob(size: nat, metadata: Option<Metadata>, encode: Setting -> Outcome<Blob, Error>)
    returns (result: Outcome<Option<Blob>, Error>, encodes: nat)
    ensures result == if size <= MAX_BLOB_BYTES then Ok(Original(size, metadata)) else FirstFit(encode, 0)
    ensures encodes <= 5 + 4 && (size <= MAX_BLOB_BYTES ==> encodes == 0)
    ensures forall i :: 0 <= i < encodes - 1 ==> TooBig(encode(SETTINGS[i]))
  {
    encodes := 0;
    if size <= MAX_BLOB_BYTES {
      if metadata.None? {
        return Ok(None), encodes;
      }
      var meta := metadata.value;
      if meta.mimeType.None? || meta.width == 0 || meta.height == 0 {
        return Ok(None), encodes;
      }
      return Ok(Some(Blob(size, meta.mimeType.value, meta.width, meta.height))), encodes;
    }
    var quality: nat := QUALITY_START;
    var out: Blob;
    while true
      invariant encodes < 5 && SETTINGS[encodes] == Setting(MAX_EDGE, quality, false)
      invariant forall i :: 0 <= i < encodes ==> TooBig(encode(SETTINGS[i]))
      invariant FirstFit(encode, 0) == FirstFit(encode, encodes)
      decreases quality
    {
      var attempt := encode(Setting(MAX_EDGE, quality, false));
      encodes := encodes + 1;
      if attempt.Throws? {
        return Throws(attempt.error), encodes;
      }
      out := attempt.value;
      if out.size <= MAX_BLOB_BYTES || quality <= QUALITY_FLOOR {
        break;
      }
      quality := if quality - 10 > QUALITY_FLOOR then quality - 10 else QUALITY_FLOOR;
    }
    if out.size > MAX_BLOB_BYTES {
      assert encodes == 5;
      for r := 0 to |FALLBACK_LADDER|
        invariant encodes == 5 + r && out.size > MAX_BLOB_BYTES
        invariant forall i :: 0 <= i < encodes ==> TooBig(encode(SETTINGS[i]))
        invariant FirstFit(encode, 0) == FirstFit(encode, encodes)
      {
        assert FALLBACK_LADDER[r] == SETTINGS[5 + r];
        var attempt := encode(FALLBACK_LADDER[r]);
        encodes := encodes + 1;
        if attempt.Throws? {
          return Throws(attempt.error), encodes;
        }
        out := attempt.value;
        if out.size <= MAX_BLOB_BYTES {
          break;
        }
      }
    }
    if out.size > MAX_BLOB_BYTES {
      return Ok(None), encodes;
    }
    result := Ok(Some(out));
  }

  lemma {:induction false} FirstFitFrom(encode: Setting -> Outcome<Blob, Error>, n: nat)
    requires n <= |SETTINGS|
    ensures forall blob :: FirstFit(encode, n) == Ok(Some(blob)) <==>
      exists k :: n <= k < |SETTINGS| && AllTooBig(encode, n, k) && encode(SETTINGS[k]) == Ok(blob)
        && blob.size <= MAX_BLOB_BYTES
    ensures FirstFit(encode, n) == Ok(None) <==> AllTooBig(encode, n, |SETTINGS|)
    decreases |SETTINGS| - n
  {
    if n < |SETTINGS| {
      if TooBig(encode(SETTINGS[n])) {
        FirstFitFrom(encode, n + 1);
        forall k | n < k <= |SETTINGS|
          ensures AllTooBig(encode, n, k) <==> AllTooBig(encode, n + 1, k)
        {
        }
      } else {
        assert AllTooBig(encode, n, n);
        assert forall k :: n < k <= |SETTINGS| && AllTooBig(encode, n, k) ==> TooBig(encode(SETTINGS[n]));
      }
    }
  }

  ghost predicate AllTooBig(encode: Setting -> Outcome<Blob, Error>, from: nat, to: nat)
    requires to <= |SETTINGS|
  {
    forall i :: from <= i < to ==> TooBig(encode(SETTINGS[i]))
  }

  /** For any encoder: the published image is the first setting's output that fits, and there is none
      exactly when all nine are too big. */
  lemma BestFittingSetting(encode: Setting -> Outcome<Blob, Error>)
    ensures forall blob :: FirstFit(encode, 0) == Ok(Some(blob)) <==>
      exists k :: 0 <= k < |SETTINGS| && AllTooBig(encode, 0, k) && encode(SETTINGS[k]) == Ok(blob)
        && blob.size <= MAX_BLOB_BYTES
    ensures FirstFit(encode, 0) == Ok(None) <==> AllTooBig(encode, 0, |SETTINGS|)
  {
    FirstFitFrom(encode, 0);
  }
}

/**
 JSON values as the PDS stores them, and the source-tagged array merge of
 src/bluesky/atproto-record-merge.utils.ts.
 */
module RecordMerge {
  import opened Basics

  datatype Json =
    | Null
    | Bool(b: bool)
    | Num(n: int)
    | Str(s: string)
    | Arr(items: seq<Json>)
    | Obj(fields: map<string, Json>)

  /** A TypeError raised by the merge; nothing downstream looks at its text. */
  datatype TypeError = TypeError

  /** `value.key` for a non-null value; a missing property reads as Null. */
  function Get(value: Json, key: string): Json {
    if value.Obj? && key in value.fields then value.fields[key] else Null
  }

  predicate Truthy(value: Json) {
    match value
    case Null => false
    case Bool(b) => b
    case Num(n) => n != 0
    case Str(s) => s != ""
    case Arr(_) => true
    case Obj(_) => true
  }

  /** `uri.includes(part)`: strings and arrays have the method, other truthy values do not. */
  function UriIncludes(uri: Json, part: string): Outcome<bool, TypeError> {
    match uri
    case Str(s) => Ok(Includes(s, part))
    case Arr(items) => Ok(Str(part) in items)
    case _ => Throws(TypeError)
  }

  function IsLegacyOpenMeetEntry(entry: Json): Outcome<bool, TypeError> {
    var uri := Get(entry, "uri");
    var name := Get(entry, "name");
    if !Truthy(uri) then Ok(false)
    else if name == Str("OpenMeet Event") then Ok(true)
    else
      var platform := UriIncludes(uri, "openmeet.net");
      var cdn := UriIncludes(uri, "cloudfront.net");
      if platform.Throws? || cdn.Throws? then Throws(TypeError)
      else Ok(platform.value || (cdn.value && (name == Str("Event Image") || name == Str("Online Meeting Link"))))
  }

  /** The filter test on one stored entry; reading `.source` of null throws. */
  function KeepsEntry(entry: Json, sourceId: string): Outcome<bool, TypeError> {
    if entry.Null? then Throws(TypeError)
    else if Get(entry, "source") == Str(sourceId) then Ok(false)
    else
      match IsLegacyOpenMeetEntry(entry)
      case Throws(e) => Throws(e)
      case Ok(legacy) => Ok(!legacy)
  }

  /** What "another app's entry" means. */
  predicate IsForeign(entry: Json, sourceId: string) {
    KeepsEntry(entry, sourceId) == Ok(true)
  }

  function OthersEntries(items: seq<Json>, sourceId: string): Outcome<seq<Json>, TypeError> {
    if items == [] then Ok([])
    else
      var head := KeepsEntry(items[0], sourceId);
      if head.Throws? then Throws(head.error)
      else
        var rest := OthersEntries(items[1..], sourceId);
        if rest.Throws? then rest
        else Ok((if head.value then [items[0]] else []) + rest.value)
  }

  function MergeArrayField(pdsArray: Json, openMeetEntries: seq<Json>, sourceId: string)
    : Outcome<seq<Json>, TypeError>
  {
    match pdsArray
    case Null => Ok(openMeetEntries)
    case Arr(items) =>
      (match OthersEntries(items, sourceId)
       case Throws(e) => Throws(e)
       case Ok(others) => Ok(others + openMeetEntries))
    case _ => Throws(TypeError)
  }

  /** The foreign entries of a stored array field, in order. */
  function ForeignEntries(field: Json, sourceId: string): seq<Json> {
    if field.Arr? then Filter(e => IsForeign(e, sourceId), field.items) else []
  }

  /** Every entry carries this deployment's source tag. */
  predicate AllTagged(entries: seq<Json>, sourceId: string) {
    forall e :: e in entries ==> e.Obj? && Get(e, "source") == Str(sourceId)
  }

  lemma {:induction false} OthersAreForeign(items: seq<Json>, sourceId: string)
    requires OthersEntries(items, sourceId).Ok?
    ensures OthersEntries(items, sourceId).value == Filter(e => IsForeign(e, sourceId), items)
  {
    if items != [] {
      OthersAreForeign(items[1..], sourceId);
    }
  }

  /** The merge throws exactly on a non-array value or on an entry its filter cannot read. */
  lemma {:induction false} OthersThrowOnlyOnUnreadable(items: seq<Json>, sourceId: string)
    ensures OthersEntries(items, sourceId).Throws? <==> exists e :: e in items && KeepsEntry(e, sourceId).Throws?
  {
    if items != [] {
      OthersThrowOnlyOnUnreadable(items[1..], sourceId);
      assert items == [items[0]] + items[1..];
    }
  }

  /** A successful merge is the foreign entries in their stored order, then exactly the current ones. */
  lemma MergeShape(pdsArray: Json, mine: seq<Json>, sourceId: string)
    requires MergeArrayField(pdsArray, mine, sourceId).Ok?
    ensures MergeArrayField(pdsArray, mine, sourceId).value == ForeignEntries(pdsArray, sourceId) + mine
  {
    if pdsArray.Arr? {
      OthersAreForeign(pdsArray.items, sourceId);
    }
  }

  /** The merge leaves the foreign part of the field untouched. */
  lemma MergeKeepsForeign(pdsArray: Json, mine: seq<Json>, sourceId: string)
    requires AllTagged(mine, sourceId)
    requires MergeArrayField(pdsArray, mine, sourceId).Ok?
    ensures ForeignEntries(Arr(MergeArrayField(pdsArray, mine, sourceId).value), sourceId)
         == ForeignEntries(pdsArray, sourceId)
  {
    var keep := (e: Json) => IsForeign(e, sourceId);
    var foreign := ForeignEntries(pdsArray, sourceId);
    MergeShape(pdsArray, mine, sourceId);
    FilterConcat(keep, foreign, mine);
    FilterAll(keep, foreign);
    FilterNone(keep, mine);
  }

  /** Merging is absorbing: a second merge erases every trace of the first one's entries. */
  lemma MergeAbsorbs(pdsArray: Json, first: seq<Json>, second: seq<Json>, sourceId: string)
    requires AllTagged(first, sourceId)
    requires MergeArrayField(pdsArray, first, sourceId).Ok?
    ensures var once := Arr(MergeArrayField(pdsArray, first, sourceId).value);
            MergeArrayField(once, second, sourceId) == MergeArrayField(pdsArray, second, sourceId)
  {
    var once := MergeArrayField(pdsArray, first, sourceId).value;
    MergeShape(pdsArray, first, sourceId);
    MergeKeepsForeign(pdsArray, first, sourceId);
    OthersThrowOnlyOnUnreadable(once, sourceId);
    forall e | e in once
      ensures KeepsEntry(e, sourceId).Ok?
    {
      if e in first {
        assert Get(e, "source") == Str(sourceId);
      }
    }
    OthersAreForeign(once, sourceId);
    MergeShape(pdsArray, second, sourceId);
  }

  // ---------------------------------------------------------------- whose an entry is, read off the entry itself

  /** An object whose uri, if it has one, is text. */
  predicate WellFormed(entry: Json) {
    entry.Obj? && ("uri" in entry.fields ==> entry.fields["uri"].Str? || entry.fields["uri"].Null?)
  }

  predicate Tagged(entry: Json, sourceId: string) {
    entry.Obj? && "source" in entry.fields && entry.fields["source"] == Str(sourceId)
  }

  predicate Named(entry: Json, name: string) {
    entry.Obj? && "name" in entry.fields && entry.fields["name"] == Str(name)
  }

  /** Text under `uri` that contains `part`. */
  predicate LinksTo(entry: Json, part: string) {
    entry.Obj? && "uri" in entry.fields && entry.fields["uri"].Str? && Includes(entry.fields["uri"].s, part)
  }

  /** Some uri, whatever its type. */
  predicate HasUri(entry: Json) {
    entry.Obj? && "uri" in entry.fields && entry.fields["uri"] !in {Null, Bool(false), Num(0), Str("")}
  }

  /** Written by OpenMeet before it tagged its entries. */
  predicate Untagged(entry: Json) {
    || (HasUri(entry) && Named(entry, "OpenMeet Event"))
    || LinksTo(entry, "openmeet.net")
    || (LinksTo(entry, "cloudfront.net") && (Named(entry, "Event Image") || Named(entry, "Online Meeting Link")))
  }

  /** A well-formed entry that OpenMeet did not write. */
  predicate OtherApps(entry: Json, sourceId: string) {
    WellFormed(entry) && !Tagged(entry, sourceId) && !Untagged(entry)
  }

  /** An entry on which the filter's test throws. */
  predicate Unreadable(entry: Json, sourceId: string) {
    || entry.Null?
    || (HasUri(entry) && !Tagged(entry, sourceId) && !Named(entry, "OpenMeet Event")
        && !entry.fields["uri"].Str? && !entry.fields["uri"].Arr?)
  }

  lemma NothingInEmpty(part: string)
    requires part != ""
    ensures !Includes("", part)
  {
  }

  /** What the filter's test says of every entry, by the entry's shape. */
  lemma KeepsByShape(entry: Json, sourceId: string)
    ensures KeepsEntry(entry, sourceId).Throws? <==> Unreadable(entry, sourceId)
    ensures WellFormed(entry) ==> (IsForeign(entry, sourceId) <==> OtherApps(entry, sourceId))
    ensures Tagged(entry, sourceId) || Untagged(entry) ==> !IsForeign(entry, sourceId)
  {
    NothingInEmpty("openmeet.net");
    NothingInEmpty("cloudfront.net");
  }

  /** Other apps' entries survive a merge in their stored order and number, whatever else the field holds. */
  lemma MergeKeepsOtherApps(pdsArray: Json, mine: seq<Json>, sourceId: string)
    requires AllTagged(mine, sourceId) && MergeArrayField(pdsArray, mine, sourceId).Ok?
    ensures Filter(e => OtherApps(e, sourceId), MergeArrayField(pdsArray, mine, sourceId).value)
         == if pdsArray.Arr? then Filter(e => OtherApps(e, sourceId), pdsArray.items) else []
  {
    var others := (e: Json) => OtherApps(e, sourceId);
    MergeShape(pdsArray, mine, sourceId);
    FilterConcat(others, ForeignEntries(pdsArray, sourceId), mine);
    FilterNone(others, mine);
    OthersAmongForeign(pdsArray, sourceId);
  }

  lemma OthersAmongForeign(field: Json, sourceId: string)
    ensures Filter(e => OtherApps(e, sourceId), ForeignEntries(field, sourceId))
         == if field.Arr? then Filter(e => OtherApps(e, sourceId), field.items) else []
  {
    if field.Arr? {
      forall e | e in field.items
        ensures OtherApps(e, sourceId) ==> IsForeign(e, sourceId)
      {
        KeepsByShape(e, sourceId);
      }
      FilterWithin(e => OtherApps(e, sourceId), e => IsForeign(e, sourceId), field.items);
    }
  }

  /** What a merge keeps of the stored array is never an entry that OpenMeet wrote, tagged or not. */
  lemma MergeDropsOurs(pdsArray: Json, mine: seq<Json>, sourceId: string)
    requires MergeArrayField(pdsArray, mine, sourceId).Ok?
    ensures var merged := MergeArrayField(pdsArray, mine, sourceId).value;
      && |mine| <= |merged| && merged[|merged| - |mine|..] == mine
      && forall e :: e in merged[..|merged| - |mine|] ==> !Tagged(e, sourceId) && !Untagged(e)
  {
    var merged, kept := MergeArrayField(pdsArray, mine, sourceId).value, ForeignEntries(pdsArray, sourceId);
    MergeShape(pdsArray, mine, sourceId);
    assert merged[..|merged| - |mine|] == kept;
    forall e | e in kept
      ensures !Tagged(e, sourceId) && !Untagged(e)
    {
      KeepsByShape(e, sourceId);
    }
  }

  /** On well-formed entries the merge never fails: other apps' entries in order, then the current ones. */
  lemma MergeOfWellFormed(items: seq<Json>, mine: seq<Json>, sourceId: string)
    requires forall e :: e in items ==> WellFormed(e)
    ensures MergeArrayField(Arr(items), mine, sourceId) == Ok(Filter(e => OtherApps(e, sourceId), items) + mine)
  {
    forall e | e in items
      ensures KeepsEntry(e, sourceId).Ok? && IsForeign(e, sourceId) == OtherApps(e, sourceId)
    {
      KeepsByShape(e, sourceId);
    }
    OthersThrowOnlyOnUnreadable(items, sourceId);
    MergeShape(Arr(items), mine, sourceId);
    FilterSame(e => IsForeign(e, sourceId), e => OtherApps(e, sourceId), items);
  }

  /** The merge throws exactly on a value that is no array and on a null entry or one whose uri has no `includes`. */
  lemma MergeThrowsExactly(pdsArray: Json, mine: seq<Json>, sourceId: string)
    ensures MergeArrayField(pdsArray, mine, sourceId).Throws?
       <==> !pdsArray.Null? && (pdsArray.Arr? ==> exists e :: e in pdsArray.items && Unreadable(e, sourceId))
  {
    if pdsArray.Arr? {
      OthersThrowOnlyOnUnreadable(pdsArray.items, sourceId);
      forall e | e in pdsArray.items
        ensures KeepsEntry(e, sourceId).Throws? <==> Unreadable(e, sourceId)
      {
        KeepsByShape(e, sourceId);
      }
    }
  }
}

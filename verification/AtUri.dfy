/**
 Printing and parsing AT Protocol URIs, src/bluesky/bluesky-id.service.ts: `at://did/collection/rkey`,
 with an environment suffix added to the two calendar collections on the way out and removed on the way in.
 */
module AtUri {
  import opened Basics

  const EVENT: string := "community.lexicon.calendar.event"
  const RSVP: string := "community.lexicon.calendar.rsvp"

  datatype Parts = Parts(did: string, collection: string, rkey: string)

  datatype UriError = InvalidDid | InvalidCollection | InvalidRkey | InvalidFormat | InvalidStructure

  // ---------------------------------------------------------------- validation

  predicate Letter(c: char) {
    'a' <= c <= 'z' || 'A' <= c <= 'Z'
  }

  predicate Digit(c: char) {
    '0' <= c <= '9'
  }

  predicate CollectionChar(c: char) {
    Letter(c) || Digit(c) || c == '.' || c == '-'
  }

  /** /^did:(plc|web|key):[a-zA-Z0-9.%-]+$/ */
  predicate IsValidDid(did: string) {
    && |did| > 8
    && (did[..8] == "did:plc:" || did[..8] == "did:web:" || did[..8] == "did:key:")
    && forall i :: 8 <= i < |did| ==> CollectionChar(did[i]) || did[i] == '%'
  }

  predicate AllCollectionChars(s: string) {
    forall i :: 0 <= i < |s| ==> CollectionChar(s[i])
  }

  /** /^[a-zA-Z][a-zA-Z0-9.-]*$/ */
  predicate IsValidCollection(collection: string) {
    |collection| > 0 && Letter(collection[0]) && AllCollectionChars(collection)
  }

  /** /^[a-zA-Z0-9-]+$/ */
  predicate IsValidRkey(rkey: string) {
    |rkey| > 0 && forall i :: 0 <= i < |rkey| ==> Letter(rkey[i]) || Digit(rkey[i]) || rkey[i] == '-'
  }

  predicate Valid(p: Parts) {
    IsValidDid(p.did) && IsValidCollection(p.collection) && IsValidRkey(p.rkey)
  }

  // ---------------------------------------------------------------- the operations

  function ApplyCollectionSuffix(suffix: string, collection: string): string {
    if suffix == "" then collection
    else if collection == EVENT || collection == RSVP then collection + suffix
    else collection
  }

  function NormalizeCollection(suffix: string, collection: string): string {
    if suffix == "" then collection
    else if |suffix| <= |collection| && collection[|collection| - |suffix|..] == suffix then
      if collection == EVENT + suffix then EVENT
      else if collection == RSVP + suffix then RSVP
      else collection
    else collection
  }

  function Print(did: string, collection: string, rkey: string): string {
    "at://" + did + "/" + collection + "/" + rkey
  }

  function CreateUri(suffix: string, p: Parts): Outcome<string, UriError> {
    if !IsValidDid(p.did) then Throws(InvalidDid)
    else if !IsValidCollection(p.collection) then Throws(InvalidCollection)
    else if !IsValidRkey(p.rkey) then Throws(InvalidRkey)
    else Ok(Print(p.did, ApplyCollectionSuffix(suffix, p.collection), p.rkey))
  }

  /** `split('/')` */
  function Split(s: string): (parts: seq<string>)
    ensures |parts| >= 1
  {
    if s == "" then [""]
    else
      var rest := Split(s[1..]);
      if s[0] == '/' then [""] + rest else [[s[0]] + rest[0]] + rest[1..]
  }

  function ParseUri(suffix: string, uri: string): Outcome<Parts, UriError> {
    if !("at://" <= uri) then Throws(InvalidFormat)
    else
      var parts := Split(uri[5..]);
      if |parts| != 3 then Throws(InvalidStructure)
      else Ok(Parts(parts[0], NormalizeCollection(suffix, parts[1]), parts[2]))
  }

  /** The regex asks for three non-empty parts, then each part is validated. */
  predicate IsValidUri(uri: string) {
    && "at://" <= uri
    && var parts := Split(uri[5..]);
      && |parts| == 3
      && parts[0] != "" && parts[1] != "" && parts[2] != ""
      && Valid(Parts(parts[0], parts[1], parts[2]))
  }

  // ---------------------------------------------------------------- splitting

  lemma {:induction false} SplitPlain(s: string)
    requires '/' !in s
    ensures Split(s) == [s]
  {
    if s != "" {
      SplitPlain(s[1..]);
      assert s == [s[0]] + s[1..];
    }
  }

  lemma {:induction false} SplitAt(a: string, b: string)
    requires '/' !in a
    ensures Split(a + "/" + b) == [a] + Split(b)
  {
    var s := a + "/" + b;
    if a == "" {
      assert s == ['/'] + b && s[1..] == b;
    } else {
      SplitAt(a[1..], b);
      assert s[1..] == a[1..] + "/" + b;
      assert a == [a[0]] + a[1..];
    }
  }

  /** How many pieces: one more than there are slashes, and the pieces hold none. */
  lemma {:induction false} SplitPieces(s: string)
    ensures |Split(s)| == 1 <==> '/' !in s
    ensures forall i :: 0 <= i < |Split(s)| ==> '/' !in Split(s)[i]
  {
    if s != "" {
      SplitPieces(s[1..]);
      assert s == [s[0]] + s[1..];
    }
  }

  function JoinSlash(parts: seq<string>): string
    requires |parts| >= 1
  {
    if |parts| == 1 then parts[0] else parts[0] + "/" + JoinSlash(parts[1..])
  }

  lemma {:induction false} JoinSplit(s: string)
    ensures JoinSlash(Split(s)) == s
  {
    if s != "" {
      JoinSplit(s[1..]);
      var rest := Split(s[1..]);
      if s[0] == '/' {
        assert ([""] + rest)[1..] == rest;
        assert s == "" + "/" + s[1..];
      } else {
        var parts := [[s[0]] + rest[0]] + rest[1..];
        assert parts[1..] == rest[1..];
        assert s == [s[0]] + s[1..];
        if |rest| > 1 {
          assert [s[0]] + (rest[0] + "/" + JoinSlash(rest[1..])) == ([s[0]] + rest[0]) + "/" + JoinSlash(rest[1..]);
        }
      }
    }
  }

  lemma PartsHaveNoSlash(p: Parts)
    requires Valid(p)
    ensures '/' !in p.did && '/' !in p.collection && '/' !in p.rkey
  {
    forall i | 0 <= i < |p.did|
      ensures p.did[i] != '/'
    {
      if i < 8 {
        assert p.did[i] == p.did[..8][i];
      }
    }
  }

  /** Splitting what was printed gives the three pieces back, as long as the middle one has no slash. */
  lemma SplitPrinted(did: string, collection: string, rkey: string)
    requires '/' !in did && '/' !in rkey
    ensures "at://" <= Print(did, collection, rkey)
    ensures |Split(Print(did, collection, rkey)[5..])| == 3 <==> '/' !in collection
    ensures '/' !in collection ==> Split(Print(did, collection, rkey)[5..]) == [did, collection, rkey]
  {
    var tail := collection + "/" + rkey;
    assert Print(did, collection, rkey) == "at://" + (did + "/" + tail);
    assert Print(did, collection, rkey)[5..] == did + "/" + tail;
    SplitAt(did, tail);
    SplitPlain(rkey);
    if '/' !in collection {
      SplitAt(collection, rkey);
      assert [did] + ([collection] + [rkey]) == [did, collection, rkey];
    } else {
      SlashesAddUp(collection, rkey);
      SplitPieces(collection);
    }
  }

  lemma {:induction false} SlashesAddUp(a: string, b: string)
    requires '/' !in b
    ensures |Split(a + "/" + b)| == |Split(a)| + 1
  {
    var s := a + "/" + b;
    if a == "" {
      assert s == ['/'] + b && s[1..] == b;
      SplitPlain(b);
    } else {
      SlashesAddUp(a[1..], b);
      assert s[1..] == a[1..] + "/" + b;
    }
  }

  // ---------------------------------------------------------------- round trips

  lemma CalendarNames(suffix: string)
    ensures IsValidCollection(EVENT) && IsValidCollection(RSVP)
    ensures EVENT + suffix != RSVP + suffix && EVENT + suffix != RSVP && RSVP + suffix != EVENT
    ensures suffix != "" ==> EVENT + suffix != EVENT && RSVP + suffix != RSVP
    ensures (EVENT + suffix)[|EVENT|..] == suffix && (RSVP + suffix)[|RSVP|..] == suffix
  {
    assert EVENT[27] == 'e' && RSVP[27] == 'r';
    assert (EVENT + suffix)[27] == 'e' && (RSVP + suffix)[27] == 'r';
  }

  predicate AlreadySuffixed(suffix: string, collection: string) {
    suffix != "" && (collection == EVENT + suffix || collection == RSVP + suffix)
  }

  predicate BareCalendar(suffix: string, collection: string) {
    suffix != "" && (collection == EVENT || collection == RSVP)
  }

  lemma NormalizeApplied(suffix: string, collection: string)
    ensures NormalizeCollection(suffix, ApplyCollectionSuffix(suffix, collection)) == collection
      <==> !AlreadySuffixed(suffix, collection)
  {
    CalendarNames(suffix);
  }

  lemma NormalizeOthers(suffix: string, collection: string)
    requires suffix != ""
    ensures NormalizeCollection(suffix, collection) ==
      if collection == EVENT + suffix then EVENT else if collection == RSVP + suffix then RSVP else collection
  {
    CalendarNames(suffix);
  }

  lemma ApplyNormalized(suffix: string, collection: string)
    ensures ApplyCollectionSuffix(suffix, NormalizeCollection(suffix, collection)) == collection
      <==> !BareCalendar(suffix, collection)
  {
    CalendarNames(suffix);
    if suffix != "" && collection != EVENT && collection != RSVP {
      NormalizeOthers(suffix, collection);
    }
  }

  lemma SuffixSlash(suffix: string, collection: string)
    requires '/' !in collection
    ensures '/' in ApplyCollectionSuffix(suffix, collection) <==> BareCalendar(suffix, collection) && '/' in suffix
  {
    var applied := ApplyCollectionSuffix(suffix, collection);
    if BareCalendar(suffix, collection) {
      assert forall c :: c in applied <==> c in collection || c in suffix;
    }
  }

  /** Parsing what createUri printed gives the parts back exactly when the collection is not itself an already suffixed
      calendar collection and no slash in the suffix splits it. */
  lemma ParseOfPrintedExactly(suffix: string, p: Parts)
    requires Valid(p)
    ensures CreateUri(suffix, p).Ok?
    ensures ParseUri(suffix, CreateUri(suffix, p).value) == Ok(p) <==>
      !AlreadySuffixed(suffix, p.collection) && !(BareCalendar(suffix, p.collection) && '/' in suffix)
  {
    var applied := ApplyCollectionSuffix(suffix, p.collection);
    PartsHaveNoSlash(p);
    SplitPrinted(p.did, applied, p.rkey);
    SuffixSlash(suffix, p.collection);
    NormalizeApplied(suffix, p.collection);
  }

  /** The printed URI passes isValidUri exactly when the suffix, if it is used at all, is made of
      collection characters. */
  lemma PrintedIsValidExactly(suffix: string, p: Parts)
    requires Valid(p)
    ensures CreateUri(suffix, p).Ok?
    ensures IsValidUri(CreateUri(suffix, p).value)
      <==> (BareCalendar(suffix, p.collection) ==> AllCollectionChars(suffix))
  {
    var applied := ApplyCollectionSuffix(suffix, p.collection);
    PartsHaveNoSlash(p);
    SplitPrinted(p.did, applied, p.rkey);
    SuffixSlash(suffix, p.collection);
    if BareCalendar(suffix, p.collection) {
      assert AllCollectionChars(applied) <==> AllCollectionChars(suffix) by {
        assert forall i :: 0 <= i < |suffix| ==> applied[|p.collection| + i] == suffix[i];
      }
      if '/' in suffix {
        var i :| 0 <= i < |suffix| && suffix[i] == '/';
        assert !CollectionChar(suffix[i]);
      }
    }
  }

  /** isValidUri accepts exactly the printed forms of valid parts. */
  lemma ValidExactlyWhenPrinted(uri: string)
    ensures IsValidUri(uri) <==> exists p :: Valid(p) && uri == Print(p.did, p.collection, p.rkey)
  {
    if IsValidUri(uri) {
      var parts := ValidParts(uri);
      assert Valid(parts) && uri == Print(parts.did, parts.collection, parts.rkey);
    }
    forall p | Valid(p) && uri == Print(p.did, p.collection, p.rkey)
      ensures IsValidUri(uri)
    {
      PartsHaveNoSlash(p);
      SplitPrinted(p.did, p.collection, p.rkey);
    }
  }

  lemma ValidParts(uri: string) returns (p: Parts)
    requires IsValidUri(uri)
    ensures Valid(p) && uri == Print(p.did, p.collection, p.rkey) && Split(uri[5..]) == [p.did, p.collection, p.rkey]
  {
    var parts := Split(uri[5..]);
    JoinSplit(uri[5..]);
    assert parts[1..] == [parts[1], parts[2]] && parts[1..][1..] == [parts[2]];
    assert JoinSlash(parts[1..]) == parts[1] + "/" + parts[2];
    assert JoinSlash(parts) == parts[0] + "/" + (parts[1] + "/" + parts[2]);
    assert uri == "at://" + uri[5..];
    p := Parts(parts[0], parts[1], parts[2]);
  }

  /** Printing what was parsed from a valid URI gives it back, unless its collection is a bare calendar one
      while a suffix is set. */
  lemma PrintOfParsedExactly(suffix: string, uri: string)
    requires IsValidUri(uri)
    ensures ParseUri(suffix, uri).Ok?
    ensures CreateUri(suffix, ParseUri(suffix, uri).value) == Ok(uri) <==> !BareCalendar(suffix, Split(uri[5..])[1])
  {
    var p := ValidParts(uri);
    var normalized := NormalizeCollection(suffix, p.collection);
    CalendarNames(suffix);
    ApplyNormalized(suffix, p.collection);
    var again := ApplyCollectionSuffix(suffix, normalized);
    PartsHaveNoSlash(p);
    SplitPrinted(p.did, p.collection, p.rkey);
    if again != p.collection && Print(p.did, again, p.rkey) == uri {
      SplitPrinted(p.did, again, p.rkey);
    }
  }

  /** The accepted DIDs are those of three methods with at least one identifier character. */
  lemma ValidDidExactly(name: string, id: string)
    requires |name| == 3 && ':' !in name
    ensures IsValidDid("did:" + name + ":" + id) <==>
      && name in {"plc", "web", "key"} && id != ""
      && forall i :: 0 <= i < |id| ==>
           'a' <= id[i] <= 'z' || 'A' <= id[i] <= 'Z' || '0' <= id[i] <= '9' || id[i] in {'.', '-', '%'}
  {
    var did := "did:" + name + ":" + id;
    var head := "did:" + name + ":";
    assert did == head + id && did[..8] == head && did[8..] == id;
    MethodDecides(name, "plc");
    MethodDecides(name, "web");
    MethodDecides(name, "key");
    assert "did:" + "plc" + ":" == "did:plc:";
    assert "did:" + "web" + ":" == "did:web:";
    assert "did:" + "key" + ":" == "did:key:";
    assert forall i :: 8 <= i < |did| ==> did[i] == did[8..][i - 8];
    assert forall i :: 0 <= i < |id| ==> did[8 + i] == id[i];
  }

  lemma MethodDecides(name: string, other: string)
    requires |name| == 3 && |other| == 3
    ensures "did:" + name + ":" == "did:" + other + ":" <==> name == other
  {
    var a, b := "did:" + name + ":", "did:" + other + ":";
    assert a[4..7] == name && b[4..7] == other;
  }

  /** A letter, a digit or a hyphen is a valid record key, and longer keys are valid exactly when all parts are. */
  lemma ValidRkeyExactly(rkey: string, more: string)
    ensures IsValidRkey(rkey + more) <==>
      && (rkey == "" || IsValidRkey(rkey)) && (more == "" || IsValidRkey(more)) && (rkey != "" || more != "")
    ensures |rkey| == 1 ==>
      (IsValidRkey(rkey) <==>
        'a' <= rkey[0] <= 'z' || 'A' <= rkey[0] <= 'Z' || '0' <= rkey[0] <= '9' || rkey[0] == '-')
  {
    var whole := rkey + more;
    assert forall i :: 0 <= i < |rkey| ==> whole[i] == rkey[i];
    assert forall i :: 0 <= i < |more| ==> whole[|rkey| + i] == more[i];
    assert forall i :: |rkey| <= i < |whole| ==> whole[i] == more[i - |rkey|];
  }

  /** Collections begin with a letter and go on with letters, digits, dots and hyphens. */
  lemma ValidCollectionExactly(first: char, rest: string)
    ensures IsValidCollection([first] + rest) <==>
      && ('a' <= first <= 'z' || 'A' <= first <= 'Z')
      && forall i :: 0 <= i < |rest| ==>
           'a' <= rest[i] <= 'z' || 'A' <= rest[i] <= 'Z' || '0' <= rest[i] <= '9' || rest[i] in {'.', '-'}
  {
    var collection := [first] + rest;
    assert forall i :: 0 <= i < |rest| ==> collection[i + 1] == rest[i];
    assert forall i :: 1 <= i < |collection| ==> collection[i] == rest[i - 1];
  }
}

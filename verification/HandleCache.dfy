/**
 The DID-to-handle cache of src/bluesky/atproto-handle-cache.service.ts over Redis: look up, else
 resolve and store in the background. Lookups can time out, stores can land late or never, and
 invalidations interleave. Times are in seconds.
 */
module HandleCache {
  import opened Basics

  const CACHE_TTL: int := 14400
  const CACHE_PREFIX: string := "atproto:handle:"

  // ---------------------------------------------------------------- which DIDs reach the cache

  predicate DidChar(c: char) {
    'a' <= c <= 'z' || 'A' <= c <= 'Z' || '0' <= c <= '9' || c == '.' || c == '_' || c == '-'
  }

  /** /^did:(plc|web):[a-zA-Z0-9._-]{1,100}$/ */
  predicate MatchesPattern(did: string) {
    && 8 < |did| <= 108
    && (did[..8] == "did:plc:" || did[..8] == "did:web:")
    && forall i :: 8 <= i < |did| ==> DidChar(did[i])
  }

  predicate Dangerous(c: char) {
    c == '\0' || c == '\n' || c == '\r' || c == '\t' || c == '\U{1b}'
  }

  predicate ValidDid(did: string) {
    did != "" && |did| <= 200 && MatchesPattern(did) && forall i :: 0 <= i < |did| ==> !Dangerous(did[i])
  }

  /** The length and control-character checks reject nothing that the pattern lets through. */
  lemma PatternDecides(did: string)
    ensures ValidDid(did) <==> MatchesPattern(did)
    ensures MatchesPattern(did) ==> "did:" <= did
  {
    if MatchesPattern(did) {
      forall i | 0 <= i < |did|
        ensures !Dangerous(did[i])
      {
        if i < 8 {
          assert did[i] == did[..8][i];
        }
      }
      assert did[..4] == did[..8][..4];
    }
  }

  // ---------------------------------------------------------------- the shared cache and its callers

  /** A cached handle, when Redis stored it, and the call that resolved it. */
  datatype Item = Item(handle: string, storedAt: int, writer: nat)

  /** One `resolveHandle`: before its lookup, after a miss, or returned. */
  datatype Call =
    | Looking(did: string)
    | Fetching(did: string)
    | Returned(did: string, result: string, at: int, how: How)

  /** How a call came by its result: no valid DID, an error or timeout, a cache hit, or a resolution. */
  datatype How = Rejected | GaveUp | Cached | Resolved(document: Option<string>)

  datatype Write = Write(did: string, handle: string)

  /** History: which document the resolver delivered to which call, by the handle in it, and which writes Redis
      executed. */
  datatype Fetch = Fetch(call: nat, did: string, document: Option<string>, at: int)
  datatype Landed = Landed(did: string, handle: string, at: int)

  datatype System = System(
    now: int,
    cache: map<string, Item>,
    calls: map<nat, Call>,
    pending: map<nat, Write>,
    fetches: set<Fetch>,
    landed: set<Landed>
  )

  /** `lost`: the client is closed, the operation timed out or failed, so the lookup reads as null. */
  datatype Step =
    | Tick(elapsed: nat)
    | Begin(call: nat, did: string)
    | Lookup(call: nat, lost: bool)
    | Resolve(call: nat, document: Option<string>, connected: bool)
    | GiveUp(call: nat)
    | StoreLands(call: nat)
    | StoreFails(call: nat)
    | Invalidate(did: string, reached: bool)
    | Evict(key: string)

  function KeyOf(hash: string -> string, did: string): string {
    CACHE_PREFIX + hash(did)
  }

  /** A hit needs a live and non-empty value. */
  predicate Hit(cache: map<string, Item>, now: int, key: string) {
    key in cache && now < cache[key].storedAt + CACHE_TTL && cache[key].handle != ""
  }

  /** The handle in the DID document, or the DID itself when there is none or resolution failed. */
  function HandleOrDid(document: Option<string>, did: string): string {
    match document
    case Some(handle) => if handle != "" then handle else did
    case None => did
  }

  function Apply(hash: string -> string, s: System, step: Step): System {
    match step
    case Tick(elapsed) => s.(now := s.now + elapsed)
    case Begin(call, did) =>
      if call in s.calls then s
      else
        var next := if "did:" <= did && ValidDid(did) then Looking(did)
                    else Returned(did, did, s.now, Rejected);
        s.(calls := s.calls[call := next])
    case Lookup(call, lost) =>
      if call in s.calls && s.calls[call].Looking? then
        var did := s.calls[call].did;
        var key := KeyOf(hash, did);
        var found := !lost && Hit(s.cache, s.now, key);
        s.(calls := s.calls[call := if found then Returned(did, s.cache[key].handle, s.now, Cached) else Fetching(did)])
      else s
    case Resolve(call, document, connected) =>
      if call in s.calls && s.calls[call].Fetching? then
        var did := s.calls[call].did;
        var handle := HandleOrDid(document, did);
        s.(calls := s.calls[call := Returned(did, handle, s.now, Resolved(document))],
           fetches := s.fetches + {Fetch(call, did, document, s.now)},
           pending := if connected then s.pending[call := Write(did, handle)] else s.pending)
      else s
    case GiveUp(call) =>
      if call in s.calls && !s.calls[call].Returned?
      then s.(calls := s.calls[call := Returned(s.calls[call].did, s.calls[call].did, s.now, GaveUp)])
      else s
    case StoreLands(call) =>
      if call in s.pending then
        var w := s.pending[call];
        s.(cache := s.cache[KeyOf(hash, w.did) := Item(w.handle, s.now, call)],
           pending := s.pending - {call},
           landed := s.landed + {Landed(w.did, w.handle, s.now)})
      else s
    case StoreFails(call) => s.(pending := s.pending - {call})
    case Invalidate(did, reached) =>
      if ValidDid(did) && reached then s.(cache := s.cache - {KeyOf(hash, did)}) else s
    case Evict(key) => s.(cache := s.cache - {key})
  }

  function RunFrom(hash: string -> string, s: System, steps: seq<Step>): System {
    if steps == [] then s else Apply(hash, RunFrom(hash, s, steps[..|steps| - 1]), steps[|steps| - 1])
  }

  function Start(now: int): System {
    System(now, map[], map[], map[], {}, {})
  }

  ghost predicate CollisionFree(hash: string -> string, dids: set<string>) {
    forall a, b :: a in dids && b in dids && hash(a) == hash(b) ==> a == b
  }

  predicate Concerns(step: Step, dids: set<string>) {
    match step
    case Begin(_, did) => did in dids
    case Invalidate(did, _) => did in dids
    case _ => true
  }

  predicate AllConcern(steps: seq<Step>, dids: set<string>) {
    forall i :: 0 <= i < |steps| ==> Concerns(steps[i], dids)
  }

  lemma KeysDiffer(hash: string -> string, dids: set<string>, a: string, b: string)
    requires CollisionFree(hash, dids) && a in dids && b in dids && KeyOf(hash, a) == KeyOf(hash, b)
    ensures a == b
  {
    assert KeyOf(hash, a)[|CACHE_PREFIX|..] == hash(a) && KeyOf(hash, b)[|CACHE_PREFIX|..] == hash(b);
  }

  // ---------------------------------------------------------------- what a lookup can return

  /** The document has no handle, or names the DID itself. */
  predicate NamesNothing(document: Option<string>, did: string) {
    document == None || document == Some("") || document == Some(did)
  }

  /** The answer that a resolved document stands for: its handle, or else the DID. */
  predicate Answers(document: Option<string>, did: string, result: string) {
    (result == did <==> NamesNothing(document, did)) && (result != did ==> document == Some(result))
  }

  ghost predicate FetchedBefore(s: System, did: string, handle: string, at: int) {
    exists f :: f in s.fetches && f.did == did && f.at <= at && Answers(f.document, did, handle)
  }

  ghost predicate StoredAt(s: System, did: string, handle: string, at: int) {
    Landed(did, handle, at) in s.landed && FetchedBefore(s, did, handle, at)
  }

  ghost predicate FreshlyStored(s: System, did: string, handle: string, at: int) {
    exists t :: t <= at < t + CACHE_TTL && StoredAt(s, did, handle, t)
  }

  /** Where the result of a returned call comes from: the DID itself if it is not valid or the call gave up; what
      the document resolved by this call says; or what one resolved earlier says whose answer was stored less
      than the time-to-live before. */
  ghost predicate Justified(s: System, call: nat)
    requires call in s.calls && s.calls[call].Returned?
  {
    var r := s.calls[call];
    match r.how
    case Rejected => r.result == r.did && !ValidDid(r.did)
    case GaveUp => r.result == r.did
    case Resolved(document) => Fetch(call, r.did, document, r.at) in s.fetches && Answers(document, r.did, r.result)
    case Cached => FreshlyStored(s, r.did, r.result, r.at)
  }

  ghost predicate AllJustified(s: System) {
    forall call :: call in s.calls && s.calls[call].Returned? ==> Justified(s, call)
  }

  ghost predicate CacheHonest(hash: string -> string, s: System, dids: set<string>) {
    forall did :: did in dids && KeyOf(hash, did) in s.cache ==>
      var item := s.cache[KeyOf(hash, did)];
      item.storedAt <= s.now && StoredAt(s, did, item.handle, item.storedAt)
  }

  ghost predicate PendingHonest(s: System, dids: set<string>) {
    forall call :: call in s.pending ==>
      s.pending[call].did in dids && FetchedBefore(s, s.pending[call].did, s.pending[call].handle, s.now)
  }

  ghost predicate CallsConcern(s: System, dids: set<string>) {
    forall call :: call in s.calls ==> s.calls[call].did in dids
  }

  ghost predicate Honest(hash: string -> string, s: System, dids: set<string>) {
    AllJustified(s) && CacheHonest(hash, s, dids) && PendingHonest(s, dids) && CallsConcern(s, dids)
  }

  /** Histories only grow, so what they justify stays justified. */
  ghost predicate Extends(s: System, t: System) {
    s.fetches <= t.fetches && s.landed <= t.landed && s.now <= t.now
  }

  lemma StoredStays(s: System, t: System, did: string, handle: string, at: int)
    requires Extends(s, t)
    ensures FetchedBefore(s, did, handle, at) ==> (forall later :: at <= later ==> FetchedBefore(t, did, handle, later))
    ensures StoredAt(s, did, handle, at) ==> StoredAt(t, did, handle, at)
  {
  }

  lemma FreshlyStoredStays(s: System, t: System, did: string, handle: string, at: int)
    requires Extends(s, t) && FreshlyStored(s, did, handle, at)
    ensures FreshlyStored(t, did, handle, at)
  {
    var stored :| stored <= at < stored + CACHE_TTL && StoredAt(s, did, handle, stored);
    StoredStays(s, t, did, handle, stored);
  }

  lemma StepKeepsCache(hash: string -> string, s: System, step: Step, dids: set<string>)
    requires Honest(hash, s, dids) && CollisionFree(hash, dids)
    ensures CacheHonest(hash, Apply(hash, s, step), dids)
  {
    var t := Apply(hash, s, step);
    forall did | did in dids && KeyOf(hash, did) in t.cache
      ensures t.cache[KeyOf(hash, did)].storedAt <= t.now
      ensures StoredAt(t, did, t.cache[KeyOf(hash, did)].handle, t.cache[KeyOf(hash, did)].storedAt)
    {
      var key := KeyOf(hash, did);
      if key in s.cache && t.cache[key] == s.cache[key] {
        StoredStays(s, t, did, s.cache[key].handle, s.cache[key].storedAt);
      } else {
        var w := s.pending[step.call];
        KeysDiffer(hash, dids, did, w.did);
        StoredStays(s, t, did, w.handle, s.now);
      }
    }
  }

  lemma StepKeepsPending(hash: string -> string, s: System, step: Step, dids: set<string>)
    requires Honest(hash, s, dids) && Concerns(step, dids)
    ensures PendingHonest(Apply(hash, s, step), dids) && CallsConcern(Apply(hash, s, step), dids)
  {
    var t := Apply(hash, s, step);
    forall call | call in t.pending
      ensures t.pending[call].did in dids && FetchedBefore(t, t.pending[call].did, t.pending[call].handle, t.now)
    {
      var w := t.pending[call];
      if call in s.pending && s.pending[call] == w {
        StoredStays(s, t, w.did, w.handle, s.now);
      } else {
        assert Fetch(call, w.did, step.document, s.now) in t.fetches;
      }
    }
  }

  lemma HitIsFresh(hash: string -> string, s: System, did: string, dids: set<string>)
    requires CacheHonest(hash, s, dids) && did in dids && Hit(s.cache, s.now, KeyOf(hash, did))
    ensures FreshlyStored(s, did, s.cache[KeyOf(hash, did)].handle, s.now)
  {
    var item := s.cache[KeyOf(hash, did)];
    assert StoredAt(s, did, item.handle, item.storedAt);
  }

  lemma OldResultStays(s: System, t: System, call: nat)
    requires Extends(s, t) && call in s.calls && s.calls[call].Returned? && Justified(s, call)
    requires call in t.calls && t.calls[call] == s.calls[call]
    ensures Justified(t, call)
  {
    var r := s.calls[call];
    if r.how.Cached? {
      FreshlyStoredStays(s, t, r.did, r.result, r.at);
    }
  }

  /** A call that returns in this step. */
  lemma NewResultJustified(hash: string -> string, s: System, step: Step, call: nat, dids: set<string>)
    requires CacheHonest(hash, s, dids) && CallsConcern(s, dids)
    requires var t := Apply(hash, s, step);
      call in t.calls && t.calls[call].Returned? && !(call in s.calls && s.calls[call] == t.calls[call])
    ensures Justified(Apply(hash, s, step), call)
  {
    if step.Lookup? {
      var did := s.calls[call].did;
      HitIsFresh(hash, s, did, dids);
      FreshlyStoredStays(s, Apply(hash, s, step), did, s.cache[KeyOf(hash, did)].handle, s.now);
    }
  }

  lemma StepKeepsResults(hash: string -> string, s: System, step: Step, dids: set<string>)
    requires Honest(hash, s, dids)
    ensures AllJustified(Apply(hash, s, step))
  {
    var t := Apply(hash, s, step);
    forall call | call in t.calls && t.calls[call].Returned?
      ensures Justified(t, call)
    {
      if call in s.calls && s.calls[call] == t.calls[call] {
        OldResultStays(s, t, call);
      } else {
        NewResultJustified(hash, s, step, call, dids);
      }
    }
  }

  lemma {:induction false} HonestRun(hash: string -> string, start: int, steps: seq<Step>, dids: set<string>)
    requires CollisionFree(hash, dids) && AllConcern(steps, dids)
    ensures Honest(hash, RunFrom(hash, Start(start), steps), dids)
  {
    if steps != [] {
      var init, last := steps[..|steps| - 1], steps[|steps| - 1];
      HonestRun(hash, start, init, dids);
      var s := RunFrom(hash, Start(start), init);
      StepKeepsCache(hash, s, last, dids);
      StepKeepsPending(hash, s, last, dids);
      StepKeepsResults(hash, s, last, dids);
    }
  }

  /** In every interleaving `resolveHandle` returns the DID or the handle in a document that was resolved for
      this very DID, by this call or less than the time-to-live before it was stored; and it returns the DID
      exactly when the DID is not valid, the call gave up, or that document has no other handle. */
  lemma HandleAgreement(hash: string -> string, start: int, steps: seq<Step>, dids: set<string>, call: nat)
    requires CollisionFree(hash, dids) && AllConcern(steps, dids)
    requires var s := RunFrom(hash, Start(start), steps); call in s.calls && s.calls[call].Returned?
    ensures Justified(RunFrom(hash, Start(start), steps), call)
  {
    HonestRun(hash, start, steps, dids);
  }

  // ---------------------------------------------------------------- invalidation

  /** The call's lookup had already missed (or it had returned) in state `s`: what it stores was fetched
      for an older view. */
  predicate Older(s: System, call: nat) {
    call in s.calls && !s.calls[call].Looking?
  }

  /** A resolution or a background store for the DID is still under way. */
  ghost predicate StillOut(s: System, did: string) {
    || (exists call :: call in s.pending && s.pending[call].did == did)
    || (exists call :: call in s.calls && s.calls[call] == Fetching(did))
  }

  ghost predicate Restored(hash: string -> string, s: System, t: System, did: string) {
    KeyOf(hash, did) in t.cache && Older(s, t.cache[KeyOf(hash, did)].writer)
  }

  ghost predicate NothingOld(hash: string -> string, s: System, t: System, did: string) {
    && !Restored(hash, s, t, did)
    && (forall call :: call in t.pending && t.pending[call].did == did ==> !Older(s, call))
    && (forall call :: call in t.calls && t.calls[call] == Fetching(did) ==> !Older(s, call))
    && (forall call :: call in s.calls ==> call in t.calls && (t.calls[call].Looking? ==> s.calls[call].Looking?))
  }

  ghost predicate WritersConcern(t: System, dids: set<string>) {
    CallsConcern(t, dids) && forall call :: call in t.pending ==> t.pending[call].did in dids
  }

  lemma StepKeepsNothingOld(hash: string -> string, s: System, t: System, step: Step, did: string, dids: set<string>)
    requires NothingOld(hash, s, t, did) && WritersConcern(t, dids) && Concerns(step, dids)
    requires CollisionFree(hash, dids) && did in dids
    ensures NothingOld(hash, s, Apply(hash, t, step), did) && WritersConcern(Apply(hash, t, step), dids)
  {
    if step.StoreLands? && step.call in t.pending {
      var w := t.pending[step.call];
      if KeyOf(hash, w.did) == KeyOf(hash, did) {
        KeysDiffer(hash, dids, w.did, did);
      }
    }
  }

  lemma {:induction false} NothingOldReturns(
    hash: string -> string, s: System, post: seq<Step>, did: string, dids: set<string>)
    requires NothingOld(hash, s, s, did) && WritersConcern(s, dids) && AllConcern(post, dids)
    requires CollisionFree(hash, dids) && did in dids
    ensures NothingOld(hash, s, RunFrom(hash, s, post), did) && WritersConcern(RunFrom(hash, s, post), dids)
  {
    if post != [] {
      var init := post[..|post| - 1];
      NothingOldReturns(hash, s, init, did, dids);
      StepKeepsNothingOld(hash, s, RunFrom(hash, s, init), post[|post| - 1], did, dids);
    }
  }

  /** Whatever is still out can land: a store directly, a resolution after it completes. */
  lemma OutCanLand(hash: string -> string, s: System, did: string, dids: set<string>) returns (post: seq<Step>)
    requires StillOut(s, did) && PendingReturned(s)
    ensures AllConcern(post, dids) && Restored(hash, s, RunFrom(hash, s, post), did)
  {
    if call :| call in s.pending && s.pending[call].did == did {
      post := [StoreLands(call)];
      assert RunFrom(hash, s, post) == Apply(hash, s, post[0]);
    } else {
      var call :| call in s.calls && s.calls[call] == Fetching(did);
      post := [Resolve(call, None, true), StoreLands(call)];
      var resolved := Apply(hash, s, post[0]);
      assert post[..1] == [post[0]] && RunFrom(hash, s, [post[0]]) == resolved;
      assert resolved.pending[call].did == did;
    }
  }

  ghost predicate PendingReturned(s: System) {
    forall call :: call in s.pending ==> call in s.calls && s.calls[call].Returned?
  }

  lemma PendingStayReturned(hash: string -> string, s: System, step: Step)
    requires PendingReturned(s)
    ensures PendingReturned(Apply(hash, s, step))
  {
  }

  /** Every call with a store under way has returned. */
  lemma {:induction false} PendingHaveReturned(hash: string -> string, start: int, steps: seq<Step>)
    ensures PendingReturned(RunFrom(hash, Start(start), steps))
  {
    if steps != [] {
      var init := steps[..|steps| - 1];
      PendingHaveReturned(hash, start, init);
      PendingStayReturned(hash, RunFrom(hash, Start(start), init), steps[|steps| - 1]);
    }
  }

  ghost predicate CanBeRestored(hash: string -> string, s: System, did: string, dids: set<string>) {
    exists post :: AllConcern(post, dids) && Restored(hash, s, RunFrom(hash, s, post), did)
  }

  /** Right after an invalidation, a handle resolved for an older view can come back to the cache exactly when a
      resolution or a store for that DID is still under way. */
  lemma InvalidationHoldsExactlyWhenNothingIsOut(
    hash: string -> string, start: int, steps: seq<Step>, did: string, dids: set<string>)
    requires CollisionFree(hash, dids) && AllConcern(steps, dids) && did in dids && ValidDid(did)
    ensures var s := Apply(hash, RunFrom(hash, Start(start), steps), Invalidate(did, true));
      CanBeRestored(hash, s, did, dids) <==> StillOut(s, did)
  {
    HonestRun(hash, start, steps, dids);
    PendingHaveReturned(hash, start, steps);
    var s := Apply(hash, RunFrom(hash, Start(start), steps), Invalidate(did, true));
    if StillOut(s, did) {
      var post := OutCanLand(hash, s, did, dids);
    } else {
      assert NothingOld(hash, s, s, did);
      forall post | AllConcern(post, dids)
        ensures !Restored(hash, s, RunFrom(hash, s, post), did)
      {
        NothingOldReturns(hash, s, post, did, dids);
      }
    }
  }

  // ---------------------------------------------------------------- one call at a time, and batches

  class SharedCache {
    const hash: string -> string
    var now: int
    var items: map<string, Item>

    constructor (hash: string -> string, now: int)
      ensures this.hash == hash && this.now == now && items == map[]
    {
      this.hash, this.now, items := hash, now, map[];
    }

    method ResolveHandle(did: string, call: nat, lost: bool, document: Option<string>, stored: bool)
      returns (handle: string)
      modifies this`items
      ensures var s := Start(now).(cache := old(items));
        var t := RunFrom(hash, s, [Begin(call, did), Lookup(call, lost), Resolve(call, document, stored),
          StoreLands(call)]);
        items == t.cache && call in t.calls && t.calls[call].Returned? && handle == t.calls[call].result
      ensures var key := CACHE_PREFIX + hash(did);
        var hit := !lost && key in old(items)
          && now < old(items)[key].storedAt + CACHE_TTL && old(items)[key].handle != "";
        && (!ValidDid(did) ==> handle == did && items == old(items))
        && (ValidDid(did) && hit ==> handle == old(items)[key].handle && items == old(items))
        && (ValidDid(did) && !hit ==>
              && Answers(document, did, handle)
              && items == if stored then old(items)[key := Item(handle, now, call)] else old(items))
    {
      OneCall(hash, now, items, did, call, lost, document, stored);
      if !("did:" <= did) || !ValidDid(did) {
        return did;
      }
      var key := KeyOf(hash, did);
      if !lost && key in items && now < items[key].storedAt + CACHE_TTL && items[key].handle != "" {
        return items[key].handle;
      }
      handle := HandleOrDid(document, did);
      if stored {
        items := items[key := Item(handle, now, call)];
      }
    }

    method Invalidate(did: string, reached: bool)
      modifies this`items
      ensures items == Apply(hash, Start(now).(cache := old(items)), Step.Invalidate(did, reached)).cache
    {
      if ValidDid(did) && reached {
        items := items - {KeyOf(hash, did)};
      }
    }
  }

  /** One undisturbed call, spelled out. */
  lemma OneCall(
    hash: string -> string, now: int, cache: map<string, Item>, did: string, call: nat, lost: bool,
    document: Option<string>, stored: bool)
    ensures var s := Start(now).(cache := cache); var key := CACHE_PREFIX + hash(did);
      var t := RunFrom(hash, s, [Begin(call, did), Lookup(call, lost), Resolve(call, document, stored),
        StoreLands(call)]);
      && call in t.calls && t.calls[call].Returned?
      && var result := t.calls[call].result;
         if !ValidDid(did) then result == did && t.cache == cache
         else if !lost && key in cache && now < cache[key].storedAt + CACHE_TTL && cache[key].handle != ""
         then result == cache[key].handle && t.cache == cache
         else result == HandleOrDid(document, did)
              && t.cache == if stored then cache[key := Item(result, now, call)] else cache
  {
    var s := Start(now).(cache := cache);
    var steps := [Begin(call, did), Lookup(call, lost), Resolve(call, document, stored), StoreLands(call)];
    FourSteps(hash, s, steps);
    PatternDecides(did);
    CallBegins(hash, s, did, call, lost);
    var begun := Apply(hash, Apply(hash, s, steps[0]), steps[1]);
    CallEnds(hash, begun, did, call, document, stored);
  }

  lemma CallBegins(hash: string -> string, s: System, did: string, call: nat, lost: bool)
    requires call !in s.calls && call !in s.pending
    ensures var t := Apply(hash, Apply(hash, s, Begin(call, did)), Lookup(call, lost));
      var found := !lost && Hit(s.cache, s.now, KeyOf(hash, did));
      && t.cache == s.cache && t.now == s.now && t.pending == s.pending && call in t.calls
      && t.calls[call] == if !("did:" <= did && ValidDid(did)) then Returned(did, did, s.now, Rejected)
                          else if found then Returned(did, s.cache[KeyOf(hash, did)].handle, s.now, Cached)
                          else Fetching(did)
  {
  }

  lemma CallEnds(hash: string -> string, s: System, did: string, call: nat, document: Option<string>, stored: bool)
    requires call in s.calls && call !in s.pending && !s.calls[call].Looking? && s.calls[call].did == did
    ensures var t := Apply(hash, Apply(hash, s, Resolve(call, document, stored)), StoreLands(call));
      var answer := HandleOrDid(document, did);
      && call in t.calls && t.calls[call].Returned?
      && (s.calls[call].Returned? ==> t.calls[call] == s.calls[call] && t.cache == s.cache)
      && (s.calls[call].Fetching? ==>
           && t.calls[call].result == answer
           && t.cache == if stored then s.cache[KeyOf(hash, did) := Item(answer, s.now, call)] else s.cache)
  {
  }

  /** What a call stored is what every later call returns within the time-to-live, whatever its own document says,
      unless an invalidation, an eviction or another store comes between. */
  lemma StoredAnswerIsServed(
    hash: string -> string, s: System, did: string, call: nat, document: Option<string>, connected: bool)
    requires call !in s.calls && ValidDid(did) && CACHE_PREFIX + hash(did) in s.cache
    requires var item := s.cache[CACHE_PREFIX + hash(did)]; item.handle != "" && s.now < item.storedAt + CACHE_TTL
    ensures var t := RunFrom(hash, s, [Begin(call, did), Lookup(call, false), Resolve(call, document, connected)]);
      && t.cache == s.cache && t.fetches == s.fetches && call in t.calls
      && t.calls[call] == Returned(did, s.cache[CACHE_PREFIX + hash(did)].handle, s.now, Cached)
  {
    var steps := [Begin(call, did), Lookup(call, false), Resolve(call, document, connected)];
    ThreeSteps(hash, s, steps);
    PatternDecides(did);
  }

  /** Valid DIDs are those of the two methods with one to a hundred characters of the identifier alphabet. */
  lemma ValidDidExactly(name: string, id: string)
    requires ':' !in name
    ensures ValidDid("did:" + name + ":" + id) <==>
      && (name == "plc" || name == "web") && 1 <= |id| <= 100
      && forall i :: 0 <= i < |id| ==>
           'a' <= id[i] <= 'z' || 'A' <= id[i] <= 'Z' || '0' <= id[i] <= '9' || id[i] in {'.', '_', '-'}
  {
    var did := "did:" + name + ":" + id;
    PatternDecides(did);
    if name == "plc" || name == "web" {
      assert did[..8] == "did:" + name + ":";
      assert forall i :: 0 <= i < |id| ==> did[8 + i] == id[i];
      assert forall i :: 8 <= i < |did| ==> did[i] == id[i - 8];
    } else {
      OtherMethod(name, id);
    }
  }

  lemma OtherMethod(name: string, id: string)
    requires ':' !in name && name != "plc" && name != "web"
    ensures !MatchesPattern("did:" + name + ":" + id)
  {
    var did := "did:" + name + ":" + id;
    assert did == ("did:" + name) + (":" + id);
    assert forall i :: 0 <= i < |name| ==> did[4 + i] == name[i];
    assert did[4 + |name|] == ':';
  }

  lemma ThreeSteps(hash: string -> string, s: System, steps: seq<Step>)
    requires |steps| == 3
    ensures RunFrom(hash, s, steps) == Apply(hash, Apply(hash, Apply(hash, s, steps[0]), steps[1]), steps[2])
  {
    assert steps[..2][..1] == steps[..1] && steps[..1][..0] == [];
    assert RunFrom(hash, s, steps[..1]) == Apply(hash, s, steps[0]);
    assert RunFrom(hash, s, steps[..2]) == Apply(hash, RunFrom(hash, s, steps[..1]), steps[1]);
  }

  lemma FourSteps(hash: string -> string, s: System, steps: seq<Step>)
    requires |steps| == 4
    ensures RunFrom(hash, s, steps)
      == Apply(hash, Apply(hash, Apply(hash, Apply(hash, s, steps[0]), steps[1]), steps[2]), steps[3])
  {
    assert steps[..3][..2] == steps[..2] && steps[..2][..1] == steps[..1] && steps[..1][..0] == [];
    assert RunFrom(hash, s, steps[..1]) == Apply(hash, s, steps[0]);
    assert RunFrom(hash, s, steps[..2]) == Apply(hash, RunFrom(hash, s, steps[..1]), steps[1]);
    assert RunFrom(hash, s, steps[..3]) == Apply(hash, RunFrom(hash, s, steps[..2]), steps[2]);
  }

  /** Among the first `n` completions, the k-th is the last one for its DID. */
  predicate LastOf(dids: seq<string>, completion: seq<nat>, k: nat, n: nat)
    requires k < n <= |completion| && (forall i :: 0 <= i < |completion| ==> completion[i] < |dids|)
  {
    forall m :: k < m < n ==> dids[completion[m]] != dids[completion[k]]
  }

  /** The batch: results are recorded as calls complete, in any order; a repeated DID keeps its last completion. */
  method ResolveHandles(dids: seq<string>, handles: seq<string>, completion: seq<nat>)
    returns (results: map<string, string>)
    requires |handles| == |dids|
    requires forall k :: 0 <= k < |completion| ==> completion[k] < |dids|
    requires forall i :: 0 <= i < |dids| ==> i in completion
    ensures results.Keys == set did | did in dids
    ensures forall did :: did in results ==>
      (exists i :: 0 <= i < |dids| && dids[i] == did && results[did] == handles[i])
    ensures forall k :: 0 <= k < |completion| && LastOf(dids, completion, k, |completion|) ==>
      (dids[completion[k]] in results && results[dids[completion[k]]] == handles[completion[k]])
  {
    results := map[];
    for n := 0 to |completion|
      invariant forall did :: did in results ==>
        (exists i :: 0 <= i < |dids| && dids[i] == did && results[did] == handles[i])
      invariant forall k :: 0 <= k < n ==> dids[completion[k]] in results
      invariant forall k :: 0 <= k < n && LastOf(dids, completion, k, n) ==>
        (results[dids[completion[k]]] == handles[completion[k]])
    {
      results := results[dids[completion[n]] := handles[completion[n]]];
    }
    forall did | did in dids
      ensures did in results
    {
      var i :| 0 <= i < |dids| && dids[i] == did;
      assert i in completion;
    }
  }
}

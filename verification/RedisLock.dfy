/**
 The Redis lock of src/elasticache/elasticache.service.ts as a timed protocol: `withLock` sets a key
 with NX and an expiry, runs a function, and deletes the key without looking at who owns it.
 */
module RedisLock {
  import opened Basics

  /** What a lock key holds: the call that set it, and the instant Redis drops it. */
  datatype Lock = Lock(owner: nat, expires: int)

  type Store = map<string, Lock>

  /** The connection when a command is sent: closed, open, or failing after Redis has executed it. */
  datatype Link = Closed | Open | ReplyLost

  /** The arguments of one `withLock`: its key and its time-to-live in milliseconds. */
  datatype Job = Job(key: string, ttl: int)

  predicate Live(store: Store, now: int, key: string) {
    key in store && now < store[key].expires
  }

  /** SET key NX PX ttl. Redis rejects an expiry that is not positive. */
  function SetIfFree(store: Store, now: int, job: Job, owner: nat): Store {
    if job.ttl <= 0 || Live(store, now, job.key) then store else store[job.key := Lock(owner, now + job.ttl)]
  }

  // ---------------------------------------------------------------- the service's methods

  class Redis {
    var now: int
    var store: Store

    constructor (now: int)
      ensures this.now == now && store == map[]
    {
      this.now, store := now, map[];
    }

    /** The service reports true only when Redis answered OK; a closed client and an error both read as false. */
    method AcquireLock(job: Job, owner: nat, link: Link) returns (acquired: bool)
      modifies this`store
      ensures store == if link.Closed? then old(store) else SetIfFree(old(store), now, job, owner)
      ensures acquired <==> link.Open? && job.ttl > 0 && !Live(old(store), now, job.key)
    {
      if link.Closed? {
        return false;
      }
      if job.ttl <= 0 || (job.key in store && now < store[job.key].expires) {
        return false;
      }
      store := store[job.key := Lock(owner, now + job.ttl)];
      return link.Open?;
    }

    method ReleaseLock(key: string, link: Link)
      modifies this`store
      ensures store == if link.Closed? then old(store) else old(store) - {key}
    {
      if !link.Closed? {
        store := store - {key};
      }
    }
  }

  /** One withLock with nobody else around: `fn` takes `elapsed` and returns or throws, and the lock is
      released either way. */
  method WithLock<T, E>(
    redis: Redis, job: Job, owner: nat, acquire: Link, fn: Outcome<T, E>, elapsed: nat, release: Link)
    returns (result: Outcome<Option<T>, E>)
    modifies redis
    ensures var acquired := acquire.Open? && job.ttl > 0 && !Live(old(redis.store), old(redis.now), job.key);
      && redis.now == old(redis.now) + (if acquired then elapsed else 0)
      && (if !acquired then
            && result == Ok(None)
            && redis.store == (if acquire.Closed? then old(redis.store)
                 else SetIfFree(old(redis.store), old(redis.now), job, owner))
          else
            && result == (match fn case Ok(value) => Ok(Some(value)) case Throws(e) => Throws(e))
            && redis.store == (if release.Closed? then old(redis.store)[job.key :=
                 Lock(owner, old(redis.now) + job.ttl)]
                               else old(redis.store) - {job.key}))
  {
    var acquired := redis.AcquireLock(job, owner, acquire);
    if !acquired {
      return Ok(None);
    }
    redis.now := redis.now + elapsed;
    redis.ReleaseLock(job.key, release);
    assert old(redis.store)[job.key := Lock(owner, old(redis.now) + job.ttl)] - {job.key}
      == old(redis.store) - {job.key};
    match fn
    case Ok(value) => result := Ok(Some(value));
    case Throws(e) => result := Throws(e);
  }

  // ---------------------------------------------------------------- runs of withLock

  /** Where a call that acquired its lock stands: running the function, or on its way to the delete. */
  datatype Phase = Phase(job: Job, since: int, inFn: bool) {
    function Deadline(): int { since + job.ttl }
  }

  datatype System = System(now: int, store: Store, calls: map<nat, Phase>)

  datatype Step =
    | Tick(elapsed: nat)
    | Start(call: nat, job: Job, link: Link)
    | FnDone(call: nat)
    | Delete(call: nat, link: Link)
    | Crash(call: nat)

  function Apply(s: System, step: Step): System {
    match step
    case Tick(elapsed) => s.(now := s.now + elapsed)
    case Start(call, job, link) =>
      if call in s.calls || link.Closed? then s
      else
        var store := SetIfFree(s.store, s.now, job, call);
        if link.Open? && job.ttl > 0 && !Live(s.store, s.now, job.key)
        then s.(store := store, calls := s.calls[call := Phase(job, s.now, true)])
        else s.(store := store)
    case FnDone(call) =>
      if call in s.calls then s.(calls := s.calls[call := s.calls[call].(inFn := false)]) else s
    case Delete(call, link) =>
      if call in s.calls && !s.calls[call].inFn
      then s.(calls := s.calls - {call}, store := if link.Closed? then s.store else s.store - {s.calls[call].job.key})
      else s
    case Crash(call) => s.(calls := s.calls - {call})
  }

  function Run(start: int, steps: seq<Step>): System {
    if steps == [] then System(start, map[], map[])
    else Apply(Run(start, steps[..|steps| - 1]), steps[|steps| - 1])
  }

  /** No call on this key is past its time-to-live with its delete still to come. */
  ghost predicate Punctual(s: System, key: string) {
    forall call :: call in s.calls && s.calls[call].job.key == key ==> s.now < s.calls[call].Deadline()
  }

  ghost predicate PunctualRun(start: int, steps: seq<Step>, key: string) {
    forall n :: 0 <= n <= |steps| ==> Punctual(Run(start, steps[..n]), key)
  }

  ghost predicate OwnsLock(s: System, call: nat)
    requires call in s.calls
  {
    var p := s.calls[call];
    p.job.key in s.store && s.store[p.job.key] == Lock(call, p.Deadline())
  }

  ghost predicate AllOwn(s: System, key: string) {
    forall call :: call in s.calls && s.calls[call].job.key == key ==> OwnsLock(s, call)
  }

  ghost predicate Exclusive(s: System, key: string) {
    forall a, b :: a in s.calls && b in s.calls && s.calls[a].job.key == key && s.calls[b].job.key == key ==> a == b
  }

  lemma StepKeepsOwnership(s: System, step: Step, key: string)
    requires Punctual(s, key) && AllOwn(s, key)
    ensures AllOwn(Apply(s, step), key)
  {
    var t := Apply(s, step);
    forall call | call in t.calls && t.calls[call].job.key == key
      ensures OwnsLock(t, call)
    {
      if call in s.calls {
        assert OwnsLock(s, call);
      }
    }
  }

  lemma {:induction false} OwnershipHolds(start: int, steps: seq<Step>, key: string)
    requires PunctualRun(start, steps, key)
    ensures AllOwn(Run(start, steps), key)
  {
    if steps != [] {
      var init := steps[..|steps| - 1];
      assert forall n :: 0 <= n <= |init| ==> init[..n] == steps[..n];
      assert init[..|init|] == init;
      OwnershipHolds(start, init, key);
      StepKeepsOwnership(Run(start, init), steps[|steps| - 1], key);
    }
  }

  /** If every holder of a key reaches its delete in time, at most one call at a time is between acquiring
      and deleting it. */
  lemma MutualExclusion(start: int, steps: seq<Step>, key: string)
    requires PunctualRun(start, steps, key)
    ensures Exclusive(Run(start, steps), key)
  {
    OwnershipHolds(start, steps, key);
    var s := Run(start, steps);
    forall a, b | a in s.calls && b in s.calls && s.calls[a].job.key == key && s.calls[b].job.key == key
      ensures a == b
    {
      assert OwnsLock(s, a) && OwnsLock(s, b);
    }
  }

  /** ... and each delete that reaches Redis removes a live lock that the deleting call set itself. */
  lemma DeleteRemovesOwnLock(start: int, steps: seq<Step>, call: nat)
    requires var s := Run(start, steps); call in s.calls && PunctualRun(start, steps, s.calls[call].job.key)
    ensures var s := Run(start, steps); var key := s.calls[call].job.key;
      Live(s.store, s.now, key) && s.store[key].owner == call
  {
    var s := Run(start, steps);
    OwnershipHolds(start, steps, s.calls[call].job.key);
    assert OwnsLock(s, call) && steps[..|steps|] == steps;
    assert Punctual(Run(start, steps[..|steps|]), s.calls[call].job.key);
  }

  /** The deadline is exactly where exclusion ends: while `a` holds the key, a second call gets in if and
      only if `a` overstays. */
  lemma SecondEntersExactlyAfterDeadline(s: System, a: nat, b: nat, elapsed: nat)
    requires a in s.calls && OwnsLock(s, a) && s.calls[a].job.ttl > 0 && b !in s.calls
    ensures var t := Apply(Apply(s, Tick(elapsed)), Start(b, s.calls[a].job, Open));
      (a in t.calls && b in t.calls) <==> s.now + elapsed >= s.calls[a].Deadline()
  {
  }

  /** An overstaying call's delete takes away its successor's lock, and a third call gets in although the
      second is in time. */
  lemma LateDeleteUnlocksSuccessor(s: System, a: nat, b: nat, c: nat)
    requires a in s.calls && OwnsLock(s, a) && s.calls[a].job.ttl > 0
    requires b !in s.calls && c !in s.calls && b != c && s.now < s.calls[a].Deadline()
    ensures var job := s.calls[a].job;
      var entered := Apply(Apply(s, Tick(s.calls[a].Deadline() - s.now)), Start(b, job, Open));
      var t := Apply(Apply(Apply(entered, FnDone(a)), Delete(a, Open)), Start(c, job, Open));
      && b in t.calls && c in t.calls && t.calls[b].inFn && t.calls[c].inFn
      && t.now < t.calls[b].Deadline() && t.now < t.calls[c].Deadline()
  {
    var job := s.calls[a].job;
    var entered := Apply(Apply(s, Tick(s.calls[a].Deadline() - s.now)), Start(b, job, Open));
    assert b in entered.calls && a in entered.calls;
    var freed := Apply(Apply(entered, FnDone(a)), Delete(a, Open));
    assert b in freed.calls && job.key !in freed.store && c !in freed.calls;
  }

  // ---------------------------------------------------------------- a lock left behind

  ghost predicate Within(s: System, key: string, ttl: int) {
    key in s.store ==> s.store[key].expires <= s.now + ttl
  }

  ghost predicate OnlyTtl(steps: seq<Step>, key: string, ttl: int) {
    forall i :: 0 <= i < |steps| && steps[i].Start? && steps[i].job.key == key ==> steps[i].job.ttl <= ttl
  }

  /** A lock orphaned by a crash, a lost reply or a skipped delete blocks its key for at most one time-to-live. */
  lemma {:induction false} OrphanExpires(start: int, steps: seq<Step>, key: string, ttl: int, elapsed: nat)
    requires OnlyTtl(steps, key, ttl)
    ensures Within(Run(start, steps), key, ttl)
    ensures elapsed >= ttl ==> !Live(Run(start, steps).store, Run(start, steps).now + elapsed, key)
  {
    if steps != [] {
      var init, last := steps[..|steps| - 1], steps[|steps| - 1];
      OrphanExpires(start, init, key, ttl, elapsed);
    }
  }

  // ---------------------------------------------------------------- who takes which lock

  const SESSION_LOCK_TTL: int := 30000
  const SCHEDULER_LOCK_TTL: int := 10 * 60 * 1000

  /** resumeSession and resetSession build the key from the DID in the same way. */
  function RestoreSession(did: string): Job { Job("@atproto-oauth-client-" + did, SESSION_LOCK_TTL) }

  function ResetSession(did: string): Job { Job("@atproto-oauth-client-" + did, SESSION_LOCK_TTL) }

  const SCHEDULER_PASS: Job := Job("atproto-sync-scheduler:pending-retry", SCHEDULER_LOCK_TTL)

  /** Session jobs contend exactly when they are about the same DID, and never with the scheduler. */
  lemma SessionsContendExactlyPerDid(a: string, b: string)
    ensures RestoreSession(a).key == ResetSession(b).key <==> a == b
    ensures RestoreSession(a).key != SCHEDULER_PASS.key
  {
    var prefix := "@atproto-oauth-client-";
    assert RestoreSession(a).key[|prefix|..] == a && ResetSession(b).key[|prefix|..] == b;
    assert RestoreSession(a).key[0] == '@' && SCHEDULER_PASS.key[0] == 'a';
  }

  /** Within their 30 seconds, a restore and a reset of one DID never run at the same time. */
  lemma RestoreAndResetNeverOverlap(start: int, steps: seq<Step>, did: string, a: nat, b: nat)
    requires PunctualRun(start, steps, RestoreSession(did).key) && a != b
    ensures var calls := Run(start, steps).calls;
      !(a in calls && b in calls && calls[a].job == RestoreSession(did) && calls[b].job == ResetSession(did))
  {
    MutualExclusion(start, steps, RestoreSession(did).key);
  }

  /** Within ten minutes each, two scheduler passes never run at the same time. */
  lemma SchedulerPassesNeverOverlap(start: int, steps: seq<Step>, a: nat, b: nat)
    requires PunctualRun(start, steps, SCHEDULER_PASS.key) && a != b
    ensures var calls := Run(start, steps).calls;
      !(a in calls && b in calls && calls[a].job == SCHEDULER_PASS && calls[b].job == SCHEDULER_PASS)
  {
    MutualExclusion(start, steps, SCHEDULER_PASS.key);
  }
}

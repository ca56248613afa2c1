/**
 The AT Protocol identity rows that link users to DIDs, and the operations of four services on them:
 custodial creation and recovery, login and link callbacks, handle changes, taking ownership.
 Sources: src/auth-bluesky/auth-bluesky.service.ts,
 src/atproto-identity/atproto-identity.service.ts and its recovery service,
 src/auth/auth.service.ts, src/user-atproto-identity/user-atproto-identity.service.ts.
 */
module IdentityCustody {
  import opened Basics

  datatype Identity = Identity(
    userUlid: string,
    did: string,
    handle: Option<string>,
    pdsUrl: string,
    credentials: Option<string>,
    isCustodial: bool
  )

  type Rows = map<nat, Identity>

  /** The two kinds of row that the services create. */
  datatype Creation =
    | Custodial(userUlid: string, did: string, handle: string, pdsUrl: string, encryptedPassword: string)
    | OwnDid(userUlid: string, did: string, resolved: Option<string>, pdsUrl: string)

  /** The three patches that the services apply. */
  datatype Change =
    | NewHandle(handle: string)
    | TakeOwnership
    | LinkOwn(pdsUrl: string, handle: string)

  function NewRow(creation: Creation): Identity {
    match creation
    case Custodial(user, did, handle, pdsUrl, password) =>
      Identity(user, did, Some(handle), pdsUrl, Some(password), true)
    case OwnDid(user, did, handle, pdsUrl) => Identity(user, did, handle, pdsUrl, None, false)
  }

  function Patched(row: Identity, change: Change): Identity {
    match change
    case NewHandle(handle) => row.(handle := Some(handle))
    case TakeOwnership => row.(credentials := None, isCustodial := false)
    case LinkOwn(pdsUrl, handle) =>
      row.(isCustodial := false, credentials := None, pdsUrl := pdsUrl, handle := Some(handle))
  }

  /** The unique constraints on userUlid and did, for a row written under `id`. */
  ghost predicate Unique(rows: Rows, id: nat, row: Identity, didUnique: bool) {
    forall other :: other in rows && other != id ==>
      rows[other].userUlid != row.userUlid && (didUnique ==> rows[other].did != row.did)
  }

  /** Writing a whole row: an update if the id is there, an insert if it is not, refused when it breaks a constraint. */
  ghost function Saved(rows: Rows, id: nat, row: Identity, didUnique: bool): Rows {
    if Unique(rows, id, row, didUnique) then rows[id := row] else rows
  }

  function WithoutUser(rows: Rows, user: string): Rows {
    map id | id in rows && rows[id].userUlid != user :: rows[id]
  }

  ghost predicate Coherent(row: Identity) {
    row.isCustodial <==> row.credentials.Some?
  }

  ghost predicate AllCoherent(rows: Rows) {
    forall id :: id in rows ==> Coherent(rows[id])
  }

  ghost predicate OnePerUser(rows: Rows) {
    forall a, b :: a in rows && b in rows && rows[a].userUlid == rows[b].userUlid ==> a == b
  }

  ghost predicate OnePerDid(rows: Rows) {
    forall a, b :: a in rows && b in rows && rows[a].did == rows[b].did ==> a == b
  }

  // ---------------------------------------------------------------- interleaved database steps

  /** A call between reading a row and saving its patched copy. */
  datatype Loaded = Loaded(id: nat, row: Identity)

  datatype System = System(rows: Rows, nextId: nat, loaded: map<nat, Loaded>)

  /** The guards that the services evaluate first only leave steps out, so any order of these covers any
      interleaving. */
  datatype Step =
    | Create(creation: Creation)
    | DeleteOf(user: string)
    | Load(call: nat, id: nat, change: Change)
    | Save(call: nat)
    | Fail(call: nat)

  ghost function Apply(s: System, step: Step, didUnique: bool): System {
    match step
    case Create(creation) => s.(rows := Saved(s.rows, s.nextId, NewRow(creation), didUnique), nextId := s.nextId + 1)
    case DeleteOf(user) => s.(rows := WithoutUser(s.rows, user))
    case Load(call, id, change) =>
      if id in s.rows then s.(loaded := s.loaded[call := Loaded(id, Patched(s.rows[id], change))]) else s
    case Save(call) =>
      if call in s.loaded
      then s.(rows := Saved(s.rows, s.loaded[call].id, s.loaded[call].row, didUnique), loaded := s.loaded - {call})
      else s
    case Fail(call) => s.(loaded := s.loaded - {call})
  }

  ghost function RunFrom(s: System, steps: seq<Step>, didUnique: bool): System {
    if steps == [] then s else Apply(RunFrom(s, steps[..|steps| - 1], didUnique), steps[|steps| - 1], didUnique)
  }

  const EMPTY: System := System(map[], 1, map[])

  ghost predicate Custody(s: System, didUnique: bool) {
    && AllCoherent(s.rows)
    && OnePerUser(s.rows)
    && (didUnique ==> OnePerDid(s.rows))
    && (forall call :: call in s.loaded ==> Coherent(s.loaded[call].row))
  }

  /** A row keeps its user and DID for life, and so does every loaded copy of it. */
  ghost predicate Tracks(s: System) {
    && (forall id :: id in s.rows ==> id < s.nextId)
    && (forall call :: call in s.loaded ==> s.loaded[call].id < s.nextId)
    && (forall call :: call in s.loaded && s.loaded[call].id in s.rows ==>
          s.rows[s.loaded[call].id].userUlid == s.loaded[call].row.userUlid
          && s.rows[s.loaded[call].id].did == s.loaded[call].row.did)
    && (forall a, b :: a in s.loaded && b in s.loaded && s.loaded[a].id == s.loaded[b].id ==>
          s.loaded[a].row.userUlid == s.loaded[b].row.userUlid && s.loaded[a].row.did == s.loaded[b].row.did)
  }

  lemma StepKeepsCustody(s: System, step: Step, didUnique: bool)
    requires Custody(s, didUnique)
    ensures Custody(Apply(s, step, didUnique), didUnique)
  {
  }

  lemma StepKeepsTracks(s: System, step: Step, didUnique: bool)
    requires Tracks(s)
    ensures Tracks(Apply(s, step, didUnique)) && Apply(s, step, didUnique).nextId >= s.nextId
  {
  }

  /** However the services' steps interleave, an identity is custodial exactly when it stores credentials,
      a user has at most one identity, and under the DID constraint a DID belongs to at most one user. */
  lemma {:induction false} CustodyInvariant(steps: seq<Step>, didUnique: bool)
    ensures var s := RunFrom(EMPTY, steps, didUnique);
      Custody(s, didUnique) && Tracks(s)
  {
    if steps != [] {
      var init, last := steps[..|steps| - 1], steps[|steps| - 1];
      CustodyInvariant(init, didUnique);
      StepKeepsCustody(RunFrom(EMPTY, init, didUnique), last, didUnique);
      StepKeepsTracks(RunFrom(EMPTY, init, didUnique), last, didUnique);
    }
  }

  // ---------------------------------------------------------------- is taking ownership final?

  /** A call read the row while it was custodial and has still to save its copy. */
  ghost predicate StaleCopy(s: System, id: nat) {
    exists call :: call in s.loaded && s.loaded[call].id == id && s.loaded[call].row.isCustodial
  }

  ghost predicate Reverted(s: System, id: nat) {
    id in s.rows && s.rows[id].isCustodial
  }

  ghost predicate CanRevert(s: System, id: nat, didUnique: bool) {
    exists steps :: Reverted(RunFrom(s, steps, didUnique), id)
  }

  lemma StepKeepsOwned(s: System, step: Step, id: nat, didUnique: bool)
    requires !Reverted(s, id) && !StaleCopy(s, id) && id < s.nextId
    ensures var t := Apply(s, step, didUnique); !Reverted(t, id) && !StaleCopy(t, id) && id < t.nextId
  {
    var t := Apply(s, step, didUnique);
    forall call | call in t.loaded && t.loaded[call].id == id
      ensures !t.loaded[call].row.isCustodial
    {
      if call in s.loaded && s.loaded[call] == t.loaded[call] {
        assert !(s.loaded[call].id == id && s.loaded[call].row.isCustodial);
      }
    }
  }

  lemma {:induction false} OwnedStays(s: System, steps: seq<Step>, id: nat, didUnique: bool)
    requires !Reverted(s, id) && !StaleCopy(s, id) && id < s.nextId
    ensures var t := RunFrom(s, steps, didUnique); !Reverted(t, id) && !StaleCopy(t, id) && id < t.nextId
  {
    if steps != [] {
      OwnedStays(s, steps[..|steps| - 1], id, didUnique);
      StepKeepsOwned(RunFrom(s, steps[..|steps| - 1], didUnique), steps[|steps| - 1], id, didUnique);
    }
  }

  /** Once a user owns an identity it can become custodial again exactly when some update that read the
      custodial row has still to be saved, for example a handle change that overlaps taking ownership: the
      whole row is written back. */
  lemma OwnershipIsFinalExactly(before: seq<Step>, id: nat, didUnique: bool)
    requires var s := RunFrom(EMPTY, before, didUnique); id in s.rows && !s.rows[id].isCustodial
    ensures var s := RunFrom(EMPTY, before, didUnique);
      CanRevert(s, id, didUnique) <==> StaleCopy(s, id)
  {
    var s := RunFrom(EMPTY, before, didUnique);
    CustodyInvariant(before, didUnique);
    if StaleCopy(s, id) {
      var call :| call in s.loaded && s.loaded[call].id == id && s.loaded[call].row.isCustodial;
      var steps := [Save(call)];
      assert steps[..0] == [] && RunFrom(s, steps, didUnique) == Apply(s, Save(call), didUnique);
      assert Unique(s.rows, id, s.loaded[call].row, didUnique);
      assert Reverted(RunFrom(s, steps, didUnique), id);
    } else {
      forall steps
        ensures !Reverted(RunFrom(s, steps, didUnique), id)
      {
        OwnedStays(s, steps, id, didUnique);
      }
    }
  }

  // ---------------------------------------------------------------- the services, one call at a time

  ghost predicate Holds(rows: Rows, user: string, id: nat) {
    id in rows && rows[id].userUlid == user
  }

  ghost predicate HasIdentity(rows: Rows, user: string) {
    exists id :: Holds(rows, user, id)
  }

  ghost predicate HeldByOther(rows: Rows, did: string, user: string) {
    exists id :: id in rows && rows[id].did == did && rows[id].userUlid != user
  }

  ghost predicate IsOf(rows: Rows, user: string, mine: Option<nat>) {
    match mine
    case Some(id) => Holds(rows, user, id)
    case None => !HasIdentity(rows, user)
  }

  /** An unresolved handle does not overwrite a known one. */
  function LinkedHandle(row: Identity, handle: string, did: string): string {
    if handle == did && row.handle.Some? && row.handle.value != "" then row.handle.value else handle
  }

  predicate TookEffect(reply: Reply) {
    !reply.NotExecuted?
  }

  /** The rows after a link that passed its checks: the user's own row taken over, replaced, or a first one
      added. A replacement is a delete followed, if the delete returned, by a create. */
  function LinkedRows(
    rows: Rows, nextId: nat, mine: Option<nat>, user: string, did: string, handle: string, pdsUrl: string,
    deletion: Reply, saving: Reply): Rows
    requires mine.Some? ==> mine.value in rows
  {
    var row := NewRow(OwnDid(user, did, Some(handle), pdsUrl));
    match mine
    case None => if TookEffect(saving) then rows[nextId := row] else rows
    case Some(id) =>
      if rows[id].did == did then
        if TookEffect(saving) then rows[id := Patched(rows[id], LinkOwn(pdsUrl, LinkedHandle(rows[id], handle, did)))]
          else rows
      else if !TookEffect(deletion) then rows
      else if deletion.Executed? && TookEffect(saving) then WithoutUser(rows, user)[nextId := row]
      else WithoutUser(rows, user)
  }

  predicate Replaces(rows: Rows, mine: Option<nat>, did: string)
    requires mine.Some? ==> mine.value in rows
  {
    mine.Some? && rows[mine.value].did != did
  }

  /** One undisturbed link callback never makes a DID belong to two users, nor gives a user two rows,
      whatever the database constrains. */
  lemma LinkKeepsConstraints(
    rows: Rows, nextId: nat, mine: Option<nat>, user: string, did: string, handle: string, pdsUrl: string,
    deletion: Reply, saving: Reply)
    requires AllCoherent(rows) && OnePerUser(rows) && OnePerDid(rows) && IsOf(rows, user, mine)
      && !HeldByOther(rows, did, user)
    requires forall id :: id in rows ==> id < nextId
    ensures var after := LinkedRows(rows, nextId, mine, user, did, handle, pdsUrl, deletion, saving);
      AllCoherent(after) && OnePerUser(after) && OnePerDid(after)
    ensures mine.None? ==> forall id :: id in rows ==> rows[id].userUlid != user && rows[id].did != did
  {
    forall id | id in rows
      ensures mine.None? ==> rows[id].userUlid != user && rows[id].did != did
      ensures rows[id].did == did ==> rows[id].userUlid == user
    {
      assert rows[id].userUlid == user ==> Holds(rows, user, id);
    }
  }

  /** Two link callbacks that overlap both pass the check for other holders; then only the database's
      constraint keeps the DID apart. */
  lemma OverlappingLinksShareDidExactly(
    s: System, a: string, b: string, did: string, handle: string, pdsUrl: string, didUnique: bool)
    requires Tracks(s) && OnePerDid(s.rows) && a != b && !HasIdentity(s.rows, a) && !HasIdentity(s.rows, b)
    requires forall id :: id in s.rows ==> s.rows[id].did != did
    ensures var first := Apply(s, Create(OwnDid(a, did, Some(handle), pdsUrl)), didUnique);
      OnePerDid(Apply(first, Create(OwnDid(b, did, Some(handle), pdsUrl)), didUnique).rows) <==> didUnique
  {
    var rowA, rowB := NewRow(OwnDid(a, did, Some(handle), pdsUrl)), NewRow(OwnDid(b, did, Some(handle), pdsUrl));
    forall id | id in s.rows
      ensures s.rows[id].userUlid != a && s.rows[id].userUlid != b
    {
      assert !Holds(s.rows, a, id) && !Holds(s.rows, b, id);
    }
    var first := Apply(s, Create(OwnDid(a, did, Some(handle), pdsUrl)), didUnique);
    assert first.rows == s.rows[s.nextId := rowA];
    var second := Apply(first, Create(OwnDid(b, did, Some(handle), pdsUrl)), didUnique);
    if didUnique {
      assert first.rows[s.nextId].did == rowB.did;
      assert second.rows == first.rows;
    } else {
      assert second.rows[s.nextId].did == second.rows[s.nextId + 1].did;
    }
  }

  /** The user has exactly the linked DID, at this PDS, without credentials. */
  ghost predicate OwnsLinked(rows: Rows, user: string, did: string, pdsUrl: string) {
    && HasIdentity(rows, user)
    && forall id :: Holds(rows, user, id) ==>
        rows[id].did == did && rows[id].pdsUrl == pdsUrl && rows[id].credentials.None? && !rows[id].isCustodial
  }

  lemma SameOthers(a: Rows, b: Rows, user: string)
    requires forall id :: id in a && a[id].userUlid != user ==> id in b && b[id] == a[id]
    requires forall id :: id in b && b[id].userUlid != user ==> id in a && a[id] == b[id]
    ensures WithoutUser(a, user) == WithoutUser(b, user)
  {
  }

  lemma UpdateTakesOver(rows: Rows, id: nat, user: string, change: Change)
    requires OnePerUser(rows) && Holds(rows, user, id) && change.LinkOwn?
    ensures var after := rows[id := Patched(rows[id], change)];
      WithoutUser(after, user) == WithoutUser(rows, user) && OwnsLinked(after, user, rows[id].did, change.pdsUrl)
  {
    var after := rows[id := Patched(rows[id], change)];
    SameOthers(after, rows, user);
    assert Holds(after, user, id);
  }

  lemma InsertTakesOver(rows: Rows, nextId: nat, user: string, did: string, handle: string, pdsUrl: string)
    requires nextId !in rows
    ensures var after := WithoutUser(rows, user)[nextId := NewRow(OwnDid(user, did, Some(handle), pdsUrl))];
      WithoutUser(after, user) == WithoutUser(rows, user) && OwnsLinked(after, user, did, pdsUrl)
  {
    var after := WithoutUser(rows, user)[nextId := NewRow(OwnDid(user, did, Some(handle), pdsUrl))];
    SameOthers(after, rows, user);
    assert Holds(after, user, nextId);
  }

  lemma WithoutNobody(rows: Rows, user: string)
    requires !HasIdentity(rows, user)
    ensures WithoutUser(rows, user) == rows
  {
    forall id | id in rows
      ensures rows[id].userUlid != user
    {
      assert !Holds(rows, user, id);
    }
  }

  /** A link whose writes went through leaves every other user's row alone and the user with exactly the
      linked DID, without credentials, under the resolved handle or, if none resolved, the one known before. */
  lemma LinkTakesOver(
    rows: Rows, nextId: nat, mine: Option<nat>, user: string, did: string, handle: string, pdsUrl: string,
    deletion: Reply, saving: Reply)
    requires OnePerUser(rows) && IsOf(rows, user, mine) && nextId !in rows
    requires TookEffect(saving) && (Replaces(rows, mine, did) ==> deletion.Executed?)
    ensures var after := LinkedRows(rows, nextId, mine, user, did, handle, pdsUrl, deletion, saving);
      WithoutUser(after, user) == WithoutUser(rows, user) && OwnsLinked(after, user, did, pdsUrl)
    ensures var after := LinkedRows(rows, nextId, mine, user, did, handle, pdsUrl, deletion, saving);
      var known := mine.Some? && rows[mine.value].did == did && rows[mine.value].handle !in {None, Some("")};
      forall id :: Holds(after, user, id) ==>
        after[id].handle == if known && handle == did then rows[mine.value].handle else Some(handle)
  {
    if mine.Some? && !Replaces(rows, mine, did) {
      UpdateTakesOver(rows, mine.value, user, LinkOwn(pdsUrl, LinkedHandle(rows[mine.value], handle, did)));
    } else {
      if mine.None? {
        WithoutNobody(rows, user);
      }
      InsertTakesOver(rows, nextId, user, did, handle, pdsUrl);
    }
  }

  /** A link costs a user the identity exactly when it replaces a different DID, its delete takes effect
      and its create does not follow. */
  lemma FailedLinkLosesIdentityExactly(
    rows: Rows, nextId: nat, mine: Option<nat>, user: string, did: string, handle: string, pdsUrl: string,
    deletion: Reply, saving: Reply)
    requires OnePerUser(rows) && IsOf(rows, user, mine)
    ensures var after := LinkedRows(rows, nextId, mine, user, did, handle, pdsUrl, deletion, saving);
      HasIdentity(rows, user) && !HasIdentity(after, user)
      <==> Replaces(rows, mine, did) && (deletion.ReplyLost? || (deletion.Executed? && saving.NotExecuted?))
  {
    var after := LinkedRows(rows, nextId, mine, user, did, handle, pdsUrl, deletion, saving);
    if mine.Some? {
      assert Holds(rows, user, mine.value);
      if mine.value in after && after[mine.value].userUlid == user {
        assert Holds(after, user, mine.value);
      } else if deletion.Executed? && TookEffect(saving) {
        assert Holds(after, user, nextId);
      }
    }
  }

  datatype Result = Done | Refused | Failed

  class IdentityStore {
    const didUnique: bool
    var rows: Rows
    var nextId: nat

    ghost predicate Valid()
      reads this
    {
      && AllCoherent(rows) && OnePerUser(rows) && (didUnique ==> OnePerDid(rows))
      && forall id :: id in rows ==> id < nextId
    }

    constructor (didUnique: bool)
      ensures Valid() && rows == map[] && this.didUnique == didUnique
    {
      this.didUnique, rows, nextId := didUnique, map[], 1;
    }

    method FindByUserUlid(user: string) returns (found: Option<nat>)
      ensures found.Some? ==> Holds(rows, user, found.value)
      ensures found.None? ==> !HasIdentity(rows, user)
    {
      if id :| id in rows && rows[id].userUlid == user {
        return Some(id);
      }
      return None;
    }

    method FindByDid(did: string) returns (found: Option<nat>)
      ensures found.Some? ==> found.value in rows && rows[found.value].did == did
      ensures found.None? ==> forall id :: id in rows ==> rows[id].did != did
    {
      if id :| id in rows && rows[id].did == did {
        return Some(id);
      }
      return None;
    }

    method Insert(creation: Creation, reply: Reply) returns (ok: bool)
      requires Valid()
      modifies this
      ensures Valid() && nextId == old(nextId) + 1
      ensures ok <==> reply.Executed? && Unique(old(rows), old(nextId), NewRow(creation), didUnique)
      ensures rows == if TookEffect(reply) then Saved(old(rows), old(nextId), NewRow(creation), didUnique)
        else old(rows)
    {
      var row, id := NewRow(creation), nextId;
      nextId := nextId + 1;
      var unique := forall other :: other in rows ==>
        rows[other].userUlid != row.userUlid && (didUnique ==> rows[other].did != row.did);
      if TookEffect(reply) && unique {
        rows := rows[id := row];
      }
      ok := reply.Executed? && unique;
    }

    /** Reading a row and saving its patched copy with nothing in between. */
    method Update(id: nat, change: Change, reply: Reply) returns (ok: bool)
      requires Valid()
      modifies this`rows
      ensures Valid()
      ensures ok <==> reply.Executed? && id in old(rows)
      ensures rows == if TookEffect(reply) && id in old(rows) then old(rows)[id := Patched(old(rows)[id], change)]
        else old(rows)
    {
      if TookEffect(reply) && id in rows {
        rows := rows[id := Patched(rows[id], change)];
      }
      ok := reply.Executed? && id in rows;
    }

    method DeleteByUserUlid(user: string, reply: Reply) returns (ok: bool)
      requires Valid()
      modifies this`rows
      ensures Valid()
      ensures ok <==> reply.Executed?
      ensures rows == if TookEffect(reply) then WithoutUser(old(rows), user) else old(rows)
    {
      if TookEffect(reply) {
        rows := WithoutUser(rows, user);
      }
      ok := reply.Executed?;
    }

    /** The link callback. `pdsUrl` is None when the DID document does not resolve; `handle` equals the DID
        when unresolved. */
    method LinkCallback(
      user: string, did: string, handle: string, pdsUrl: Option<string>, deletion: Reply, saving: Reply)
      returns (result: Result, ghost mine: Option<nat>)
      requires Valid() && OnePerDid(rows)
      modifies this
      ensures Valid() && OnePerDid(rows)
      ensures IsOf(old(rows), user, mine)
      ensures result == Refused <==> HeldByOther(old(rows), did, user)
      ensures result == Done <==> !HeldByOther(old(rows), did, user) && pdsUrl.Some? && saving.Executed?
                                  && (Replaces(old(rows), mine, did) ==> deletion.Executed?)
      ensures rows == if HeldByOther(old(rows), did, user) || pdsUrl.None? then old(rows)
                      else LinkedRows(old(rows), old(nextId), mine, user, did, handle, pdsUrl.value, deletion, saving)
    {
      mine := if id :| Holds(rows, user, id) then Some(id) else None;
      var holder := FindByDid(did);
      if holder.Some? && rows[holder.value].userUlid != user {
        return Refused, mine;
      }
      var existing := FindByUserUlid(user);
      if pdsUrl.None? {
        return Failed, mine;
      }
      LinkKeepsConstraints(rows, nextId, mine, user, did, handle, pdsUrl.value, deletion, saving);
      var ok := true;
      if existing.Some? && rows[existing.value].did == did {
        ok := Update(existing.value, LinkOwn(pdsUrl.value, LinkedHandle(rows[existing.value], handle, did)), saving);
      } else {
        if existing.Some? {
          ok := DeleteByUserUlid(user, deletion);
        }
        if ok {
          ok := Insert(OwnDid(user, did, Some(handle), pdsUrl.value), saving);
        }
      }
      return if ok then Done else Failed, mine;
    }

    /** The login backfill and the login link: best effort, only for a user without an identity. */
    method EnsureOwnDid(user: string, did: string, handle: Option<string>, pdsUrl: string, reply: Reply)
      returns (created: bool)
      requires Valid()
      modifies this
      ensures Valid()
      ensures created <==> !HasIdentity(old(rows), user) && reply.Executed?
                           && Unique(old(rows), old(nextId),
                                Identity(user, did, handle, pdsUrl, None, false), didUnique)
      ensures rows == if HasIdentity(old(rows), user) || !TookEffect(reply) then old(rows)
                      else Saved(old(rows), old(nextId), Identity(user, did, handle, pdsUrl, None, false), didUnique)
    {
      var existing := FindByUserUlid(user);
      if existing.Some? {
        return false;
      }
      created := Insert(OwnDid(user, did, handle, pdsUrl), reply);
    }

    /** Creating or recovering a custodial account, once the PDS has answered with its DID. */
    method CreateCustodial(user: string, did: string, handle: string, pdsUrl: string, password: string, reply: Reply)
      returns (created: bool)
      requires Valid()
      modifies this
      ensures Valid()
      ensures created <==> !HasIdentity(old(rows), user) && reply.Executed?
                           && Unique(old(rows), old(nextId),
                                Identity(user, did, Some(handle), pdsUrl, Some(password), true), didUnique)
      ensures rows == if HasIdentity(old(rows), user) || !TookEffect(reply) then old(rows)
                      else Saved(old(rows), old(nextId),
                        Identity(user, did, Some(handle), pdsUrl, Some(password), true), didUnique)
    {
      var existing := FindByUserUlid(user);
      if existing.Some? {
        return false;
      }
      created := Insert(Custodial(user, did, handle, pdsUrl, password), reply);
    }

    /** completeTakeOwnership: refused without a custodial identity, else its credentials are gone for good. */
    method CompleteTakeOwnership(user: string, reply: Reply) returns (result: Result)
      requires Valid()
      modifies this`rows
      ensures Valid()
      ensures result == Refused <==> forall id :: Holds(old(rows), user, id) ==> !old(rows)[id].isCustodial
      ensures result == Done <==> reply.Executed? && exists id ::
        Holds(old(rows), user, id) && old(rows)[id].isCustodial
      ensures if result == Refused || !TookEffect(reply) then rows == old(rows)
              else exists id ::
                Holds(old(rows), user, id)
                && rows == old(rows)[id := old(rows)[id].(credentials := None, isCustodial := false)]
    {
      var existing := FindByUserUlid(user);
      if existing.None? {
        return Refused;
      }
      if !rows[existing.value].isCustodial {
        return Refused;
      }
      assert Holds(rows, user, existing.value);
      var ok := Update(existing.value, TakeOwnership, reply);
      return if ok then Done else Failed;
    }

    /** updateHandle, for an identity on the service's own PDS whose checks against the PDS passed. */
    method UpdateHandle(user: string, handle: string, ourPds: string, allowed: bool, reply: Reply)
      returns (result: Result)
      requires Valid()
      modifies this`rows
      ensures Valid()
      ensures result == Refused <==> !allowed || !exists id ::
        Holds(old(rows), user, id) && old(rows)[id].pdsUrl == ourPds
      ensures result == Done <==> result != Refused && reply.Executed?
      ensures if result == Refused || !TookEffect(reply) then rows == old(rows)
              else exists id ::
                Holds(old(rows), user, id) && rows == old(rows)[id := old(rows)[id].(handle := Some(handle))]
    {
      var existing := FindByUserUlid(user);
      if existing.None? || rows[existing.value].pdsUrl != ourPds || !allowed {
        return Refused;
      }
      assert Holds(rows, user, existing.value);
      var ok := Update(existing.value, NewHandle(handle), reply);
      return if ok then Done else Failed;
    }
  }

  // ---------------------------------------------------------------- a link that replaces an identity

  /** Between the delete and the create of a replacement other steps may run. The user ends up without an
      identity exactly when nobody gave them one meanwhile and somebody else took the DID. */
  lemma ReplacementLosesIdentityExactly(
    s: System, user: string, did: string, handle: string, pdsUrl: string, between: seq<Step>)
    ensures
      var deleted := Apply(s, DeleteOf(user), true);
      var later := RunFrom(deleted, between, true);
      var t := Apply(later, Create(OwnDid(user, did, Some(handle), pdsUrl)), true);
      Tracks(later) ==>
        (!HasIdentity(t.rows, user) <==> !HasIdentity(later.rows, user) && HeldByOther(later.rows, did, user))
  {
    var deleted := Apply(s, DeleteOf(user), true);
    var later := RunFrom(deleted, between, true);
    var row := NewRow(OwnDid(user, did, Some(handle), pdsUrl));
    var t := Apply(later, Create(OwnDid(user, did, Some(handle), pdsUrl)), true);
    if HasIdentity(later.rows, user) {
      var id :| Holds(later.rows, user, id);
      assert later.nextId !in later.rows ==> Holds(t.rows, user, id);
    } else if Unique(later.rows, later.nextId, row, true) {
      assert Holds(t.rows, user, later.nextId);
    } else {
      var other :| other in later.rows && other != later.nextId
        && (later.rows[other].userUlid == user || later.rows[other].did == did);
      assert Holds(later.rows, user, other) || later.rows[other].userUlid != user;
    }
  }
}

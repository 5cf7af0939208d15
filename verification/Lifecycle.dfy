/** Upstreams and gateway keys: the transactions of internal/storage/admin_upstreams.go and
    internal/storage/postgres.go over two tables, with the triggers and constraints of
    internal/storage/migrations/002_upstream_lifecycle.sql and 003_lifecycle_consistency.sql.
    Every transaction locks the upstream row it decides on, so each is one atomic step. */
module Lifecycle {
  import opened ByteStrings

  type UpstreamId = string
  type KeyId = string

  datatype Phase = Active | Disabled | Deleting

  datatype Upstream = Upstream(name: string, baseURL: string, ciphertext: Option<Text>, enabled: bool, phase: Phase,
                               deleteRequestedAt: Option<int>, purgeAfter: Option<int>)

  datatype Key = Key(upstream: UpstreamId, revokedAt: Option<int>)

  datatype Error = NotFound | UpstreamDeleting | UpstreamDisabled | DuplicateName | ConstraintViolation | GuardRejected

  datatype Result<T> = Ok(value: T) | Err(error: Error)

  /** The two tables, and every id ever handed out: ids are random and never come back. */
  datatype Db = Db(upstreams: map<UpstreamId, Upstream>, keys: map<KeyId, Key>, usedUpstreams: set<UpstreamId>,
                   usedKeys: set<KeyId>)

  // ---------------------------------------------------------------------------------
  // Triggers and constraints
  // ---------------------------------------------------------------------------------

  function PhaseOf(enabled: bool): Phase { if enabled then Active else Disabled }

  /** The projection trigger before an INSERT. */
  function ProjectInsert(row: Upstream): Upstream {
    var r := if row.phase.Active? && !row.enabled && row.deleteRequestedAt.None?
             then row.(phase := PhaseOf(row.enabled)) else row;
    if r.phase.Deleting? then r.(enabled := false) else r
  }

  /** The projection trigger before an UPDATE: deleting is terminal, and a writer that only
      knows `enabled` is projected into the lifecycle. */
  function ProjectUpdate(was: Upstream, row: Upstream): Upstream {
    if was.phase.Deleting? then
      row.(phase := Deleting, enabled := false, deleteRequestedAt := was.deleteRequestedAt,
           purgeAfter := was.purgeAfter, ciphertext := None)
    else
      var r := if row.phase == was.phase && row.enabled != was.enabled
               then row.(phase := PhaseOf(row.enabled)) else row;
      if r.phase.Deleting? then r.(enabled := false) else r
  }

  predicate EnabledMatchesPhase(row: Upstream) { row.enabled <==> row.phase.Active? }

  predicate TimestampsOk(row: Upstream) {
    row.phase.Deleting? ==>
      row.deleteRequestedAt.Some? && row.purgeAfter.Some? && row.purgeAfter.value >= row.deleteRequestedAt.value
  }

  predicate ChecksOk(row: Upstream) { EnabledMatchesPhase(row) && TimestampsOk(row) }

  predicate NameFree(db: Db, id: UpstreamId, name: string) {
    forall u <- db.upstreams :: u != id ==> db.upstreams[u].name != name
  }

  /** The key guard trigger: a key may only be bound to an active upstream. */
  predicate GuardAdmits(db: Db, upstream: UpstreamId) {
    upstream in db.upstreams && db.upstreams[upstream].phase.Active? && db.upstreams[upstream].enabled
  }

  // ---------------------------------------------------------------------------------
  // Statements and transactions
  // ---------------------------------------------------------------------------------

  function InsertUpstream(db: Db, id: UpstreamId, row: Upstream): Result<Db> {
    var r := ProjectInsert(row);
    if !NameFree(db, id, r.name) then Err(DuplicateName)
    else if !ChecksOk(r) then Err(ConstraintViolation)
    else Ok(db.(upstreams := db.upstreams[id := r], usedUpstreams := db.usedUpstreams + {id}))
  }

  function UpdateRow(db: Db, id: UpstreamId, row: Upstream): Result<Db>
    requires id in db.upstreams
  {
    var r := ProjectUpdate(db.upstreams[id], row);
    if !NameFree(db, id, r.name) then Err(DuplicateName)
    else if !ChecksOk(r) then Err(ConstraintViolation)
    else Ok(db.(upstreams := db.upstreams[id := r]))
  }

  function CreateUpstream(db: Db, id: UpstreamId, name: string, baseURL: string, secret: Option<Text>,
                          enabled: bool): Result<Db>
  {
    InsertUpstream(db, id, Upstream(name, baseURL, secret, enabled, PhaseOf(enabled), None, None))
  }

  /** `secret == None` keeps the stored one, as an empty API key does. */
  function UpdateUpstream(db: Db, id: UpstreamId, name: string, baseURL: string, secret: Option<Text>,
                          enabled: bool): Result<Db>
  {
    if id !in db.upstreams then Err(NotFound)
    else if db.upstreams[id].phase.Deleting? then Err(UpstreamDeleting)
    else
      var was := db.upstreams[id];
      UpdateRow(db, id, was.(name := name, baseURL := baseURL, enabled := enabled, phase := PhaseOf(enabled),
                             ciphertext := if secret.Some? then secret else was.ciphertext))
  }

  /** An older binary inserts without lifecycle columns: the column default is 'active'. */
  function LegacyInsert(db: Db, id: UpstreamId, name: string, baseURL: string, secret: Option<Text>,
                        enabled: bool): Result<Db>
  {
    InsertUpstream(db, id, Upstream(name, baseURL, secret, enabled, Active, None, None))
  }

  /** An older binary updates any row and leaves the lifecycle columns as they are. */
  function LegacyUpdate(db: Db, id: UpstreamId, name: string, baseURL: string, secret: Option<Text>,
                        enabled: bool): Result<Db>
  {
    if id !in db.upstreams then Err(NotFound)
    else
      UpdateRow(db, id, db.upstreams[id].(name := name, baseURL := baseURL, ciphertext := secret, enabled := enabled))
  }

  function RevokeKeysOf(keys: map<KeyId, Key>, id: UpstreamId, now: int): map<KeyId, Key> {
    map k | k in keys ::
      if keys[k].upstream == id && keys[k].revokedAt.None? then keys[k].(revokedAt := Some(now)) else keys[k]
  }

  /** What a deletion request makes of a row; the default grace period is a day. */
  function Doomed(row: Upstream, now: int, grace: int): Upstream {
    row.(phase := Deleting, enabled := false, deleteRequestedAt := Some(now),
         purgeAfter := Some(now + if grace > 0 then grace else 24 * 3600 * 1000), ciphertext := None)
  }

  /** The deletion transaction; `true` if this call made the transition. */
  function RequestDeletion(db: Db, id: UpstreamId, now: int, grace: int): Result<(Db, bool)> {
    if id !in db.upstreams then Err(NotFound)
    else if db.upstreams[id].phase.Deleting? then Ok((db, false))
    else
      match UpdateRow(db, id, Doomed(db.upstreams[id], now, grace))
      case Err(e) => Err(e)
      case Ok(db') => Ok((db'.(keys := RevokeKeysOf(db'.keys, id, now)), true))
  }

  /** An older binary inserts a key without looking at the upstream: only the guard checks. */
  function LegacyInsertKey(db: Db, key: KeyId, upstream: UpstreamId): Result<Db> {
    if !GuardAdmits(db, upstream) then Err(GuardRejected)
    else Ok(db.(keys := db.keys[key := Key(upstream, None)], usedKeys := db.usedKeys + {key}))
  }

  function CreateGatewayKey(db: Db, key: KeyId, upstream: UpstreamId): Result<Db> {
    if upstream !in db.upstreams then Err(NotFound)
    else if db.upstreams[upstream].phase.Deleting? then Err(UpstreamDeleting)
    else if !db.upstreams[upstream].phase.Active? || !db.upstreams[upstream].enabled then Err(UpstreamDisabled)
    else LegacyInsertKey(db, key, upstream)
  }

  function RevokeGatewayKey(db: Db, key: KeyId, now: int): Result<Db> {
    if key !in db.keys then Err(NotFound)
    else
      var k := db.keys[key];
      Ok(db.(keys := db.keys[key := k.(revokedAt := if k.revokedAt.Some? then k.revokedAt else Some(now))]))
  }

  predicate Due(row: Upstream, now: int) {
    row.phase.Deleting? && row.deleteRequestedAt.Some? && row.purgeAfter.Some? &&
    row.purgeAfter.value >= row.deleteRequestedAt.value && row.purgeAfter.value <= now
  }

  function WithoutRevokedKeysOf(keys: map<KeyId, Key>, id: UpstreamId): map<KeyId, Key> {
    map k | k in keys && !(keys[k].upstream == id && keys[k].revokedAt.Some?) :: keys[k]
  }

  /** The foreign key forbids deleting an upstream that still has a key. */
  predicate Referenced(keys: map<KeyId, Key>, id: UpstreamId) {
    exists k :: k in keys && keys[k].upstream == id
  }

  /** One transaction of the finalizer: drop the revoked keys, then the upstream. */
  function FinalizeOne(db: Db, id: UpstreamId): Result<Db> {
    var keys := WithoutRevokedKeysOf(db.keys, id);
    if Referenced(keys, id) then Err(ConstraintViolation)
    else Ok(db.(keys := keys, upstreams := db.upstreams - {id}))
  }

  /** Which upstream a key routes to, if any. */
  function Route(db: Db, key: KeyId): Option<UpstreamId> {
    if key in db.keys && db.keys[key].revokedAt.None? && GuardAdmits(db, db.keys[key].upstream)
    then Some(db.keys[key].upstream) else None
  }

  // ---------------------------------------------------------------------------------
  // Steps and invariant
  // ---------------------------------------------------------------------------------

  datatype Step =
    | Create(id: UpstreamId, name: string, baseURL: string, secret: Option<Text>, enabled: bool, legacy: bool)
    | Update(id: UpstreamId, name: string, baseURL: string, secret: Option<Text>, enabled: bool, legacy: bool)
    | Delete(id: UpstreamId, now: int, grace: int)
    | IssueKey(key: KeyId, upstream: UpstreamId, legacy: bool)
    | Revoke(key: KeyId, now: int)
    | Finalize(id: UpstreamId, now: int)

  /** New rows get ids that were never used before; the finalizer picks a due row. */
  predicate Enabled(db: Db, step: Step) {
    match step
    case Create(id, _, _, _, _, _) => id !in db.usedUpstreams
    case IssueKey(key, _, _) => key !in db.usedKeys
    case Finalize(id, now) => id in db.upstreams && Due(db.upstreams[id], now)
    case _ => true
  }

  function Attempt(db: Db, step: Step): Result<Db> {
    match step
    case Create(id, name, url, secret, enabled, legacy) =>
      if legacy then LegacyInsert(db, id, name, url, secret, enabled)
      else CreateUpstream(db, id, name, url, secret, enabled)
    case Update(id, name, url, secret, enabled, legacy) =>
      if legacy then LegacyUpdate(db, id, name, url, secret, enabled)
      else UpdateUpstream(db, id, name, url, secret, enabled)
    case Delete(id, now, grace) =>
      (match RequestDeletion(db, id, now, grace) case Ok((db', _)) => Ok(db') case Err(e) => Err(e))
    case IssueKey(key, upstream, legacy) =>
      if legacy then LegacyInsertKey(db, key, upstream) else CreateGatewayKey(db, key, upstream)
    case Revoke(key, now) => RevokeGatewayKey(db, key, now)
    case Finalize(id, _) => FinalizeOne(db, id)
  }

  /** A failed transaction is rolled back. */
  function Next(db: Db, step: Step): Db {
    match Attempt(db, step) case Ok(db') => db' case Err(_) => db
  }

  /** A deleting upstream keeps no secret and has timestamps the finalizer accepts. */
  predicate RowOk(row: Upstream) {
    ChecksOk(row) && (row.phase.Deleting? ==> row.ciphertext.None?)
  }

  predicate KeyOk(db: Db, key: Key) {
    && key.upstream in db.upstreams
    && (key.revokedAt.None? ==> !db.upstreams[key.upstream].phase.Deleting?)
  }

  predicate NamesDiffer(db: Db, u: UpstreamId, v: UpstreamId) {
    u in db.upstreams && v in db.upstreams && u != v ==> db.upstreams[u].name != db.upstreams[v].name
  }

  ghost predicate UniqueNames(db: Db) {
    forall u, v :: NamesDiffer(db, u, v)
  }

  ghost predicate Inv(db: Db) {
    && (forall u <- db.upstreams :: u in db.usedUpstreams && RowOk(db.upstreams[u]))
    && (forall k <- db.keys :: k in db.usedKeys && KeyOk(db, db.keys[k]))
    && UniqueNames(db)
  }

  // ---------------------------------------------------------------------------------
  // What the triggers achieve
  // ---------------------------------------------------------------------------------

  /** A writer that does not know the lifecycle leaves its columns as they were. */
  predicate LegacyWrite(was: Upstream, row: Upstream) {
    row.phase == was.phase && row.deleteRequestedAt == was.deleteRequestedAt && row.purgeAfter == was.purgeAfter
  }

  /** Without the trigger a legacy write breaks the checks exactly when it flips `enabled`;
      with it every legacy write passes them, and a deleting row keeps its state. */
  lemma {:induction false} ProjectionRepairs(was: Upstream, row: Upstream)
    requires RowOk(was) && LegacyWrite(was, row)
    ensures ChecksOk(row) <==> row.enabled == was.enabled
    ensures RowOk(ProjectUpdate(was, row))
    ensures var r := ProjectUpdate(was, row);
      && (was.phase.Deleting? ==> LegacyWrite(was, r))
      && (!was.phase.Deleting? ==> r == row.(phase := PhaseOf(row.enabled)))
  {
  }

  /** An inserted row passes the check on `enabled` if and only if it is not enabled in a phase that
      forbids it; the trigger repairs a row without lifecycle columns and never enables one. */
  lemma {:induction false} InsertProjected(row: Upstream)
    ensures var r := ProjectInsert(row);
      && (EnabledMatchesPhase(r) <==>
            && !(row.phase.Disabled? && row.enabled)
            && !(row.phase.Active? && !row.enabled && row.deleteRequestedAt.Some?))
      && (row.phase.Active? && row.deleteRequestedAt.None? ==> r == row.(phase := PhaseOf(row.enabled)))
      && (r.enabled ==> row.enabled)
  {
  }

  /** No writer, new or old, ever runs into a check or the foreign key. */
  lemma {:induction false} NoConstraintViolation(db: Db, step: Step)
    requires Inv(db) && Enabled(db, step)
    ensures Attempt(db, step) != Err(ConstraintViolation)
  {
    match step
    case Finalize(id, _) => FinalizeNeverFails(db, id);
    case Update(id, name, url, secret, enabled, legacy) =>
      if id in db.upstreams {
        var was := db.upstreams[id];
        ProjectionRepairs(was, was.(name := name, baseURL := url, ciphertext := secret, enabled := enabled));
      }
    case Delete(id, _, _) => assert id in db.upstreams ==> RowOk(db.upstreams[id]);
    case _ =>
  }

  /** A deletion request for an existing upstream always commits: the row is deleting, without
      its secret, with the grace period ahead of it, every key bound to it is revoked, and
      nothing else changes.  Asking again changes nothing. */
  lemma {:induction false} DeletionCommits(db: Db, id: UpstreamId, now: int, grace: int)
    requires Inv(db) && id in db.upstreams
    ensures Attempt(db, Delete(id, now, grace)).Ok?
    ensures var was, db' := db.upstreams[id], Next(db, Delete(id, now, grace));
      && (was.phase.Deleting? ==> db' == db)
      && (!was.phase.Deleting? ==>
            db'.upstreams == db.upstreams[id := Doomed(was, now, grace)] && db'.keys.Keys == db.keys.Keys)
      && (forall k <- db.keys :: db.keys[k].upstream != id ==> db'.keys[k] == db.keys[k])
      && (forall k <- db.keys :: db.keys[k].upstream == id ==> db'.keys[k].revokedAt.Some?)
  {
    assert forall k <- db.keys :: KeyOk(db, db.keys[k]);
    OwnNameFree(db, id);
  }

  lemma {:induction false} OwnNameFree(db: Db, id: UpstreamId)
    requires UniqueNames(db) && id in db.upstreams
    ensures NameFree(db, id, db.upstreams[id].name)
  {
    assert forall u <- db.upstreams :: NamesDiffer(db, u, id);
  }

  // ---------------------------------------------------------------------------------
  // What each transaction comes to
  // ---------------------------------------------------------------------------------

  function IntendedUpdate(was: Upstream, step: Step): Upstream
    requires step.Update?
  {
    if was.phase.Deleting? then was.(name := step.name, baseURL := step.baseURL)
    else Upstream(step.name, step.baseURL, if step.legacy || step.secret.Some? then step.secret else was.ciphertext,
                  step.enabled, if step.enabled then Active else Disabled, was.deleteRequestedAt, was.purgeAfter)
  }

  function RevokedKey(key: Key, now: int): Key {
    if key.revokedAt.Some? then key else Key(key.upstream, Some(now))
  }

  /** The tables a transaction is to leave, or its error, without triggers, checks and guards. */
  function Intended(db: Db, step: Step): Result<Db> {
    match step
    case Create(id, name, url, secret, enabled, _) =>
      if !NameFree(db, id, name) then Err(DuplicateName)
      else
        var row := Upstream(name, url, secret, enabled, if enabled then Active else Disabled, None, None);
        Ok(Db(db.upstreams[id := row], db.keys, db.usedUpstreams + {id}, db.usedKeys))
    case Update(id, name, _, _, _, legacy) =>
      if id !in db.upstreams then Err(NotFound)
      else if db.upstreams[id].phase.Deleting? && !legacy then Err(UpstreamDeleting)
      else if !NameFree(db, id, name) then Err(DuplicateName)
      else Ok(db.(upstreams := db.upstreams[id := IntendedUpdate(db.upstreams[id], step)]))
    case Delete(id, now, grace) =>
      if id !in db.upstreams then Err(NotFound)
      else if db.upstreams[id].phase.Deleting? then Ok(db)
      else
        var row := Upstream(db.upstreams[id].name, db.upstreams[id].baseURL, None, false, Deleting, Some(now),
                            Some(if grace > 0 then now + grace else now + 86_400_000));
        Ok(db.(upstreams := db.upstreams[id := row],
               keys := map k | k in db.keys ::
                 if db.keys[k].upstream == id then RevokedKey(db.keys[k], now) else db.keys[k]))
    case IssueKey(key, upstream, legacy) =>
      if upstream in db.upstreams && db.upstreams[upstream].phase.Active?
      then Ok(db.(keys := db.keys[key := Key(upstream, None)], usedKeys := db.usedKeys + {key}))
      else if legacy then Err(GuardRejected)
      else if upstream !in db.upstreams then Err(NotFound)
      else if db.upstreams[upstream].phase.Deleting? then Err(UpstreamDeleting)
      else Err(UpstreamDisabled)
    case Revoke(key, now) =>
      if key !in db.keys then Err(NotFound)
      else Ok(db.(keys := db.keys[key := RevokedKey(db.keys[key], now)]))
    case Finalize(id, _) =>
      Ok(db.(upstreams := db.upstreams - {id}, keys := map k | k in db.keys && db.keys[k].upstream != id :: db.keys[k]))
  }

  /** From every state the triggers, checks and guards allow: each transaction, of a new or an old
      binary, does exactly what it is meant to do, or fails for the reason it is meant to. */
  lemma {:induction false} AttemptIsIntended(db: Db, step: Step)
    requires Inv(db) && Enabled(db, step)
    ensures Attempt(db, step) == Intended(db, step)
  {
    match step
    case Create(_, _, _, _, _, _) =>
    case Update(id, _, _, _, _, _) => UpdateIsIntended(db, step);
    case Delete(id, now, grace) => DeleteIsIntended(db, id, now, grace);
    case IssueKey(_, _, _) =>
    case Revoke(_, _) =>
    case Finalize(id, _) => FinalizeIsIntended(db, id);
  }

  lemma {:induction false} UpdateIsIntended(db: Db, step: Step)
    requires Inv(db) && step.Update?
    ensures Attempt(db, step) == Intended(db, step)
  {
    if step.id in db.upstreams {
      assert RowOk(db.upstreams[step.id]);
    }
  }

  lemma {:induction false} DeleteIsIntended(db: Db, id: UpstreamId, now: int, grace: int)
    requires Inv(db)
    ensures Attempt(db, Delete(id, now, grace)) == Intended(db, Delete(id, now, grace))
  {
    if id in db.upstreams {
      OwnNameFree(db, id);
      RevokeIsIntended(db.keys, id, now);
    }
  }

  lemma {:induction false} RevokeIsIntended(keys: map<KeyId, Key>, id: UpstreamId, now: int)
    ensures RevokeKeysOf(keys, id, now)
         == map k | k in keys :: if keys[k].upstream == id then RevokedKey(keys[k], now) else keys[k]
  {
  }

  lemma {:induction false} FinalizeIsIntended(db: Db, id: UpstreamId)
    requires Inv(db) && id in db.upstreams && db.upstreams[id].phase.Deleting?
    ensures FinalizeOne(db, id) == Intended(db, Finalize(id, 0))
  {
    FinalizeNeverFails(db, id);
    assert forall k <- db.keys :: KeyOk(db, db.keys[k]);
    assert WithoutRevokedKeysOf(db.keys, id) == map k | k in db.keys && db.keys[k].upstream != id :: db.keys[k];
  }

  // ---------------------------------------------------------------------------------
  // Every step keeps the invariant
  // ---------------------------------------------------------------------------------

  /** Writing a good row keeps the invariant unless it starts a deletion. */
  lemma {:induction false} RowWriteKeepsInv(db: Db, id: UpstreamId, row: Upstream)
    requires Inv(db) && RowOk(row) && NameFree(db, id, row.name)
    requires id in db.upstreams && row.phase.Deleting? ==> db.upstreams[id].phase.Deleting?
    ensures Inv(db.(upstreams := db.upstreams[id := row], usedUpstreams := db.usedUpstreams + {id}))
  {
    assert forall k <- db.keys :: KeyOk(db, db.keys[k]);
    var db' := db.(upstreams := db.upstreams[id := row], usedUpstreams := db.usedUpstreams + {id});
    forall u, v
      ensures NamesDiffer(db', u, v)
    {
      assert NamesDiffer(db, u, v);
    }
  }

  lemma {:induction false} CreateKeepsInv(db: Db, step: Step)
    requires Inv(db) && Enabled(db, step) && step.Create?
    ensures Inv(Next(db, step))
  {
    var row := Upstream(step.name, step.baseURL, step.secret, step.enabled,
                        if step.legacy then Active else PhaseOf(step.enabled), None, None);
    if NameFree(db, step.id, step.name) {
      RowWriteKeepsInv(db, step.id, ProjectInsert(row));
    }
  }

  lemma {:induction false} UpdateKeepsInv(db: Db, id: UpstreamId, row: Upstream)
    requires Inv(db) && id in db.upstreams
    requires row.phase == db.upstreams[id].phase || !row.phase.Deleting?
    ensures var r := UpdateRow(db, id, row); r.Ok? ==> Inv(r.value)
  {
    var r := ProjectUpdate(db.upstreams[id], row);
    if ChecksOk(r) && NameFree(db, id, r.name) {
      RowWriteKeepsInv(db, id, r);
      assert db.usedUpstreams + {id} == db.usedUpstreams;
    }
  }

  lemma {:induction false} DeleteKeepsInv(db: Db, id: UpstreamId, now: int, grace: int)
    requires Inv(db)
    ensures Inv(Next(db, Delete(id, now, grace)))
  {
    if id in db.upstreams && !db.upstreams[id].phase.Deleting? {
      var row, keys := Doomed(db.upstreams[id], now, grace), RevokeKeysOf(db.keys, id, now);
      OwnNameFree(db, id);
      assert ProjectUpdate(db.upstreams[id], row) == row && RowOk(row);
      assert Next(db, Delete(id, now, grace)) == db.(upstreams := db.upstreams[id := row], keys := keys);
      DoomedKeepsInv(db, id, row, now);
    }
  }

  lemma {:induction false} DoomedKeepsInv(db: Db, id: UpstreamId, row: Upstream, now: int)
    requires Inv(db) && id in db.upstreams && RowOk(row) && row.name == db.upstreams[id].name
    ensures Inv(db.(upstreams := db.upstreams[id := row], keys := RevokeKeysOf(db.keys, id, now)))
  {
    var db' := db.(upstreams := db.upstreams[id := row], keys := RevokeKeysOf(db.keys, id, now));
    forall k | k in db'.keys
      ensures k in db'.usedKeys && KeyOk(db', db'.keys[k])
    {
      assert KeyOk(db, db.keys[k]);
    }
    SameNamesStayUnique(db, db');
  }

  lemma {:induction false} SameNamesStayUnique(db: Db, db': Db)
    requires UniqueNames(db)
    requires forall u <- db'.upstreams :: u in db.upstreams && db'.upstreams[u].name == db.upstreams[u].name
    ensures UniqueNames(db')
  {
    forall u, v
      ensures NamesDiffer(db', u, v)
    {
      assert NamesDiffer(db, u, v);
    }
  }

  lemma {:induction false} KeyStepKeepsInv(db: Db, step: Step)
    requires Inv(db) && Enabled(db, step) && (step.IssueKey? || step.Revoke?)
    ensures Inv(Next(db, step))
  {
    assert forall k <- db.keys :: KeyOk(db, db.keys[k]);
    SameNamesStayUnique(db, Next(db, step));
  }

  lemma {:induction false} FinalizeKeepsInv(db: Db, id: UpstreamId)
    requires Inv(db)
    ensures var r := FinalizeOne(db, id); r.Ok? ==> Inv(r.value)
  {
    assert forall k <- db.keys :: KeyOk(db, db.keys[k]);
    var r := FinalizeOne(db, id);
    if r.Ok? {
      SameNamesStayUnique(db, r.value);
    }
  }

  /** Every transaction, committed or rolled back, keeps the invariant. */
  lemma {:induction false} StepKeepsInv(db: Db, step: Step)
    requires Inv(db) && Enabled(db, step)
    ensures Inv(Next(db, step))
  {
    match step
    case Create(_, _, _, _, _, _) => CreateKeepsInv(db, step);
    case Update(id, name, url, secret, enabled, legacy) =>
      if id in db.upstreams {
        var was := db.upstreams[id];
        if legacy {
          UpdateKeepsInv(db, id, was.(name := name, baseURL := url, ciphertext := secret, enabled := enabled));
        } else {
          UpdateKeepsInv(db, id, was.(name := name, baseURL := url, enabled := enabled, phase := PhaseOf(enabled),
                                      ciphertext := if secret.Some? then secret else was.ciphertext));
        }
      }
    case Delete(id, now, grace) => DeleteKeepsInv(db, id, now, grace);
    case Finalize(id, _) => FinalizeKeepsInv(db, id);
    case _ => KeyStepKeepsInv(db, step);
  }

  /** Once an upstream is being deleted all its keys are revoked, so the finalizer's delete
      never runs into the foreign key. */
  lemma {:induction false} FinalizeNeverFails(db: Db, id: UpstreamId)
    requires Inv(db) && id in db.upstreams && db.upstreams[id].phase.Deleting?
    ensures FinalizeOne(db, id).Ok?
  {
    assert forall k <- db.keys :: KeyOk(db, db.keys[k]);
  }

  // ---------------------------------------------------------------------------------
  // Runs
  // ---------------------------------------------------------------------------------

  ghost predicate Run(db: Db, steps: seq<Step>, db': Db)
    decreases |steps|
  {
    if steps == [] then db == db'
    else Enabled(db, steps[0]) && Run(Next(db, steps[0]), steps[1..], db')
  }

  function Empty(): Db { Db(map[], map[], {}, {}) }

  lemma {:induction false} RunKeepsInv(db: Db, steps: seq<Step>, db': Db)
    requires Inv(db) && Run(db, steps, db')
    ensures Inv(db')
    decreases |steps|
  {
    if steps != [] {
      StepKeepsInv(db, steps[0]);
      RunKeepsInv(Next(db, steps[0]), steps[1..], db');
    }
  }

  /** In every reachable state: enabled means active, a deleting upstream has no secret and
      valid timestamps, and every live key is bound to an upstream that is not deleting. */
  lemma {:induction false} LifecycleGuarantee(steps: seq<Step>, db: Db)
    requires Run(Empty(), steps, db)
    ensures forall u <- db.upstreams :: (db.upstreams[u].enabled <==> db.upstreams[u].phase.Active?)
    ensures forall u <- db.upstreams :: db.upstreams[u].phase.Deleting? ==>
              db.upstreams[u].ciphertext.None? && TimestampsOk(db.upstreams[u]) && FinalizeOne(db, u).Ok?
    ensures forall k <- db.keys :: db.keys[k].revokedAt.None? ==>
              db.keys[k].upstream in db.upstreams && !db.upstreams[db.keys[k].upstream].phase.Deleting?
    ensures forall k <- db.keys :: db.keys[k].upstream in db.upstreams
  {
    RunKeepsInv(Empty(), steps, db);
    forall u | u in db.upstreams && db.upstreams[u].phase.Deleting?
      ensures FinalizeOne(db, u).Ok?
    {
      FinalizeNeverFails(db, u);
    }
    assert forall u <- db.upstreams :: RowOk(db.upstreams[u]);
    assert forall k <- db.keys :: KeyOk(db, db.keys[k]);
  }

  /** The upstream is gone, or still being deleted with the same timestamps. */
  predicate StillDeleting(before: Db, after: Db, id: UpstreamId)
    requires id in before.upstreams
  {
    id in after.upstreams ==>
      && after.upstreams[id].phase.Deleting?
      && after.upstreams[id].deleteRequestedAt == before.upstreams[id].deleteRequestedAt
      && after.upstreams[id].purgeAfter == before.upstreams[id].purgeAfter
  }

  lemma {:induction false} DeletingIsTerminalStep(db: Db, step: Step, id: UpstreamId)
    requires Inv(db) && Enabled(db, step)
    requires id in db.usedUpstreams
    requires id in db.upstreams ==> db.upstreams[id].phase.Deleting?
    ensures var db' := Next(db, step);
      && id in db'.usedUpstreams
      && (id in db'.upstreams ==> id in db.upstreams && StillDeleting(db, db', id))
  {
  }

  /** Deleting is terminal: over any run the upstream stays deleting, with its timestamps and
      without its secret, until it is gone for good. */
  lemma {:induction false} DeletingIsTerminal(db: Db, steps: seq<Step>, db': Db, id: UpstreamId)
    requires Inv(db) && Run(db, steps, db')
    requires id in db.upstreams && db.upstreams[id].phase.Deleting?
    ensures StillDeleting(db, db', id)
    decreases |steps|
  {
    if steps != [] {
      var t := Next(db, steps[0]);
      StepKeepsInv(db, steps[0]);
      DeletingIsTerminalStep(db, steps[0], id);
      if id in t.upstreams {
        DeletingIsTerminal(t, steps[1..], db', id);
      } else {
        StaysGone(t, steps[1..], db', id);
      }
    }
  }

  lemma {:induction false} StaysGone(db: Db, steps: seq<Step>, db': Db, id: UpstreamId)
    requires Inv(db) && Run(db, steps, db')
    requires id in db.usedUpstreams && id !in db.upstreams
    ensures id !in db'.upstreams
    decreases |steps|
  {
    if steps != [] {
      StepKeepsInv(db, steps[0]);
      DeletingIsTerminalStep(db, steps[0], id);
      StaysGone(Next(db, steps[0]), steps[1..], db', id);
    }
  }

  /** A dead key: known, and either removed or revoked. */
  predicate Dead(db: Db, key: KeyId) {
    key in db.usedKeys && (key in db.keys ==> db.keys[key].revokedAt.Some?)
  }

  lemma {:induction false} DeadStaysDead(db: Db, steps: seq<Step>, db': Db, key: KeyId)
    requires Inv(db) && Run(db, steps, db') && Dead(db, key)
    ensures Dead(db', key)
    decreases |steps|
  {
    if steps != [] {
      StepKeepsInv(db, steps[0]);
      DeadStep(db, steps[0], key);
      DeadStaysDead(Next(db, steps[0]), steps[1..], db', key);
    }
  }

  lemma {:induction false} DeadStep(db: Db, step: Step, key: KeyId)
    requires Inv(db) && Enabled(db, step) && Dead(db, key)
    ensures Dead(Next(db, step), key)
  {
  }

  /** A key routes to an upstream if and only if it is bound to it and not revoked, and the
      upstream is active. */
  lemma {:induction false} RouteExactly(db: Db, key: KeyId, id: UpstreamId)
    requires Inv(db)
    ensures Route(db, key) == Some(id) <==>
      && key in db.keys && db.keys[key].upstream == id && db.keys[key].revokedAt.None?
      && id in db.upstreams && db.upstreams[id].phase.Active?
  {
    assert id in db.upstreams ==> RowOk(db.upstreams[id]);
  }

  /** A revoked key routes nowhere again, whatever happens afterwards; the revocation keeps an
      earlier time and touches no other key and no upstream. */
  lemma {:induction false} RevokedForGood(db: Db, key: KeyId, now: int, steps: seq<Step>, db': Db)
    requires Inv(db) && key in db.keys && Run(Next(db, Revoke(key, now)), steps, db')
    ensures var t := Next(db, Revoke(key, now));
      && t.upstreams == db.upstreams && t.keys.Keys == db.keys.Keys
      && (forall k <- db.keys :: k != key ==> t.keys[k] == db.keys[k])
      && t.keys[key].upstream == db.keys[key].upstream
      && t.keys[key].revokedAt == if db.keys[key].revokedAt.Some? then db.keys[key].revokedAt else Some(now)
    ensures Route(db', key).None?
  {
    StepKeepsInv(db, Revoke(key, now));
    assert key in db.usedKeys;
    DeadStaysDead(Next(db, Revoke(key, now)), steps, db', key);
  }

  /** Once the deletion of an upstream was requested, no key that was bound to it routes
      anywhere again, and no key at all, old or new, routes to it, whatever happens afterwards. */
  lemma {:induction false} NoRouteAfterDeletion(db: Db, id: UpstreamId, now: int, grace: int, steps: seq<Step>, db': Db,
                                                key: KeyId)
    requires Inv(db) && id in db.upstreams
    requires Run(Next(db, Delete(id, now, grace)), steps, db')
    ensures Route(db', key) != Some(id)
    ensures key in db.keys && db.keys[key].upstream == id ==> Route(db', key).None?
    ensures id in db'.upstreams ==> db'.upstreams[id].phase.Deleting? && db'.upstreams[id].ciphertext.None?
  {
    var t := Next(db, Delete(id, now, grace));
    StepKeepsInv(db, Delete(id, now, grace));
    DeletionCommits(db, id, now, grace);
    if key in db.keys && db.keys[key].upstream == id {
      assert key in db.usedKeys;
      DeadStaysDead(t, steps, db', key);
    }
    DeletingIsTerminal(t, steps, db', id);
    RunKeepsInv(t, steps, db');
    assert id in db'.upstreams ==> RowOk(db'.upstreams[id]);
  }

  // ---------------------------------------------------------------------------------
  // The repository
  // ---------------------------------------------------------------------------------

  function DueIds(db: Db, now: int): set<UpstreamId> {
    set u | u in db.upstreams && Due(db.upstreams[u], now)
  }

  /** Deleting rows the finalizer could never purge. */
  function Malformed(db: Db): set<UpstreamId> {
    set u | u in db.upstreams && db.upstreams[u].phase.Deleting? && !TimestampsOk(db.upstreams[u])
  }

  /** The backlog never reports a malformed row, and an overdue row is always due. */
  lemma {:induction false} BacklogIsPurgeable(steps: seq<Step>, db: Db, now: int)
    requires Run(Empty(), steps, db)
    ensures Malformed(db) == {}
    ensures forall u <- db.upstreams :: db.upstreams[u].phase.Deleting? ==>
              db.upstreams[u].purgeAfter.Some? && (u in DueIds(db, now) <==> db.upstreams[u].purgeAfter.value <= now)
  {
    LifecycleGuarantee(steps, db);
  }

  /** What finalizing the upstreams `gone` amounts to: they and their keys disappear, and
      nothing else changes. */
  ghost predicate Purged(before: Db, after: Db, gone: set<UpstreamId>) {
    && gone <= before.upstreams.Keys
    && (forall u :: SameRow(before, after, gone, u))
    && (forall k :: SameKey(before, after, gone, k))
    && after.usedUpstreams == before.usedUpstreams && after.usedKeys == before.usedKeys
  }

  predicate SameRow(before: Db, after: Db, gone: set<UpstreamId>, u: UpstreamId) {
    && (u in after.upstreams <==> u in before.upstreams && u !in gone)
    && (u in after.upstreams ==> after.upstreams[u] == before.upstreams[u])
  }

  predicate SameKey(before: Db, after: Db, gone: set<UpstreamId>, k: KeyId) {
    && (k in after.keys <==> k in before.keys && before.keys[k].upstream !in gone)
    && (k in after.keys ==> after.keys[k] == before.keys[k])
  }

  lemma {:induction false} PurgedNothing(db: Db)
    ensures Purged(db, db, {})
  {
  }

  /** No purged upstream was due later than one that was left. */
  ghost predicate EarliestFirst(db: Db, gone: set<UpstreamId>, due: set<UpstreamId>) {
    forall u, v {:trigger NoLater(db, u, v)} :: u in gone && v in due && v !in gone ==> NoLater(db, u, v)
  }

  predicate NoLater(db: Db, u: UpstreamId, v: UpstreamId) {
    u in db.upstreams && v in db.upstreams ==>
      && db.upstreams[u].purgeAfter.Some? && db.upstreams[v].purgeAfter.Some?
      && db.upstreams[u].purgeAfter.value <= db.upstreams[v].purgeAfter.value
  }

  /** The upstreams `gone` of those due at `now` are purged, earliest first. */
  ghost predicate Purging(first: Db, db: Db, gone: set<UpstreamId>, all: set<UpstreamId>, now: int) {
    && Inv(db) && Purged(first, db, gone)
    && gone <= all && DueIds(db, now) == all - gone
    && EarliestFirst(first, gone, all)
  }

  lemma {:induction false} PurgingStarts(db: Db, now: int)
    requires Inv(db)
    ensures Purging(db, db, {}, DueIds(db, now), now)
  {
    PurgedNothing(db);
  }

  lemma {:induction false} EarliestStep(before: Db, db: Db, gone: set<UpstreamId>, all: set<UpstreamId>, now: int,
                                        id: UpstreamId)
    requires Purged(before, db, gone) && EarliestFirst(before, gone, all)
    requires DueIds(db, now) == all - gone && id in DueIds(db, now)
    requires forall u <- DueIds(db, now) :: db.upstreams[id].purgeAfter.value <= db.upstreams[u].purgeAfter.value
    ensures EarliestFirst(before, gone + {id}, all)
  {
    forall u, v | u in gone + {id} && v in all && v !in gone + {id}
      ensures NoLater(before, u, v)
    {
      assert v in DueIds(db, now);
      assert SameRow(before, db, gone, u) && SameRow(before, db, gone, v);
      if u == id {
        assert before.upstreams[u] == db.upstreams[u] && before.upstreams[v] == db.upstreams[v];
      } else {
        assert NoLater(before, u, v);
      }
    }
  }

  lemma {:induction false} PurgeOneMore(before: Db, db: Db, gone: set<UpstreamId>, id: UpstreamId)
    requires Inv(db) && Purged(before, db, gone)
    requires id in db.upstreams && db.upstreams[id].phase.Deleting?
    ensures FinalizeOne(db, id).Ok? && Purged(before, FinalizeOne(db, id).value, gone + {id})
  {
    FinalizeNeverFails(db, id);
    var after := FinalizeOne(db, id).value;
    assert SameRow(before, db, gone, id);
    forall u
      ensures SameRow(before, after, gone + {id}, u)
    {
      assert SameRow(before, db, gone, u);
    }
    forall k
      ensures SameKey(before, after, gone + {id}, k)
    {
      assert SameKey(before, db, gone, k) && (k in db.keys ==> KeyOk(db, db.keys[k]));
    }
  }

  class Repository {
    var db: Db

    constructor ()
      ensures db == Empty() && Inv(db)
    {
      db := Empty();
    }

    /** Run one transaction: commit it or leave the database as it was. */
    method Execute(step: Step) returns (outcome: Result<()>)
      requires Inv(db) && Enabled(db, step)
      modifies this
      ensures Inv(db) && db == Next(old(db), step)
      ensures match Intended(old(db), step)
              case Ok(db') => outcome.Ok? && db == db'
              case Err(e) => outcome == Err(e) && db == old(db)
    {
      StepKeepsInv(db, step);
      AttemptIsIntended(db, step);
      match Attempt(db, step)
      case Ok(db') =>
        db := db';
        outcome := Ok(());
      case Err(e) =>
        outcome := Err(e);
    }

    method EarliestDue(due: set<UpstreamId>) returns (id: UpstreamId)
      requires due != {} && forall u <- due :: u in db.upstreams && db.upstreams[u].purgeAfter.Some?
      ensures id in due
      ensures forall u <- due :: db.upstreams[id].purgeAfter.value <= db.upstreams[u].purgeAfter.value
    {
      id :| id in due;
      var rest := due - {id};
      while rest != {}
        invariant id in due && rest <= due
        invariant forall u <- due :: u in rest || db.upstreams[id].purgeAfter.value <= db.upstreams[u].purgeAfter.value
      {
        var u :| u in rest;
        if db.upstreams[u].purgeAfter.value < db.upstreams[id].purgeAfter.value {
          id := u;
        }
        rest := rest - {u};
      }
    }

    /** One transaction of the finalizer: purge the due upstream whose time came first. */
    method PurgeEarliest(now: int) returns (id: UpstreamId, removedKeys: nat)
      requires Inv(db) && DueIds(db, now) != {}
      modifies this
      ensures id in DueIds(old(db), now)
      ensures forall u <- DueIds(old(db), now) ::
                old(db).upstreams[id].purgeAfter.value <= old(db).upstreams[u].purgeAfter.value
      ensures Inv(db) && FinalizeOne(old(db), id) == Ok(db)
      ensures DueIds(db, now) == DueIds(old(db), now) - {id}
      ensures removedKeys == |old(db).keys| - |db.keys|
    {
      id := EarliestDue(DueIds(db, now));
      FinalizeNeverFails(db, id);
      FinalizeKeepsInv(db, id);
      var kept := WithoutRevokedKeysOf(db.keys, id);
      SubsetSize(kept.Keys, db.keys.Keys);
      removedKeys := |db.keys| - |kept|;
      db := FinalizeOne(db, id).value;
    }

    /** The finalizer, at one moment and alone: it purges the due upstreams, earliest first,
        up to the limit, and never fails. */
    method FinalizeDue(limit: int, now: int) returns (finalized: nat, revokedKeys: nat, ghost gone: set<UpstreamId>)
      requires Inv(db)
      modifies this
      ensures Purging(old(db), db, gone, DueIds(old(db), now), now)
      ensures var due, most := |DueIds(old(db), now)|, if limit < 1 then 100 else limit;
        finalized == |gone| == if due <= most then due else most
      ensures revokedKeys == |old(db).keys| - |db.keys|
    {
      var most := if limit < 1 then 100 else limit;
      finalized, revokedKeys, gone := 0, 0, {};
      ghost var first, all := db, DueIds(db, now);
      PurgingStarts(db, now);
      while finalized < most && DueIds(db, now) != {}
        invariant Purging(first, db, gone, all, now)
        invariant |gone| == finalized <= most
        invariant revokedKeys == |first.keys| - |db.keys|
        decreases most - finalized
      {
        var removed;
        removed, gone := PurgeNext(now, first, gone, all);
        finalized, revokedKeys := finalized + 1, revokedKeys + removed;
      }
      PurgingCount(first, db, gone, all, now, most);
    }

    method PurgeNext(now: int, ghost first: Db, ghost gone: set<UpstreamId>, ghost all: set<UpstreamId>)
      returns (removed: nat, ghost gone': set<UpstreamId>)
      requires Purging(first, db, gone, all, now) && DueIds(db, now) != {}
      modifies this
      ensures Purging(first, db, gone', all, now) && |gone'| == |gone| + 1
      ensures removed == |old(db).keys| - |db.keys|
    {
      ghost var before := db;
      var id;
      id, removed := PurgeEarliest(now);
      gone' := gone + {id};
      PurgeOneMore(first, before, gone, id);
      EarliestStep(first, before, gone, all, now, id);
      TakeAway(all, gone, id);
    }

    /** Any number of transactions of others. */
    method Others(ghost start: Db, ghost before: seq<Step>, ghost gone: seq<UpstreamId>)
      returns (ghost steps: seq<Step>)
      requires Inv(db) && Run(start, before, db) && AllGone(db, gone)
      modifies this
      ensures Inv(db) && Run(start, steps, db) && AllGone(db, gone) && before <= steps
    {
      steps := before;
      var n: nat :| n >= 0;
      for i := 0 to n
        invariant Inv(db) && Run(start, steps, db) && AllGone(db, gone) && before <= steps
      {
        var step: Step := *;
        if Enabled(db, step) {
          RunSnoc(start, steps, db, step);
          GoneStep(db, step, gone);
          var outcome := Execute(step);
          steps := steps + [step];
        }
      }
    }

    /** The finalizer among others: between its transactions anyone may write, other finalizers
        may hold locks, and time passes.  It still never fails, purges no upstream twice, and
        what it purged stays gone. */
    method FinalizeAmongOthers(limit: int)
      returns (finalized: nat, ghost gone: seq<UpstreamId>, ghost own: seq<nat>, ghost steps: seq<Step>)
      requires Inv(db)
      modifies this
      ensures Inv(db) && Run(old(db), steps, db)
      ensures finalized == |gone| <= if limit < 1 then 100 else limit
      ensures NoDuplicates(gone) && AllGone(db, gone)
      ensures OwnWork(gone, own, steps)
    {
      var most: nat := if limit < 1 then 100 else limit;
      ghost var start := db;
      finalized, gone, own, steps := 0, [], [], [];
      while finalized < most
        invariant Inv(db) && Run(start, steps, db)
        invariant finalized == |gone| <= most && NoDuplicates(gone) && AllGone(db, gone)
        invariant OwnWork(gone, own, steps)
        decreases most - finalized
      {
        ghost var before := steps;
        steps := Others(start, steps, gone);
        OwnWorkGrows(gone, own, before, steps);
        var now: int := *;
        var locked: set<UpstreamId> := *;
        var due := DueIds(db, now) - locked;
        if due == {} {
          return;
        }
        var id := EarliestDue(due);
        OwnWorkSnoc(gone, own, steps, id, now);
        own := own + [|steps|];
        steps := FinalizeNext(id, now, start, steps, gone);
        finalized, gone := finalized + 1, gone + [id];
      }
    }

    method FinalizeNext(id: UpstreamId, now: int, ghost start: Db, ghost before: seq<Step>, ghost gone: seq<UpstreamId>)
      returns (ghost steps: seq<Step>)
      requires Inv(db) && Run(start, before, db) && id in DueIds(db, now)
      requires NoDuplicates(gone) && AllGone(db, gone)
      modifies this
      ensures Inv(db) && Run(start, steps, db) && steps == before + [Finalize(id, now)]
      ensures NoDuplicates(gone + [id]) && AllGone(db, gone + [id])
    {
      FinalizeNeverFails(db, id);
      RunSnoc(start, before, db, Finalize(id, now));
      GoneStep(db, Finalize(id, now), gone);
      steps := before + [Finalize(id, now)];
      var outcome := Execute(Finalize(id, now));
      assert forall i :: 0 <= i < |gone| ==> gone[i] in gone;
    }
  }

  /** The upstreams `ids` existed once and are gone for good. */
  ghost predicate AllGone(db: Db, ids: seq<UpstreamId>) {
    forall u <- ids :: u in db.usedUpstreams && u !in db.upstreams
  }

  /** Each of `gone` was purged by a step of its own, the one at the place that `own` tells. */
  ghost predicate OwnWork(gone: seq<UpstreamId>, own: seq<nat>, steps: seq<Step>) {
    && |own| == |gone|
    && (forall i :: 0 <= i < |own| ==> own[i] < |steps| && steps[own[i]].Finalize? && steps[own[i]].id == gone[i])
    && (forall i, j :: 0 <= i < j < |own| ==> own[i] < own[j])
  }

  lemma {:induction false} OwnWorkGrows(gone: seq<UpstreamId>, own: seq<nat>, steps: seq<Step>, more: seq<Step>)
    requires OwnWork(gone, own, steps) && steps <= more
    ensures OwnWork(gone, own, more)
  {
  }

  lemma {:induction false} OwnWorkSnoc(gone: seq<UpstreamId>, own: seq<nat>, steps: seq<Step>, id: UpstreamId, now: int)
    requires OwnWork(gone, own, steps)
    ensures OwnWork(gone + [id], own + [|steps|], steps + [Finalize(id, now)])
  {
  }

  lemma {:induction false} GoneStep(db: Db, step: Step, ids: seq<UpstreamId>)
    requires Inv(db) && Enabled(db, step) && AllGone(db, ids)
    ensures AllGone(Next(db, step), ids)
  {
    forall u | u in ids
      ensures u in Next(db, step).usedUpstreams && u !in Next(db, step).upstreams
    {
      DeletingIsTerminalStep(db, step, u);
    }
  }

  lemma {:induction false} RunSnoc(db: Db, steps: seq<Step>, m: Db, step: Step)
    requires Run(db, steps, m) && Enabled(m, step)
    ensures Run(db, steps + [step], Next(m, step))
    decreases |steps|
  {
    var more := steps + [step];
    if steps == [] {
      assert more[0] == step && more[1..] == [];
    } else {
      RunSnoc(Next(db, steps[0]), steps[1..], m, step);
      assert more[0] == steps[0] && more[1..] == steps[1..] + [step];
    }
  }

  lemma {:induction false} PurgingCount(first: Db, db: Db, gone: set<UpstreamId>, all: set<UpstreamId>, now: int,
                                        most: nat)
    requires Purging(first, db, gone, all, now) && |gone| <= most && (|gone| == most || DueIds(db, now) == {})
    ensures |gone| == if |all| <= most then |all| else most
  {
    PurgedCount(all, gone, most);
  }

  lemma {:induction false} PurgedCount<T>(all: set<T>, gone: set<T>, most: nat)
    requires gone <= all && |gone| <= most && (|gone| == most || all - gone == {})
    ensures |gone| == if |all| <= most then |all| else most
  {
    SubsetSize(gone, all);
    assert forall x <- all :: x !in gone ==> x in all - gone;
    if all <= gone {
      SubsetSize(all, gone);
    }
  }

  lemma {:induction false} TakeAway<T>(all: set<T>, gone: set<T>, x: T)
    requires gone <= all && x in all - gone
    ensures (all - gone) - {x} == all - (gone + {x})
    ensures gone + {x} <= all && |gone + {x}| == |gone| + 1
  {
  }
}

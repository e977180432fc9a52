/**
 * The `person` table and the queries over it: `read`, `create`, `update`,
 * `upsert`, the row written by `delete_account`, the username check and the
 * ActivityPub actor lookups. A table is a map from id to row; the current time
 * and the next value of the id sequence are parameters.
 */
module PersonStore {
  import opened Types
  import opened Lowering

  type PersonTable = map<PersonId, Person>

  /** Every row sits under its own id, every id came from the sequence before
      `next`, and `ap_id` is unique (the conflict target of `upsert`). */
  predicate WellFormed(t: PersonTable, next: PersonId) {
    && (forall id :: id in t ==> t[id].id == id && id < next)
    && (forall i, j :: i in t && j in t && t[i].apId == t[j].apId ==> i == j)
  }

  predicate ApIdTaken(t: PersonTable, apId: string) {
    exists id :: id in t && t[id].apId == apId
  }

  /** The ids of the rows carrying `apId`. */
  function RowsWithApId(t: PersonTable, apId: string): set<PersonId> {
    set id | id in t && t[id].apId == apId
  }

  predicate IsLeast(m: nat, ids: set<nat>) {
    m in ids && forall i :: i in ids ==> m <= i
  }

  lemma {:induction false} LeastExists(ids: set<nat>)
    requires ids != {}
    ensures exists m :: IsLeast(m, ids)
  {
    var x :| x in ids;
    var rest := ids - {x};
    if rest == {} {
      assert ids == {x};
      assert IsLeast(x, ids);
    } else {
      LeastExists(rest);
      var m :| IsLeast(m, rest);
      var least := if x < m then x else m;
      forall i | i in ids ensures least <= i {
        if i != x {
          assert i in rest;
        }
      }
      assert IsLeast(least, ids);
    }
  }

  function LeastId(ids: set<PersonId>): (m: PersonId)
    requires ids != {}
    ensures m in ids && forall i :: i in ids ==> m <= i
  {
    LeastExists(ids);
    var m :| IsLeast(m, ids); m
  }

  /** `first()` on a query without ORDER BY: some matching row, or none. The
      database leaves the choice open; the model takes the least id. */
  function First(t: PersonTable, ids: set<PersonId>): (r: Option<Person>)
    requires ids <= t.Keys
    ensures r.None? <==> ids == {}
    ensures r.Some? ==> exists id :: id in ids && t[id] == r.value
  {
    if ids == {} then None else Some(t[LeastId(ids)])
  }

  /** `read`: a soft-deleted row is not found. */
  function Read(t: PersonTable, id: PersonId): (r: Result<Person>)
    ensures r.Ok? <==> id in t && !t[id].deleted
    ensures r.Ok? ==> r.value == t[id]
    ensures r.Err? ==> r.error == NotFound
  {
    if id in t && !t[id].deleted then Ok(t[id]) else Err(NotFound)
  }

  /** The row `create` or the insert branch of `upsert` writes: the form's
      columns, the database defaults for the rest. */
  function NewRow(form: PersonInsertForm, id: PersonId, now: Timestamp): (p: Person)
    ensures p.id == id && p.apId == form.apId && p.name == form.name
    ensures p.local == form.local && p.instanceId == form.instanceId
    ensures p.displayName == form.displayName && p.avatar == form.avatar && p.banner == form.banner
    ensures p.bio == form.bio && p.matrixUserId == form.matrixUserId
    ensures !p.deleted && p.updated.None? && p.published == now
    ensures p.postCount == 0 && p.postScore == 0 && p.commentCount == 0 && p.commentScore == 0
  {
    Person(id, form.name, form.displayName, form.avatar, form.banner, false, now, None,
           form.apId, form.bio, form.local, form.matrixUserId, form.instanceId, 0, 0, 0, 0)
  }

  /** `create`: insert under the next id of the sequence, or fail on the
      unique `ap_id`. */
  function Create(t: PersonTable, form: PersonInsertForm, freshId: PersonId, now: Timestamp): (r: Result<Person>)
    ensures r.Err? <==> ApIdTaken(t, form.apId)
    ensures r.Err? ==> r.error == UniqueViolation
    ensures r.Ok? ==> r.value == NewRow(form, freshId, now)
    ensures r.Ok? ==> r.value.id == freshId && r.value.apId == form.apId && !r.value.deleted
  {
    if ApIdTaken(t, form.apId) then Err(UniqueViolation) else Ok(NewRow(form, freshId, now))
  }

  function SetOr<T>(given: Option<T>, stored: T): T {
    if given.Some? then given.value else stored
  }

  /** The columns of an update form that are present overwrite the row. */
  function ApplyUpdate(p: Person, f: PersonUpdateForm): (q: Person)
    ensures q.id == p.id && q.name == p.name && q.published == p.published
    ensures q.instanceId == p.instanceId
    ensures q.postCount == p.postCount && q.postScore == p.postScore
    ensures q.commentCount == p.commentCount && q.commentScore == p.commentScore
    ensures f.apId.Some? ==> q.apId == f.apId.value
    ensures f.apId.None? ==> q.apId == p.apId
    ensures f.deleted.Some? ==> q.deleted == f.deleted.value
    ensures f.deleted.None? ==> q.deleted == p.deleted
    ensures f.displayName.Some? ==> q.displayName == f.displayName.value
    ensures f.displayName.None? ==> q.displayName == p.displayName
    ensures f.local.Some? ==> q.local == f.local.value
    ensures f.local.None? ==> q.local == p.local
    ensures f.avatar.Some? ==> q.avatar == f.avatar.value
    ensures f.avatar.None? ==> q.avatar == p.avatar
    ensures f.banner.Some? ==> q.banner == f.banner.value
    ensures f.banner.None? ==> q.banner == p.banner
    ensures f.bio.Some? ==> q.bio == f.bio.value
    ensures f.bio.None? ==> q.bio == p.bio
    ensures f.matrixUserId.Some? ==> q.matrixUserId == f.matrixUserId.value
    ensures f.matrixUserId.None? ==> q.matrixUserId == p.matrixUserId
    ensures f.updated.Some? ==> q.updated == f.updated.value
    ensures f.updated.None? ==> q.updated == p.updated
  {
    p.(apId := SetOr(f.apId, p.apId),
       local := SetOr(f.local, p.local),
       deleted := SetOr(f.deleted, p.deleted),
       displayName := SetOr(f.displayName, p.displayName),
       avatar := SetOr(f.avatar, p.avatar),
       banner := SetOr(f.banner, p.banner),
       bio := SetOr(f.bio, p.bio),
       matrixUserId := SetOr(f.matrixUserId, p.matrixUserId),
       updated := SetOr(f.updated, p.updated))
  }

  /** `update`: finds the row by id whether or not it is deleted. */
  function Update(t: PersonTable, id: PersonId, f: PersonUpdateForm): (r: Result<Person>)
    ensures id !in t ==> r == Err(NotFound)
    ensures r.Err? && id in t ==> r.error == UniqueViolation
    ensures id in t ==> (r.Err? <==> f.apId.Some? && exists j :: j in t && j != id && t[j].apId == f.apId.value)
    ensures r.Ok? ==> id in t && r.value == ApplyUpdate(t[id], f)
  {
    if id !in t then Err(NotFound)
    else if f.apId.Some? && exists j :: j in t && j != id && t[j].apId == f.apId.value then Err(UniqueViolation)
    else Ok(ApplyUpdate(t[id], f))
  }

  /** On conflict the insert form is applied as a changeset: its plain columns
      overwrite the row, its absent optional columns leave the row's values. */
  function Overwrite(p: Person, form: PersonInsertForm): (q: Person)
    requires p.apId == form.apId
    ensures q.id == p.id && q.apId == p.apId && q.published == p.published
    ensures q.deleted == p.deleted && q.updated == p.updated
    ensures q.postCount == p.postCount && q.postScore == p.postScore
    ensures q.commentCount == p.commentCount && q.commentScore == p.commentScore
    ensures q.name == form.name && q.local == form.local && q.instanceId == form.instanceId
    ensures form.displayName.Some? ==> q.displayName == form.displayName
    ensures form.displayName.None? ==> q.displayName == p.displayName
    ensures form.avatar.Some? ==> q.avatar == form.avatar
    ensures form.avatar.None? ==> q.avatar == p.avatar
    ensures form.banner.Some? ==> q.banner == form.banner
    ensures form.banner.None? ==> q.banner == p.banner
    ensures form.bio.Some? ==> q.bio == form.bio
    ensures form.bio.None? ==> q.bio == p.bio
    ensures form.matrixUserId.Some? ==> q.matrixUserId == form.matrixUserId
    ensures form.matrixUserId.None? ==> q.matrixUserId == p.matrixUserId
  {
    p.(name := form.name,
       local := form.local,
       instanceId := form.instanceId,
       displayName := if form.displayName.Some? then form.displayName else p.displayName,
       avatar := if form.avatar.Some? then form.avatar else p.avatar,
       banner := if form.banner.Some? then form.banner else p.banner,
       bio := if form.bio.Some? then form.bio else p.bio,
       matrixUserId := if form.matrixUserId.Some? then form.matrixUserId else p.matrixUserId)
  }

  /** The key `upsert` writes under: the row that already carries `apId`, or
      the next id of the sequence. */
  function UpsertKey(t: PersonTable, apId: string, freshId: PersonId): (k: PersonId)
    ensures ApIdTaken(t, apId) ==> k in t && t[k].apId == apId
    ensures !ApIdTaken(t, apId) ==> k == freshId
  {
    var ids := RowsWithApId(t, apId);
    assert ApIdTaken(t, apId) ==> ids != {} by {
      if ApIdTaken(t, apId) {
        var id :| id in t && t[id].apId == apId;
        assert id in ids;
      }
    }
    if ids != {} then
      var id := LeastId(ids);
      assert id in t && t[id].apId == apId;
      id
    else
      freshId
  }

  /** The row `upsert` leaves under that key: the existing row overwritten by
      the form, or a fresh row. */
  function UpsertRow(t: PersonTable, form: PersonInsertForm, freshId: PersonId, now: Timestamp): (p: Person)
    ensures p.apId == form.apId
  {
    var k := UpsertKey(t, form.apId, freshId);
    if ApIdTaken(t, form.apId) then Overwrite(t[k], form) else NewRow(form, k, now)
  }

  /** The table after `upsert`. */
  function Upsert(t: PersonTable, form: PersonInsertForm, freshId: PersonId, now: Timestamp): (t': PersonTable)
    requires freshId !in t
    ensures ApIdTaken(t, form.apId) ==> t'.Keys == t.Keys
    ensures !ApIdTaken(t, form.apId) ==> t'.Keys == t.Keys + {freshId}
    ensures forall id :: id in t && t[id].apId != form.apId ==> id in t' && t'[id] == t[id]
  {
    t[UpsertKey(t, form.apId, freshId) := UpsertRow(t, form, freshId, now)]
  }

  /** The person row after `delete_account`: the profile is scrubbed, the
      row is marked deleted and stamped. */
  function Scrub(p: Person, now: Timestamp): (q: Person)
    ensures q.displayName.None? && q.avatar.None? && q.banner.None?
    ensures q.bio.None? && q.matrixUserId.None?
    ensures q.deleted && q.updated == Some(now)
    ensures q.id == p.id && q.name == p.name && q.apId == p.apId && q.local == p.local
    ensures q.published == p.published && q.instanceId == p.instanceId
    ensures q.postCount == p.postCount && q.postScore == p.postScore
    ensures q.commentCount == p.commentCount && q.commentScore == p.commentScore
  {
    p.(displayName := None, avatar := None, banner := None, bio := None,
       matrixUserId := None, deleted := true, updated := Some(now))
  }

  /** The second statement of `delete_account`: fails when the row is absent. */
  function DeleteAccount(t: PersonTable, id: PersonId, now: Timestamp): (r: Result<Person>)
    ensures r.Ok? <==> id in t
    ensures r.Err? ==> r.error == NotFound
    ensures r.Ok? ==> r.value == Scrub(t[id], now)
  {
    if id in t then Ok(Scrub(t[id], now)) else Err(NotFound)
  }

  /** The first statement of `delete_account`: every local user of the person
      loses its email; every other local user is untouched. */
  function ClearEmails(users: map<LocalUserId, LocalUser>, id: PersonId): (r: map<LocalUserId, LocalUser>)
    ensures r.Keys == users.Keys
    ensures forall u :: u in r ==> r[u].personId == users[u].personId
    ensures forall u :: u in r && users[u].personId == id ==> r[u].email.None?
    ensures forall u :: u in r && users[u].personId != id ==> r[u] == users[u]
  {
    map u | u in users :: if users[u].personId == id then users[u].(email := None) else users[u]
  }

  predicate LocalNamed(p: Person, name: string) {
    p.local && SameName(p.name, name)
  }

  /** `check_username_taken`: only a local person blocks a name, compared
      case-insensitively. */
  function CheckUsernameTaken(t: PersonTable, username: string): (r: Result<()>)
    ensures r.Ok? <==> forall id :: id in t ==> !LocalNamed(t[id], username)
    ensures r.Err? ==> r.error == UsernameAlreadyExists
  {
    if exists id :: id in t && LocalNamed(t[id], username) then Err(UsernameAlreadyExists) else Ok(())
  }

  /** `read_from_apub_id`: a live row with that `ap_id`, if any. */
  function ReadFromApId(t: PersonTable, apId: string): (r: Option<Person>)
    ensures r.Some? <==> exists id :: id in t && !t[id].deleted && t[id].apId == apId
    ensures r.Some? ==> r.value in t.Values && !r.value.deleted && r.value.apId == apId
  {
    var ids := set id | id in t && !t[id].deleted && t[id].apId == apId;
    assert forall id :: id in t && !t[id].deleted && t[id].apId == apId ==> id in ids;
    First(t, ids)
  }

  /** `read_from_name`: a local row with that name in any case; deleted rows
      only when asked for. */
  function ReadFromName(t: PersonTable, name: string, includeDeleted: bool): (r: Option<Person>)
    ensures r.Some? <==> exists id :: id in t && LocalNamed(t[id], name) && (includeDeleted || !t[id].deleted)
    ensures r.Some? ==> r.value in t.Values && LocalNamed(r.value, name)
    ensures r.Some? && !includeDeleted ==> !r.value.deleted
  {
    var ids := set id | id in t && LocalNamed(t[id], name) && (includeDeleted || !t[id].deleted);
    assert forall id :: id in t && LocalNamed(t[id], name) && (includeDeleted || !t[id].deleted) ==> id in ids;
    First(t, ids)
  }

  /** `read_from_name_and_domain`: the person joined to its instance, name and
      domain both compared case-insensitively, deleted and remote rows included. */
  function ReadFromNameAndDomain(t: PersonTable, instances: map<InstanceId, string>, name: string, domain: string): (r: Option<Person>)
    ensures r.Some? <==> exists id :: id in t && t[id].instanceId in instances
                          && SameName(t[id].name, name) && SameName(instances[t[id].instanceId], domain)
    ensures r.Some? ==> r.value in t.Values && r.value.instanceId in instances
                        && SameName(r.value.name, name) && SameName(instances[r.value.instanceId], domain)
  {
    var ids := set id | id in t && t[id].instanceId in instances
                        && SameName(t[id].name, name) && SameName(instances[t[id].instanceId], domain);
    assert forall id :: (id in t && t[id].instanceId in instances
                         && SameName(t[id].name, name) && SameName(instances[t[id].instanceId], domain)) ==> id in ids;
    First(t, ids)
  }

  /** `local_url` before URL parsing: the profile path under the instance's
      protocol and host name. */
  function LocalUrl(domain: string, name: string): (u: string)
    ensures |u| == |domain| + 3 + |name|
    ensures u[..|domain|] == domain && u[|domain|..|domain| + 3] == "/u/" && u[|domain| + 3..] == name
  {
    domain + "/u/" + name
  }

  // ---------------------------------------------------------------------------
  // Properties

  /** `create` then `read` gives back the inserted row, live, with zero
      counters, and the table stays well formed. */
  lemma CreateThenRead(t: PersonTable, next: PersonId, form: PersonInsertForm, now: Timestamp)
    requires WellFormed(t, next) && !ApIdTaken(t, form.apId)
    ensures Create(t, form, next, now).Ok?
    ensures var p := Create(t, form, next, now).value;
      && Read(t[next := p], next) == Ok(p)
      && p.name == form.name && p.local == form.local && p.displayName == form.displayName
      && p.postCount == 0 && p.commentCount == 0
      && WellFormed(t[next := p], next + 1)
  {
  }

  /** After `upsert` exactly one row carries the form's `ap_id`: the old row,
      keeping its id, overwritten by the form, or a new row under the next id. */
  lemma UpsertLeavesOneRow(t: PersonTable, next: PersonId, form: PersonInsertForm, now: Timestamp)
    requires WellFormed(t, next)
    ensures var k := UpsertKey(t, form.apId, next);
      var t' := Upsert(t, form, next, now);
      && RowsWithApId(t', form.apId) == {k}
      && |RowsWithApId(t', form.apId)| == 1
      && t'[k].id == k
      && (ApIdTaken(t, form.apId) ==> t'[k] == Overwrite(t[k], form))
      && (!ApIdTaken(t, form.apId) ==> k == next && t'[k] == NewRow(form, next, now))
  {
  }

  /** `upsert` keeps ids and `ap_id` unique; the sequence has moved past the
      value it handed out, whichever branch ran. */
  lemma UpsertKeepsWellFormed(t: PersonTable, next: PersonId, form: PersonInsertForm, now: Timestamp)
    requires WellFormed(t, next)
    ensures WellFormed(Upsert(t, form, next, now), next + 1)
  {
  }

  /** A second snapshot with the same `ap_id` lands in the same row and wins:
      its name, and its display name when it carries one. */
  lemma UpsertTwiceOverwrites(t: PersonTable, next: PersonId, f1: PersonInsertForm, f2: PersonInsertForm, now1: Timestamp, now2: Timestamp)
    requires WellFormed(t, next) && f1.apId == f2.apId
    ensures var k := UpsertKey(t, f1.apId, next);
      var next1 := next + 1;
      var t1 := Upsert(t, f1, next, now1);
      var t2 := Upsert(t1, f2, next1, now2);
      && RowsWithApId(t2, f2.apId) == {k}
      && t2.Keys == t1.Keys
      && t2[k].name == f2.name
      && (f2.displayName.Some? ==> t2[k].displayName == f2.displayName)
      && (f2.displayName.None? ==> t2[k].displayName == t1[k].displayName)
  {
  }

  /** An upsert whose form matches the row already stored under its `ap_id`
      writes nothing new. */
  lemma UpsertOfStoredRow(t: PersonTable, next: PersonId, form: PersonInsertForm, now: Timestamp)
    requires WellFormed(t, next) && ApIdTaken(t, form.apId)
    requires var k := UpsertKey(t, form.apId, next); Overwrite(t[k], form) == t[k]
    ensures Upsert(t, form, next, now) == t
  {
  }

  /** Receiving the same snapshot twice changes nothing the second time. */
  lemma UpsertIdempotent(t: PersonTable, next: PersonId, form: PersonInsertForm, now: Timestamp, later: Timestamp)
    requires WellFormed(t, next)
    ensures var next1 := next + 1;
      var t1 := Upsert(t, form, next, now);
      next1 !in t1 && Upsert(t1, form, next1, later) == t1
  {
  }

  /** An update that only restates the row's own `ap_id` returns the row as it
      was. */
  lemma UpdateSameApIdKeepsRow(t: PersonTable, next: PersonId, id: PersonId)
    requires WellFormed(t, next) && id in t
    ensures Update(t, id, PersonUpdateForm(Some(t[id].apId), None, None, None, None, None, None, None, None)) == Ok(t[id])
  {
  }

  /** A successful `update` keeps `ap_id` unique. */
  lemma UpdateKeepsWellFormed(t: PersonTable, next: PersonId, id: PersonId, f: PersonUpdateForm)
    requires WellFormed(t, next)
    ensures var r := Update(t, id, f);
      r.Ok? ==> WellFormed(t[id := r.value], next)
  {
  }

  /** After `delete_account` the row is still there, scrubbed, but `read` and
      `read_from_apub_id` no longer see it; `read_from_name` with deleted rows
      included still finds a local person by that name. */
  lemma DeleteAccountHides(t: PersonTable, next: PersonId, id: PersonId, now: Timestamp)
    requires WellFormed(t, next) && id in t
    ensures var t' := t[id := DeleteAccount(t, id, now).value];
      && id in t' && t'[id].deleted
      && Read(t', id) == Err(NotFound)
      && ReadFromApId(t', t[id].apId) == None
      && (t[id].local ==> ReadFromName(t', t[id].name, true).Some?)
      && WellFormed(t', next)
      && (forall j :: j in t && j != id ==> j in t' && t'[j] == t[j])
  {
  }

  /** The availability check fails exactly when the privileged name lookup
      (deleted rows included) finds someone. */
  lemma UsernameTakenIffFoundByName(t: PersonTable, username: string)
    ensures CheckUsernameTaken(t, username).Err? <==> ReadFromName(t, username, true).Some?
  {
  }

  /** The check lowers its argument, so a caller that lowers the name first
      gets the same answer. */
  lemma CheckIgnoresArgumentCase(t: PersonTable, username: string)
    ensures CheckUsernameTaken(t, Lower(username)) == CheckUsernameTaken(t, username)
  {
  }

  /** Creating a local person makes the name unavailable in every spelling;
      a remote person with the same name does not. */
  lemma CreateLocalBlocksName(t: PersonTable, next: PersonId, form: PersonInsertForm, now: Timestamp, username: string)
    requires WellFormed(t, next) && !ApIdTaken(t, form.apId)
    requires SameName(form.name, username)
    requires CheckUsernameTaken(t, username).Ok?
    ensures var t' := t[next := Create(t, form, next, now).value];
      CheckUsernameTaken(t', username) == if form.local then Err(UsernameAlreadyExists) else Ok(())
  {
    var t' := t[next := Create(t, form, next, now).value];
    if form.local {
      assert LocalNamed(t'[next], username);
    } else {
      forall id | id in t' ensures !LocalNamed(t'[id], username) {
        if id != next {
          assert t'[id] == t[id];
        }
      }
    }
  }

  /** The test scenario: no local "alice" yet, then a local "alice" is created
      and "Alice" is refused. */
  lemma AliceScenario(t: PersonTable, next: PersonId, form: PersonInsertForm, now: Timestamp)
    requires WellFormed(t, next) && !ApIdTaken(t, form.apId)
    requires form.name == "alice" && form.local
    requires forall id :: id in t ==> !t[id].local || !SameName(t[id].name, "Alice")
    ensures CheckUsernameTaken(t, "Alice") == Ok(())
    ensures CheckUsernameTaken(t[next := Create(t, form, next, now).value], "Alice") == Err(UsernameAlreadyExists)
  {
    AliceSpellings();
    CreateLocalBlocksName(t, next, form, now, "Alice");
  }

  /** With `ap_id` unique, `read_from_apub_id` is deterministic: it returns the
      one live row with that id. */
  lemma ReadFromApIdFindsRow(t: PersonTable, next: PersonId, id: PersonId)
    requires WellFormed(t, next) && id in t && !t[id].deleted
    ensures ReadFromApId(t, t[id].apId) == Some(t[id])
  {
  }

  /** Different names give different profile URLs on one instance. */
  lemma LocalUrlInjective(domain: string, a: string, b: string)
    requires LocalUrl(domain, a) == LocalUrl(domain, b)
    ensures a == b
  {
  }
}

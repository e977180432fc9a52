/**
 * The tables the Person layer writes, held as the fields of one object, and
 * the statements that change them: `create`, `update`, `upsert`,
 * `delete_account`, `follow` and `unfollow`. Each method's postcondition ties
 * the new tables to the pure definitions in PersonStore and Follows, where
 * the properties are proved.
 */
module Database {
  import opened Types
  import opened PersonStore
  import opened Follows

  class Db {
    var person: PersonTable
    var personActions: EdgeTable
    var localUser: map<LocalUserId, LocalUser>
    var instance: map<InstanceId, string>
    /** The next value of the `person.id` sequence. */
    var nextPersonId: PersonId

    ghost predicate Valid()
      reads this
    {
      WellFormed(person, nextPersonId) && EdgesConsistent(personActions)
    }

    constructor (instances: map<InstanceId, string>, users: map<LocalUserId, LocalUser>)
      ensures Valid()
      ensures person == map[] && personActions == map[]
      ensures localUser == users && instance == instances
    {
      person := map[];
      personActions := map[];
      localUser := users;
      instance := instances;
      nextPersonId := 0;
    }

    method Create(form: PersonInsertForm, now: Timestamp) returns (r: Result<Person>)
      requires Valid()
      modifies this`person, this`nextPersonId
      ensures Valid()
      ensures r == PersonStore.Create(old(person), form, old(nextPersonId), now)
      ensures r.Ok? ==> person == old(person)[r.value.id := r.value]
      ensures r.Err? ==> person == old(person)
      ensures nextPersonId == old(nextPersonId) + 1
    {
      // The id default is drawn from the sequence before the conflict check.
      var id := nextPersonId;
      nextPersonId := nextPersonId + 1;
      if exists j :: j in person && person[j].apId == form.apId {
        return Err(UniqueViolation);
      }
      var row := NewRow(form, id, now);
      person := person[id := row];
      r := Ok(row);
    }

    method Update(id: PersonId, form: PersonUpdateForm) returns (r: Result<Person>)
      requires Valid()
      modifies this`person
      ensures Valid()
      ensures r == PersonStore.Update(old(person), id, form)
      ensures r.Ok? ==> person == old(person)[id := r.value]
      ensures r.Err? ==> person == old(person)
    {
      if id !in person {
        return Err(NotFound);
      }
      if form.apId.Some? && exists j :: j in person && j != id && person[j].apId == form.apId.value {
        return Err(UniqueViolation);
      }
      UpdateKeepsWellFormed(person, nextPersonId, id, form);
      var row := ApplyUpdate(person[id], form);
      person := person[id := row];
      r := Ok(row);
    }

    /** Insert, or overwrite the row that already has the form's `ap_id`. */
    method Upsert(form: PersonInsertForm, now: Timestamp) returns (r: Person)
      requires Valid()
      modifies this`person, this`nextPersonId
      ensures Valid()
      ensures person == PersonStore.Upsert(old(person), form, old(nextPersonId), now)
      ensures r == UpsertRow(old(person), form, old(nextPersonId), now)
      ensures nextPersonId == old(nextPersonId) + 1
    {
      UpsertKeepsWellFormed(person, nextPersonId, form, now);
      var newId := nextPersonId;
      nextPersonId := nextPersonId + 1;
      var key: PersonId;
      if exists id :: id in person && person[id].apId == form.apId {
        var id :| id in person && person[id].apId == form.apId;
        key, r := id, Overwrite(person[id], form);
      } else {
        key, r := newId, NewRow(form, newId, now);
      }
      person := person[key := r];
    }

    /** Two statements: clear the emails of the person's local users, then
        scrub and mark the person row; the second fails when the row is
        missing, after the first has run. */
    method DeleteAccount(id: PersonId, now: Timestamp) returns (r: Result<Person>)
      requires Valid()
      modifies this`localUser, this`person
      ensures Valid()
      ensures localUser == ClearEmails(old(localUser), id)
      ensures r == PersonStore.DeleteAccount(old(person), id, now)
      ensures r.Ok? ==> person == old(person)[id := r.value]
      ensures r.Err? ==> person == old(person)
      ensures Read(person, id) == Err(NotFound)
    {
      localUser := map u | u in localUser ::
        if localUser[u].personId == id then localUser[u].(email := None) else localUser[u];
      if id !in person {
        return Err(NotFound);
      }
      DeleteAccountHides(person, nextPersonId, id, now);
      var row := person[id].(displayName := None, avatar := None, banner := None, bio := None,
                             matrixUserId := None, deleted := true, updated := Some(now));
      person := person[id := row];
      r := Ok(row);
    }

    method Follow(form: PersonFollowerForm, now: Timestamp) returns (r: PersonFollower)
      requires Valid()
      modifies this`personActions
      ensures Valid()
      ensures personActions == Follows.Follow(old(personActions), form, now)
      ensures r == AsFollower(KeyOf(form), personActions[KeyOf(form)])
      ensures r.personId == form.personId && r.followerId == form.followerId
      ensures r.pending == form.pending && r.published == now
    {
      var key := EdgeKey(form.followerId, form.personId);
      personActions := personActions[key := PersonActions(Some(now), Some(form.pending))];
      r := PersonFollower(form.personId, form.followerId, now, form.pending);
    }

    method Unfollow(form: PersonFollowerForm) returns (count: nat)
      requires Valid()
      modifies this`personActions
      ensures Valid()
      ensures personActions == Follows.Unfollow(old(personActions), form)
      ensures count == UnfollowCount(old(personActions), form)
    {
      var key := EdgeKey(form.followerId, form.personId);
      count := 0;
      if key in personActions {
        if personActions[key].followed.Some? {
          count := 1;
        }
        personActions := personActions[key := personActions[key].(followed := None, followPending := None)];
      }
    }
  }

  /** The follow test run against a fresh store: two local persons, the
      second follows the first, the first's followers are exactly the
      second, and unfollowing reports one row. */
  method FollowTest(now: Timestamp) returns (p1: Person, p2: Person, edge: PersonFollower, followers: set<Person>, count: nat, after: set<Person>)
    ensures p1.name == "erich" && p2.name == "michele" && p1.id != p2.id
    ensures edge.personId == p1.id && edge.followerId == p2.id && !edge.pending
    ensures followers == {p2} && count == 1 && after == {}
  {
    var db := new Db(map[0 := "my_domain.tld"], map[]);
    var form1 := PersonInsertForm("erich", "https://my_domain.tld/u/erich", true, 0, None, None, None, None, None);
    var form2 := PersonInsertForm("michele", "https://my_domain.tld/u/michele", true, 0, None, None, None, None, None);
    var r1 := db.Create(form1, now);
    assert !ApIdTaken(db.person, form2.apId);
    var r2 := db.Create(form2, now);
    p1, p2 := r1.value, r2.value;
    var follow := PersonFollowerForm(p1.id, p2.id, false);
    edge := db.Follow(follow, now);
    FollowScenario(db.person, db.nextPersonId, p1.id, p2.id, now);
    followers := ListFollowers(db.person, db.personActions, p1.id);
    count := db.Unfollow(follow);
    after := ListFollowers(db.person, db.personActions, p1.id);
  }

  /** The CRUD test: a created person reads back unchanged, and an update
      that only restates its `ap_id` returns the same row. */
  method CrudTest(now: Timestamp) returns (inserted: Person, read: Result<Person>, updated: Result<Person>)
    ensures read == Ok(inserted) && updated == Ok(inserted)
    ensures !inserted.deleted && inserted.name == "holly" && inserted.local
    ensures inserted.postCount == 0 && inserted.postScore == 0
    ensures inserted.commentCount == 0 && inserted.commentScore == 0
  {
    var db := new Db(map[0 := "my_domain.tld"], map[]);
    var form := PersonInsertForm("holly", "https://my_domain.tld/u/holly", true, 0, None, None, None, None, None);
    var created := db.Create(form, now);
    inserted := created.value;
    read := Read(db.person, inserted.id);
    UpdateSameApIdKeepsRow(db.person, db.nextPersonId, inserted.id);
    updated := db.Update(inserted.id, PersonUpdateForm(Some(inserted.apId), None, None, None, None, None, None, None, None));
  }
}

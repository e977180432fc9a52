# Person data-access layer, modelled in Dafny

This project models the Person data-access layer of a federated link aggregator
(`crates/db_schema/src/impls/person.rs`). That layer reads and writes the
`person` table, the follow columns of `person_actions`, the `email` column of
`local_user`, and it joins against `instance`, `post`, `comment` and
`community`. Each query is modelled by what it means for tables held in
memory. A table is a Dafny `map` from key to row.

- `types.dfy` (module `Types`): the rows, the insert, update and follow forms,
  and the errors (`NotFound`, `UniqueViolation`, `UsernameAlreadyExists`).
- `lowering.dfy` (module `Lowering`): the case folding used for name
  comparisons, modelled as ASCII lowering.
- `person_store.dfy` (module `PersonStore`): `read`, `create`, `update` and
  `upsert` (insert-or-overwrite keyed on `ap_id`). Also the row that
  `delete_account` writes, `check_username_taken`, and the three ActivityPub
  actor lookups. All are pure functions of the `person` table, with lemmas
  about them.
- `follows.dfy` (module `Follows`): `follow`, `follow_accepted`, `unfollow`
  and `list_followers` over the follow edges.
- `local_communities.dfy` (module `LocalCommunities`):
  `list_local_community_ids` as the union of its two joins.
- `database.dfy` (module `Database`): class `Db` holds the tables as fields.
  Its methods carry out the writes in place: `Create`, `Update`, `Upsert`,
  `DeleteAccount`, `Follow` and `Unfollow`. Each method's postcondition gives
  the new tables in terms of the pure definitions. Each method also keeps the
  invariant `Valid()`:
  - every row is stored under its own id;
  - ids come from a sequence;
  - `ap_id` is unique;
  - each follow edge has both of its follow columns set or both NULL.

  The module also replays the file's two database tests, `test_crud` and
  `follow`, as methods.

The current time (`now()` / `Utc::now()`) and the next value of the
`person.id` sequence are parameters. A query that ends in `first()` with no
ORDER BY may return any matching row. The model returns the row with the
least id, and its contracts promise only "some matching row".

Four points of the code shape the model:
- `delete_account` issues two separate statements with no transaction around
  them. If the person row is missing, the emails of any `local_user` rows
  with that `person_id` have already been cleared before `NotFound` is
  returned.
- The follow state is two nullable columns (`followed`, `follow_pending`).
  That each edge has both set or both NULL is proved as
  an invariant (`EdgesConsistent`) that `follow` and `unfollow` preserve.
- On an `upsert` conflict, the insert form is applied as a changeset. In the
  model the form carries `name`, `ap_id`, `local`, `instance_id` and five
  optional profile columns. `name`, `local` and `instance_id` overwrite the
  row. An optional column the form leaves as `None` keeps its stored value,
  which is the default behaviour of a changeset.
- The `person.id` default is drawn from its sequence before the unique
  `ap_id` is checked, and a sequence is never rolled back. So `create` and
  `upsert` advance the sequence on every call, including the calls that fail
  or that overwrite an existing row.

## Model

| member | source | states |
|---|---|---|
| `Lowering.Lower` | crates/db_schema/src/impls/person.rs:196-197 | lowering keeps the length and lowers each character on its own, as `lower()` on the column and `to_lowercase()` on the argument both do |
| `Lowering.AliceSpellings` | crates/db_schema/src/impls/person.rs:136-137 | "Alice", "ALICE" and "alice" are one name under the comparison; "alicia" is not |
| `PersonStore.First` | crates/db_schema/src/impls/person.rs:184 | `first()` yields nothing exactly when no row matches, otherwise one of the matching rows |
| `PersonStore.Read` | crates/db_schema/src/impls/person.rs:39-46 | `read` succeeds exactly when the row exists and is not deleted, and then returns that row; otherwise it fails with NotFound |
| `PersonStore.NewRow` | crates/db_schema/src/impls/person.rs:48-54 | an inserted row takes every column the form carries (name, ap_id, local, instance, display name, avatar, banner, bio, matrix id) under the given id; it is live, has no `updated`, is published now, and has zero counters |
| `PersonStore.Create` | crates/db_schema/src/impls/person.rs:48-54 | `create` fails with UniqueViolation exactly when the ap_id is already stored; otherwise it returns the form's new row under the fresh id |
| `PersonStore.ApplyUpdate` | crates/db_schema/src/impls/person.rs:55-65 | each of the nine columns of the update form (ap_id, local, deleted, display name, avatar, banner, bio, matrix id, updated) is overwritten when present and kept when absent; id, name, published, instance and counters never change |
| `PersonStore.Update` | crates/db_schema/src/impls/person.rs:55-65 | `update` fails with NotFound exactly when the id is missing; a deleted row is still found and updated. On a stored row it fails, with UniqueViolation, exactly when the form sets an ap_id that another row carries; otherwise it returns the updated row |
| `PersonStore.Overwrite` | crates/db_schema/src/impls/person.rs:75-81 | on conflict, the row keeps its id, ap_id, deleted flag, timestamps and counters, takes the form's name, local flag and instance, and for each of the five optional columns takes the form's value when present and keeps its own when absent |
| `PersonStore.UpsertKey` | crates/db_schema/src/impls/person.rs:75-78 | upsert writes under the row that already carries the ap_id, or else under the fresh id |
| `PersonStore.UpsertRow` | crates/db_schema/src/impls/person.rs:73-82 | the row upsert returns carries the form's ap_id |
| `PersonStore.Upsert` | crates/db_schema/src/impls/person.rs:73-82 | upsert adds a key only when the ap_id was new, and rows with other ap_ids are untouched |
| `PersonStore.CreateThenRead` | crates/db_schema/src/impls/person.rs:283-324 | after `create`, `read` of the new id returns the inserted row, live, with the form's name, local flag and display name and zero counters, and the table stays well formed |
| `PersonStore.UpsertLeavesOneRow` | crates/db_schema/src/impls/person.rs:73-82 | after upsert exactly one row carries the ap_id. It is either the old row under its old id, overwritten by the form, or a new row under the next id |
| `PersonStore.UpsertKeepsWellFormed` | crates/db_schema/src/impls/person.rs:75-78 | upsert keeps ids and ap_ids unique, with the sequence advanced by one whichever branch ran |
| `PersonStore.UpsertTwiceOverwrites` | crates/db_schema/src/impls/person.rs:69-82 | a second snapshot with the same ap_id lands in the same row and adds no row; its name wins, and so does its display name when it carries one |
| `PersonStore.UpsertOfStoredRow` | crates/db_schema/src/impls/person.rs:75-81 | an upsert whose form matches the stored row leaves the table as it was |
| `PersonStore.UpsertIdempotent` | crates/db_schema/src/impls/person.rs:69-82 | receiving the same snapshot twice changes nothing the second time |
| `PersonStore.UpdateSameApIdKeepsRow` | crates/db_schema/src/impls/person.rs:314-325 | an update that only restates the row's ap_id returns the row unchanged |
| `PersonStore.UpdateKeepsWellFormed` | crates/db_schema/src/impls/person.rs:55-65 | a successful update keeps ap_id unique |
| `PersonStore.Scrub` | crates/db_schema/src/impls/person.rs:92-103 | delete_account sets display name, avatar, banner, bio and matrix id to NULL, sets deleted, and stamps updated with now. Id, name, ap_id, local, published, instance and counters are kept |
| `PersonStore.DeleteAccount` | crates/db_schema/src/impls/person.rs:92-103 | the person statement of delete_account fails with NotFound exactly when the row is missing, and otherwise returns the scrubbed row |
| `PersonStore.ClearEmails` | crates/db_schema/src/impls/person.rs:86-90 | every local user of the person loses its email; every other local user is untouched |
| `PersonStore.DeleteAccountHides` | crates/db_schema/src/impls/person.rs:83-104 | after delete_account the row still exists and is deleted. `read` fails with NotFound and `read_from_apub_id` finds nothing. `read_from_name` with deleted rows included still finds a local person by that name. Other rows are untouched |
| `PersonStore.CheckUsernameTaken` | crates/db_schema/src/impls/person.rs:131-143 | the check succeeds exactly when no local row has the name in any case; otherwise it fails with UsernameAlreadyExists |
| `PersonStore.UsernameTakenIffFoundByName` | crates/db_schema/src/impls/person.rs:131-143 | the check fails exactly when `read_from_name`, with deleted rows included, finds someone |
| `PersonStore.CheckIgnoresArgumentCase` | crates/db_schema/src/impls/person.rs:136 | the check gives the same answer for a name and for its lowered form |
| `PersonStore.CreateLocalBlocksName` | crates/db_schema/src/impls/person.rs:134-138 | creating a local person takes the name in every spelling; creating a remote person with that name does not |
| `PersonStore.AliceScenario` | crates/db_schema/src/impls/person.rs:131-143 | with no local "alice" the name "Alice" is free; after a local "alice" is created it is refused |
| `PersonStore.ReadFromApId` | crates/db_schema/src/impls/person.rs:158-169 | `read_from_apub_id` finds a row exactly when a live row has that ap_id, and never fails |
| `PersonStore.ReadFromApIdFindsRow` | crates/db_schema/src/impls/person.rs:163-168 | because ap_id is unique, `read_from_apub_id` returns exactly the live row with that ap_id |
| `PersonStore.ReadFromName` | crates/db_schema/src/impls/person.rs:171-185 | `read_from_name` finds a row exactly when a local row has the name in any case, and that row is live unless deleted rows were asked for |
| `PersonStore.ReadFromNameAndDomain` | crates/db_schema/src/impls/person.rs:187-202 | the lookup finds a row exactly when a person's name and its instance's domain both match in any case. Deleted and remote rows are included |
| `PersonStore.LocalUrl` | crates/db_schema/src/impls/person.rs:145-148 | the profile URL is the domain, then `/u/`, then the name, with nothing else in it |
| `PersonStore.LocalUrlInjective` | crates/db_schema/src/impls/person.rs:145-148 | on one instance, different names give different profile URLs |
| `Follows.KeyOf` | crates/db_schema/src/impls/person.rs:212 | the form's follower becomes the edge's `person_id` and the person followed becomes its `target_id` |
| `Follows.Follow` | crates/db_schema/src/impls/person.rs:207-218 | follow leaves one edge for the pair, whether it was new or not, with followed = now and pending = the form's flag. Other edges are untouched and edge consistency is kept |
| `Follows.AsFollower` | crates/db_schema/src/impls/person.rs:215-216 | the returned edge carries the follower, the target, the followed time and the pending flag of the row |
| `Follows.FollowAccepted` | crates/db_schema/src/impls/person.rs:220-223 | accepting a follow always fails with NotFound |
| `Follows.Unfollow` | crates/db_schema/src/impls/person.rs:225-235 | unfollow sets both follow columns of the keyed edge to NULL and changes no other edge; a missing edge is not created |
| `Follows.UnfollowCount` | crates/db_schema/src/impls/person.rs:225-235 | the count is 1 exactly when the keyed edge exists with `followed` set, and 0 otherwise, never an error |
| `Follows.UnfollowTwiceCountsZero` | crates/db_schema/src/impls/person.rs:225-235 | after an unfollow, a repeated unfollow of the same pair counts 0 |
| `Follows.ListFollowers` | crates/db_schema/src/impls/person.rs:239-251 | every follower whose edge to the target has `followed` set is listed, and only stored persons are listed |
| `Follows.ListedFollowerHasEdge` | crates/db_schema/src/impls/person.rs:244-247 | every listed person has an edge to the target with `followed` set |
| `Follows.FollowIdempotent` | crates/db_schema/src/impls/person.rs:210-216 | following twice is the same as following once at the later time |
| `Follows.ListFollowersAfterFollow` | crates/db_schema/src/impls/person.rs:207-251 | follow adds exactly its follower to the target's followers and changes nobody else's followers |
| `Follows.ListFollowersAfterUnfollow` | crates/db_schema/src/impls/person.rs:225-251 | unfollow removes exactly its follower from the target's followers and changes nobody else's followers |
| `Follows.FollowScenario` | crates/db_schema/src/impls/person.rs:343-357 | after B follows A, the returned edge is (A, B, not pending) and A's followers are exactly B. Unfollow then counts 1 and A has no followers |
| `LocalCommunities.ViaComments` | crates/db_schema/src/impls/person.rs:112-119 | the comment branch yields exactly the communities that are local, not deleted and not removed and hold a post the person commented on |
| `LocalCommunities.ViaPosts` | crates/db_schema/src/impls/person.rs:121-125 | the post branch yields exactly the local communities the person posted in |
| `LocalCommunities.ListLocalCommunityIds` | crates/db_schema/src/impls/person.rs:107-129 | the union holds only local communities, and exactly those the person posted in or, when not deleted and not removed, commented in |
| `LocalCommunities.HiddenCommunityOnlyViaPosts` | crates/db_schema/src/impls/person.rs:112-125 | a deleted or removed community is listed exactly when the person posted in it; comments there do not count |
| `Database.Db.Create` | crates/db_schema/src/impls/person.rs:48-54 | create inserts under the next id, or leaves the table as it was on UniqueViolation; the sequence advances either way and the invariant is kept |
| `Database.Db.Update` | crates/db_schema/src/impls/person.rs:55-65 | update replaces exactly the one row, or changes nothing on an error; the invariant is kept |
| `Database.Db.Upsert` | crates/db_schema/src/impls/person.rs:73-82 | upsert leaves the table given by `PersonStore.Upsert`, returns the row under the form's ap_id, and advances the sequence on either branch; the invariant is kept |
| `Database.Db.DeleteAccount` | crates/db_schema/src/impls/person.rs:83-104 | emails are cleared first, then the row is scrubbed or NotFound is returned. Afterwards `read` of that id fails |
| `Database.Db.Follow` | crates/db_schema/src/impls/person.rs:207-218 | the edge table becomes `Follows.Follow` of the old one, and the returned edge matches the form |
| `Database.Db.Unfollow` | crates/db_schema/src/impls/person.rs:225-235 | the edge table becomes `Follows.Unfollow` of the old one, and the count is 1 when the edge was a follow and 0 otherwise |
| `Database.FollowTest` | crates/db_schema/src/impls/person.rs:331-360 | in the follow test the edge holds person 1 as target and person 2 as follower, not pending; person 1's followers are exactly person 2; unfollow counts 1, and no followers are left |
| `Database.CrudTest` | crates/db_schema/src/impls/person.rs:273-329 | a created person is live with zero counters; reading it back and the no-op update both return the inserted row |

## Left out

- Connection handling (`get_conn`), async execution, the query builder and
  Postgres itself. A connection failure is an error that every operation can
  return, and the model has no such error.
- Aggregate counters (`post_count`, `post_score`, `comment_count`,
  `comment_score`). Database triggers maintain them, and those triggers are
  not part of this model. The model stores the counters, starts them at zero
  and proves they are never written here. The aggregate test
  (`test_aggregates`) is not modelled.
- Person columns that no statement here names: `banned`, `ban_expires`,
  `bot_account`, the keys, `inbox_url`, `last_refreshed_at`.
- Database-generated defaults for a form's `ap_id`: in the model every insert
  form carries its `ap_id`.
- Schema constraints other than the unique `ap_id`, such as foreign keys. The
  inner join of `list_followers` simply drops an edge whose follower row is
  missing.
- `PersonUpdateForm` is reduced to the columns listed in `Types`. The derive
  macros that map the forms onto columns are not part of this model.
- Follows.Unfollow: the database deletes a `person_actions` row once all of
  its columns are NULL. The model keeps the nulled row instead; it counts as
  no follow, so `list_followers` and the unfollow count see the same thing.
  The other action columns of `person_actions` are not modelled.
- `local_url`: parsing the string as a URL, and the error when that fails, are
  not modelled. Only the string `domain + "/u/" + name` is.
- Case folding is ASCII only. Unicode lowering in Rust and in Postgres is not
  modelled.
- `first()` may return any matching row. The model returns the row with the
  least id.
- `list_followers` and `list_local_community_ids` return vectors in no fixed
  order. The model returns sets, which keeps the de-duplication of the SQL
  UNION but not the order.
- Types.PersonInsertForm: the insert form's definition is not part of this
  model. The model gives it `name`, `ap_id`, `local`, `instance_id` and five
  optional profile columns, with `local` as a plain flag. The real form also
  has optional `deleted`, `published`, `updated` and other columns, which a
  caller may set.
- PersonStore.Overwrite: because the form has no `deleted`, `published` or
  `updated`, an upsert in the model can never un-delete or restamp a row.
- `PersonInsertForm::test_form` and the hard delete `Person::delete` are not
  part of this model.

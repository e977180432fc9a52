/**
 * Rows, forms and errors of the Person data-access layer: the `person`,
 * `person_actions`, `local_user`, `instance`, `post`, `comment` and
 * `community` tables, reduced to the columns the layer reads or writes.
 */
module Types {

  datatype Option<+T> = None | Some(value: T)

  datatype Result<+T> = Ok(value: T) | Err(error: DbError)

  /** The failures the layer surfaces: diesel's NotFound and unique
      violation, and the domain error of the username availability check. */
  datatype DbError = NotFound | UniqueViolation | UsernameAlreadyExists

  type PersonId = nat
  type InstanceId = nat
  type LocalUserId = nat
  type CommunityId = nat
  type PostId = nat
  type CommentId = nat

  /** Database time, passed in by the caller in place of `now()` / `Utc::now()`. */
  type Timestamp = int

  /** A row of the `person` table. */
  datatype Person = Person(
    id: PersonId,
    name: string,
    displayName: Option<string>,
    avatar: Option<string>,
    banner: Option<string>,
    deleted: bool,
    published: Timestamp,
    updated: Option<Timestamp>,
    apId: string,
    bio: Option<string>,
    local: bool,
    matrixUserId: Option<string>,
    instanceId: InstanceId,
    postCount: int,
    postScore: int,
    commentCount: int,
    commentScore: int)

  /** What `create` and `upsert` write. The optional columns are written as
      NULL on insert when absent; on an upsert conflict an absent optional
      column is left as it is. */
  datatype PersonInsertForm = PersonInsertForm(
    name: string,
    apId: string,
    local: bool,
    instanceId: InstanceId,
    displayName: Option<string>,
    avatar: Option<string>,
    banner: Option<string>,
    bio: Option<string>,
    matrixUserId: Option<string>)

  /** What `update` writes: every `Some` column is set, every `None` column is
      left alone (a `Some(None)` sets a nullable column to NULL). */
  datatype PersonUpdateForm = PersonUpdateForm(
    apId: Option<string>,
    local: Option<bool>,
    deleted: Option<bool>,
    displayName: Option<Option<string>>,
    avatar: Option<Option<string>>,
    banner: Option<Option<string>>,
    bio: Option<Option<string>>,
    matrixUserId: Option<Option<string>>,
    updated: Option<Option<Timestamp>>)

  /** A row of `local_user`, reduced to the column `delete_account` writes. */
  datatype LocalUser = LocalUser(personId: PersonId, email: Option<string>)

  /** The key of `person_actions`: `person_id` is the follower,
      `target_id` the person followed. */
  datatype EdgeKey = EdgeKey(personId: PersonId, targetId: PersonId)

  /** The follow columns of a `person_actions` row. */
  datatype PersonActions = PersonActions(followed: Option<Timestamp>, followPending: Option<bool>)

  /** The follow form: `personId` is the target, `followerId` the follower. */
  datatype PersonFollowerForm = PersonFollowerForm(personId: PersonId, followerId: PersonId, pending: bool)

  /** A follow edge as `follow` returns it. */
  datatype PersonFollower = PersonFollower(personId: PersonId, followerId: PersonId, published: Timestamp, pending: bool)

  datatype Post = Post(id: PostId, creatorId: PersonId, communityId: CommunityId)

  datatype Comment = Comment(id: CommentId, creatorId: PersonId, postId: PostId)

  datatype Community = Community(id: CommunityId, local: bool, deleted: bool, removed: bool)
}

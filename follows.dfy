/**
 * Follow edges between persons: the follow columns of `person_actions`,
 * keyed by (`person_id` = follower, `target_id` = person followed), and the
 * operations `follow`, `follow_accepted`, `unfollow` and `list_followers`.
 */
module Follows {
  import opened Types
  import opened PersonStore

  type EdgeTable = map<EdgeKey, PersonActions>

  /** An edge is either following (both follow columns set) or not (both
      NULL): `follow` writes both, `unfollow` clears both. */
  predicate EdgesConsistent(e: EdgeTable) {
    forall k :: k in e ==> (e[k].followed.Some? <==> e[k].followPending.Some?)
  }

  /** The form's columns mapped onto the key: the follower goes into
      `person_id`, the person followed into `target_id`. */
  function KeyOf(form: PersonFollowerForm): (k: EdgeKey)
    ensures k.personId == form.followerId && k.targetId == form.personId
  {
    EdgeKey(form.followerId, form.personId)
  }

  /** `follow`: insert the edge, or overwrite it on the (follower, target)
      conflict, with `followed = now` and the form's pending flag. */
  function Follow(e: EdgeTable, form: PersonFollowerForm, now: Timestamp): (e': EdgeTable)
    ensures e'.Keys == e.Keys + {KeyOf(form)}
    ensures e'[KeyOf(form)].followed == Some(now) && e'[KeyOf(form)].followPending == Some(form.pending)
    ensures forall k :: k in e && k != KeyOf(form) ==> e'[k] == e[k]
    ensures EdgesConsistent(e) ==> EdgesConsistent(e')
  {
    e[KeyOf(form) := PersonActions(Some(now), Some(form.pending))]
  }

  /** The edge as `follow` returns it, read back from its row. */
  function AsFollower(k: EdgeKey, row: PersonActions): (f: PersonFollower)
    requires row.followed.Some? && row.followPending.Some?
    ensures f.followerId == k.personId && f.personId == k.targetId
    ensures f.published == row.followed.value && f.pending == row.followPending.value
  {
    PersonFollower(k.targetId, k.personId, row.followed.value, row.followPending.value)
  }

  /** Accepting a pending follow does not exist for persons. */
  function FollowAccepted(communityId: CommunityId, personId: PersonId): (r: Result<PersonFollower>)
    ensures r.Err? && r.error == NotFound
  {
    Err(NotFound)
  }

  /** `unfollow`: NULL both follow columns of the one edge keyed by the form;
      no other edge changes. */
  function Unfollow(e: EdgeTable, form: PersonFollowerForm): (e': EdgeTable)
    ensures e'.Keys == e.Keys
    ensures KeyOf(form) in e' ==> e'[KeyOf(form)] == PersonActions(None, None)
    ensures forall k :: k in e && k != KeyOf(form) ==> e'[k] == e[k]
    ensures EdgesConsistent(e) ==> EdgesConsistent(e')
  {
    if KeyOf(form) in e then e[KeyOf(form) := PersonActions(None, None)] else e
  }

  /** The row count `unfollow` reports: 1 when the keyed edge is a follow,
      else 0. */
  function UnfollowCount(e: EdgeTable, form: PersonFollowerForm): (n: nat)
    ensures n <= 1
    ensures n == 1 <==> KeyOf(form) in e && e[KeyOf(form)].followed.Some?
  {
    if KeyOf(form) in e && e[KeyOf(form)].followed.Some? then 1 else 0
  }

  /** `list_followers`: the person rows of every follower whose edge to
      `target` has `followed` set. */
  function ListFollowers(t: PersonTable, e: EdgeTable, target: PersonId): (r: set<Person>)
    ensures r <= t.Values
    ensures forall k :: k in e && k.targetId == target && e[k].followed.Some? && k.personId in t ==> t[k.personId] in r
  {
    set k | k in e && k.targetId == target && e[k].followed.Some? && k.personId in t :: t[k.personId]
  }

  // ---------------------------------------------------------------------------
  // Properties

  /** Every listed follower has a live edge to the target. */
  lemma ListedFollowerHasEdge(t: PersonTable, next: PersonId, e: EdgeTable, target: PersonId, p: Person)
    requires WellFormed(t, next)
    requires p in ListFollowers(t, e, target)
    ensures p.id in t && t[p.id] == p
    ensures var k := EdgeKey(p.id, target); k in e && e[k].followed.Some?
  {
  }

  /** Following twice is following once: one edge, carrying the later time
      and the later pending flag. */
  lemma FollowIdempotent(e: EdgeTable, form: PersonFollowerForm, now: Timestamp, later: Timestamp)
    ensures Follow(Follow(e, form, now), form, later) == Follow(e, form, later)
  {
  }

  /** `follow` adds exactly its follower to the target's followers and leaves
      every other person's followers as they were. */
  lemma ListFollowersAfterFollow(t: PersonTable, next: PersonId, e: EdgeTable, form: PersonFollowerForm, now: Timestamp, target: PersonId)
    requires WellFormed(t, next)
    ensures ListFollowers(t, Follow(e, form, now), target)
         == ListFollowers(t, e, target)
            + (if target == form.personId && form.followerId in t then {t[form.followerId]} else {})
  {
  }

  /** `unfollow` removes exactly its follower from the target's followers. */
  lemma ListFollowersAfterUnfollow(t: PersonTable, next: PersonId, e: EdgeTable, form: PersonFollowerForm, target: PersonId)
    requires WellFormed(t, next)
    ensures ListFollowers(t, Unfollow(e, form), target)
         == ListFollowers(t, e, target)
            - (if target == form.personId && form.followerId in t then {t[form.followerId]} else {})
  {
  }

  /** Unfollowing leaves no follow behind, so a repeated `unfollow` counts 0. */
  lemma UnfollowTwiceCountsZero(e: EdgeTable, form: PersonFollowerForm)
    ensures UnfollowCount(Unfollow(e, form), form) == 0
  {
  }

  /** The follow test: B follows A and `follow` returns that edge; A's
      followers are exactly [B]; `unfollow` reports one row and A has no
      followers left. */
  lemma FollowScenario(t: PersonTable, next: PersonId, a: PersonId, b: PersonId, now: Timestamp)
    requires WellFormed(t, next) && a in t && b in t && a != b
    ensures var form := PersonFollowerForm(a, b, false);
      var e1 := Follow(map[], form, now);
      var edge := AsFollower(KeyOf(form), e1[KeyOf(form)]);
      && edge.personId == a && edge.followerId == b && !edge.pending
      && ListFollowers(t, e1, a) == {t[b]}
      && UnfollowCount(e1, form) == 1
      && ListFollowers(t, Unfollow(e1, form), a) == {}
  {
  }
}

/**
 * `list_local_community_ids`: the local communities a person has written
 * in, as the union of a comment branch and a post branch. Posts, comments
 * and communities are tables keyed by id.
 */
module LocalCommunities {
  import opened Types

  type PostTable = map<PostId, Post>
  type CommentTable = map<CommentId, Comment>
  type CommunityTable = map<CommunityId, Community>

  /** The comment branch filters on all three community flags. */
  predicate Visible(c: Community) {
    c.local && !c.deleted && !c.removed
  }

  /** The creator has a post in community `id`, and that community is local. */
  predicate PostedIn(posts: PostTable, communities: CommunityTable, creator: PersonId, id: CommunityId) {
    && id in communities && communities[id].local
    && exists p :: p in posts.Values && p.creatorId == creator && p.communityId == id
  }

  /** The creator has a comment on a post of community `id`, and that
      community is local, not deleted and not removed. */
  predicate CommentedIn(posts: PostTable, comments: CommentTable, communities: CommunityTable, creator: PersonId, id: CommunityId) {
    && id in communities && Visible(communities[id])
    && exists c :: c in comments.Values && c.creatorId == creator && c.postId in posts && posts[c.postId].communityId == id
  }

  /** The creator's comments joined to their posts and on to the posts'
      communities, kept when the community is local, not deleted and not
      removed. The post may be anyone's. */
  function ViaComments(posts: PostTable, comments: CommentTable, communities: CommunityTable, creator: PersonId): (r: set<CommunityId>)
    ensures forall id :: id in r <==> CommentedIn(posts, comments, communities, creator, id)
  {
    set c | c in comments.Values && c.creatorId == creator && c.postId in posts
              && posts[c.postId].communityId in communities
              && Visible(communities[posts[c.postId].communityId])
          :: posts[c.postId].communityId
  }

  /** The creator's posts joined to their communities, kept when the
      community is local, whatever its deleted and removed flags. */
  function ViaPosts(posts: PostTable, communities: CommunityTable, creator: PersonId): (r: set<CommunityId>)
    ensures forall id :: id in r <==> PostedIn(posts, communities, creator, id)
  {
    set p | p in posts.Values && p.creatorId == creator && p.communityId in communities
              && communities[p.communityId].local
          :: p.communityId
  }

  /** The union of both branches; as a set it holds each community once. */
  function ListLocalCommunityIds(posts: PostTable, comments: CommentTable, communities: CommunityTable, creator: PersonId): (r: set<CommunityId>)
    ensures forall id :: id in r ==> id in communities && communities[id].local
    ensures forall id :: id in r <==> (PostedIn(posts, communities, creator, id)
                                       || CommentedIn(posts, comments, communities, creator, id))
  {
    ViaComments(posts, comments, communities, creator) + ViaPosts(posts, communities, creator)
  }

  /** A deleted or removed community is listed only because the creator
      posted in it: comments there do not count. */
  lemma HiddenCommunityOnlyViaPosts(posts: PostTable, comments: CommentTable, communities: CommunityTable, creator: PersonId, id: CommunityId)
    requires id in communities && !Visible(communities[id])
    ensures id in ListLocalCommunityIds(posts, comments, communities, creator)
        <==> PostedIn(posts, communities, creator, id)
  {
  }
}

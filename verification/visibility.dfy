/**
 * Which posts the news feed and a profile page show, as the two database
 * filters of `GET /feed/:uid` and `GET /users/:targetUid/posts` select them.
 */
module Visibility {
  import opened Wrappers
  import opened Users

  /** The fields of a post the filters look at; a missing field is None. */
  datatype Post = Post(id: nat, userId: Option<string>, privacy: Option<string>)

  /** `{ privacy: "public" }` or `{ privacy: "private" }`. */
  predicate PublicOrPrivate(p: Post)
  {
    p.privacy == Some("public") || p.privacy == Some("private")
  }

  /**
   * The feed filter as the query writes it: the user's own posts; posts whose
   * author is `$in` the following list and whose privacy is public or private;
   * posts whose author is `$nin` the following list plus the user (a post
   * with no author included) and whose privacy is public.
   */
  predicate FeedFilter(uid: string, following: seq<string>, p: Post)
  {
    || p.userId == Some(uid)
    || (p.userId.Some? && p.userId.value in following && PublicOrPrivate(p))
    || ((p.userId.None? || (p.userId.value !in following && p.userId.value != uid)) && p.privacy == Some("public"))
  }

  /**
   * What the feed promises, by author: every post of the user's own; for a
   * followed author, exactly the public and private posts; for anyone else,
   * exactly the public posts.
   */
  lemma FeedByAuthor(uid: string, following: seq<string>, p: Post)
    ensures p.userId == Some(uid) ==> FeedFilter(uid, following, p)
    ensures p.userId != Some(uid) && p.userId.Some? && p.userId.value in following ==>
      (FeedFilter(uid, following, p) <==> PublicOrPrivate(p))
    ensures p.userId != Some(uid) && (p.userId.None? || p.userId.value !in following) ==>
      (FeedFilter(uid, following, p) <==> p.privacy == Some("public"))
  {
  }

  /** The posts of `posts` a filter keeps, in store order. */
  function FeedOf(uid: string, following: seq<string>, posts: seq<Post>): (r: seq<Post>)
    ensures forall p :: p in r <==> p in posts && FeedFilter(uid, following, p)
    ensures |r| <= |posts|
  {
    if posts == [] then []
    else (if FeedFilter(uid, following, posts[0]) then [posts[0]] else []) + FeedOf(uid, following, posts[1..])
  }

  /**
   * `GET /feed/:uid`: 404 for an unknown user; otherwise the posts the filter
   * keeps, with a missing following list read as empty.
   */
  function Feed(users: map<string, User>, uid: string, posts: seq<Post>): (r: Result<seq<Post>>)
    ensures r.Err? <==> uid !in users
    ensures r.Err? ==> r.error == NotFound("User not found")
    ensures r.Ok? ==> forall p :: p in r.value <==> p in posts && FeedFilter(uid, FollowingOf(users, uid), p)
  {
    if uid !in users then Err(NotFound("User not found"))
    else Ok(FeedOf(uid, ListOrEmpty(users[uid].following), posts))
  }

  /**
   * The profile filter: the target's posts, restricted to public ones exactly
   * when a truthy viewer other than the target is not among its followers.
   */
  predicate ProfileFilter(targetUid: string, viewerUid: Option<string>, followers: seq<string>, p: Post)
  {
    && p.userId == Some(targetUid)
    && (Truthy(viewerUid) && viewerUid.value != targetUid && viewerUid.value !in followers ==> p.privacy == Some("public"))
  }

  function ProfileOf(targetUid: string, viewerUid: Option<string>, followers: seq<string>, posts: seq<Post>): (r: seq<Post>)
    ensures forall p :: p in r <==> p in posts && ProfileFilter(targetUid, viewerUid, followers, p)
    ensures |r| <= |posts|
  {
    if posts == [] then []
    else
      var head := if ProfileFilter(targetUid, viewerUid, followers, posts[0]) then [posts[0]] else [];
      head + ProfileOf(targetUid, viewerUid, followers, posts[1..])
  }

  /** `GET /users/:targetUid/posts`: 404 for an unknown target, otherwise the filtered posts. */
  function Profile(users: map<string, User>, targetUid: string, viewerUid: Option<string>, posts: seq<Post>): (r: Result<seq<Post>>)
    ensures r.Err? <==> targetUid !in users
    ensures r.Err? ==> r.error == NotFound("User not found")
    ensures r.Ok? ==> forall p :: p in r.value <==> p in posts && ProfileFilter(targetUid, viewerUid, FollowersOf(users, targetUid), p)
  {
    if targetUid !in users then Err(NotFound("User not found"))
    else Ok(ProfileOf(targetUid, viewerUid, ListOrEmpty(users[targetUid].followers), posts))
  }

  /**
   * The profile shows everything of the target's the feed would: when the
   * follow lists agree, a post by the target that the viewer's feed shows
   * is shown on the target's profile to that viewer. For a (non-empty)
   * viewer who does not follow the target, the two agree exactly.
   */
  lemma FeedWithinProfile(users: map<string, User>, viewer: string, target: string, p: Post)
    requires Consistent(users) && viewer in users && target in users
    requires p.userId == Some(target)
    ensures FeedFilter(viewer, FollowingOf(users, viewer), p) ==> ProfileFilter(target, Some(viewer), FollowersOf(users, target), p)
    ensures viewer != "" && viewer != target && !Follows(users, viewer, target) ==>
      (FeedFilter(viewer, FollowingOf(users, viewer), p) <==> ProfileFilter(target, Some(viewer), FollowersOf(users, target), p))
  {
    assert viewer in FollowersOf(users, target) <==> target in FollowingOf(users, viewer);
  }

  /**
   * A follow or unfollow moves the target's private posts in or out of the
   * follower's feed and changes nothing about the target's public posts.
   */
  lemma FollowRevealsPrivatePosts(users: map<string, User>, target: string, current: string, now: nat, p: Post)
    requires target in users && current in users && target != current
    requires p.userId == Some(target)
    ensures p.privacy == Some("private") ==>
      FeedFilter(current, FollowingOf(Follow(users, target, current, now), current), p)
      && !FeedFilter(current, FollowingOf(Unfollow(users, target, current), current), p)
    ensures p.privacy == Some("public") ==>
      FeedFilter(current, FollowingOf(Follow(users, target, current, now), current), p)
      && FeedFilter(current, FollowingOf(Unfollow(users, target, current), current), p)
  {
    FollowFlipsOnePair(users, target, current, now);
    UnfollowFlipsOnePair(users, target, current);
  }
}

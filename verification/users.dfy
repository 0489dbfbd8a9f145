/**
 * Users: creating a user document, the partial update of profile details,
 * and the follow/unfollow toggle that keeps the target's `followers` and the
 * caller's `following` lists in step. The users collection is a map from
 * `uid` to document.
 */
module Users {
  import opened Wrappers
  import Notifications

  /** A JSON value from a request body. */
  datatype Json = JNull | JBool(b: bool) | JNum(n: int) | JStr(s: string) | JArray(items: seq<Json>) | JObject(fields: map<string, Json>)

  /**
   * A user document. `None` in a name field is a stored `null`; `None` for a
   * list is a missing field (documents written elsewhere may lack one).
   * `details` holds the optional profile fields by name.
   */
  datatype User = User(
    uid: string,
    displayName: Option<string>,
    email: Option<string>,
    photoURL: Option<string>,
    followers: Option<seq<string>>,
    following: Option<seq<string>>,
    createdAt: nat,
    updatedAt: Option<nat>,
    details: map<string, Json>)

  datatype Created = AlreadyExists(user: User) | Inserted(uid: string)

  datatype FollowResponse = FollowResponse(isFollowing: bool, followersCount: nat, followingCount: nat)

  /** The body fields the details update copies, when present. */
  const DetailFields: set<string> := {
    "education", "location", "gender", "relationshipStatus", "username", "birthday",
    "languages", "bio", "occupation", "company", "skills", "socialLinks" }

  /** The profile fields a new user starts with, all `null`. */
  const InitialDetails: map<string, Json> := map[
    "banner" := JNull, "bannerFilename" := JNull, "bannerMimetype" := JNull,
    "education" := JNull, "location" := JNull, "gender" := JNull, "relationshipStatus" := JNull]

  /** `x || null` on a string field. */
  function OrNull(x: Option<string>): (r: Option<string>)
    ensures r.Some? ==> r == x && r.value != ""
    ensures Truthy(x) ==> r == x
  {
    if Truthy(x) then x else None
  }

  function ListOrEmpty(l: Option<seq<string>>): seq<string>
  {
    match l
    case Some(s) => s
    case None => []
  }

  /** `$pull`: every occurrence of `x` goes and every other value stays; a missing list stays missing. */
  function Pull(l: Option<seq<string>>, x: string): (r: Option<seq<string>>)
    ensures r.None? <==> l.None?
    ensures forall y :: y in ListOrEmpty(r) <==> y in ListOrEmpty(l) && y != x
  {
    match l
    case None => None
    case Some(s) => Some(Remove(s, x))
  }

  function Remove(s: seq<string>, x: string): (r: seq<string>)
    ensures forall y :: y in r <==> y in s && y != x
    ensures |r| <= |s|
  {
    if s == [] then []
    else (if s[0] == x then [] else [s[0]]) + Remove(s[1..], x)
  }

  /** `$addToSet`: `x` is appended unless already present; a missing list becomes `[x]`. */
  function AddToSet(l: Option<seq<string>>, x: string): (r: Option<seq<string>>)
    ensures r.Some?
    ensures forall y :: y in r.value <==> y in ListOrEmpty(l) || y == x
    ensures x in ListOrEmpty(l) ==> r == l
  {
    var s := ListOrEmpty(l);
    if x in s then l else Some(s + [x])
  }

  function FollowersOf(users: map<string, User>, u: string): seq<string>
  {
    if u in users then ListOrEmpty(users[u].followers) else []
  }

  function FollowingOf(users: map<string, User>, u: string): seq<string>
  {
    if u in users then ListOrEmpty(users[u].following) else []
  }

  /** `a` follows `b`, as `b`'s followers list records it. */
  predicate Follows(users: map<string, User>, a: string, b: string)
  {
    a in FollowersOf(users, b)
  }

  /** The two lists agree: `a` is among `b`'s followers exactly when `b` is among `a`'s followings. */
  predicate Consistent(users: map<string, User>)
  {
    forall a, b :: a in users && b in users ==> (a in FollowersOf(users, b) <==> b in FollowingOf(users, a))
  }

  /** Every listed follower or following is a registered user, and documents are keyed by their uid. */
  predicate Closed(users: map<string, User>)
  {
    forall u :: u in users ==>
      && users[u].uid == u
      && (forall v :: v in ListOrEmpty(users[u].followers) ==> v in users)
      && (forall v :: v in ListOrEmpty(users[u].following) ==> v in users)
  }

  /** The document `POST /users` inserts. */
  function NewUser(uid: string, displayName: Option<string>, email: Option<string>, photoURL: Option<string>, now: nat): (u: User)
    ensures u.uid == uid && u.followers == Some([]) && u.following == Some([])
    ensures u.displayName == OrNull(displayName) && u.email == OrNull(email) && u.photoURL == OrNull(photoURL)
    ensures u.createdAt == now && u.updatedAt.None? && u.details == InitialDetails
  {
    User(uid, OrNull(displayName), OrNull(email), OrNull(photoURL), Some([]), Some([]), now, None, InitialDetails)
  }

  /** The `$set` of the details route: the allowed fields present in the body. */
  function DetailsUpdate(body: map<string, Json>): (upd: map<string, Json>)
    ensures forall k :: k in upd <==> k in body && k in DetailFields
    ensures forall k :: k in upd ==> upd[k] == body[k]
  {
    map k | k in body && k in DetailFields :: body[k]
  }

  /** A user after the details route: allowed body fields overwrite, `updatedAt` is set, nothing else moves. */
  function ApplyDetails(u: User, body: map<string, Json>, now: nat): (r: User)
    ensures r.(details := u.details, updatedAt := u.updatedAt) == u
    ensures r.updatedAt == Some(now)
    ensures forall k :: k in body && k in DetailFields ==> k in r.details && r.details[k] == body[k]
    ensures forall k :: k !in body || k !in DetailFields ==> (k in r.details <==> k in u.details)
    ensures forall k :: (k !in body || k !in DetailFields) && k in u.details ==> r.details[k] == u.details[k]
  {
    u.(details := u.details + DetailsUpdate(body), updatedAt := Some(now))
  }

  /** Unfollow: `$pull` the caller from the target's followers and the target from the caller's following. */
  function Unfollow(users: map<string, User>, target: string, current: string): map<string, User>
    requires target in users && current in users && target != current
  {
    var t := users[target].(followers := Pull(users[target].followers, current));
    var c := users[current].(following := Pull(users[current].following, target));
    users[target := t][current := c]
  }

  /** Follow: `$addToSet` on both lists, and both documents get `updatedAt`. */
  function Follow(users: map<string, User>, target: string, current: string, now: nat): map<string, User>
    requires target in users && current in users && target != current
  {
    var t := users[target].(followers := AddToSet(users[target].followers, current), updatedAt := Some(now));
    var c := users[current].(following := AddToSet(users[current].following, target), updatedAt := Some(now));
    users[target := t][current := c]
  }

  /** The notification the follow branch inserts, through the helper that stores documents as given. */
  function FollowNotice(target: string, current: User): (n: Notifications.Notification)
    ensures n.recipientId == Some(target) && n.senderId == Some(current.uid) && n.ntype == Some("follow")
    ensures n.senderName == current.displayName && n.senderPhoto == current.photoURL
    ensures n.message.None? && n.isRead.None? && n.createdAt.None?
  {
    Notifications.Notification(
      Some(target), Some(current.uid),
      current.displayName, current.photoURL, None, Some(""), Some("follow"), None, Some(""), None, None)
  }

  // ---------------------------------------------------------------------------
  // Properties of the follow relation
  // ---------------------------------------------------------------------------

  /**
   * An unfollow flips exactly one pair: afterwards the caller no longer
   * follows the target in either list, and every other pair, in both lists,
   * is as before. The user set does not change.
   */
  lemma UnfollowFlipsOnePair(users: map<string, User>, target: string, current: string)
    requires target in users && current in users && target != current
    ensures var r := Unfollow(users, target, current);
      && r.Keys == users.Keys
      && !Follows(r, current, target) && target !in FollowingOf(r, current)
      && (forall a, b :: a != current || b != target ==> (Follows(r, a, b) <==> Follows(users, a, b)))
      && (forall a, b :: a != current || b != target ==> (b in FollowingOf(r, a) <==> b in FollowingOf(users, a)))
  {
    var r := Unfollow(users, target, current);
    assert FollowersOf(r, target) == ListOrEmpty(Pull(users[target].followers, current));
    assert FollowingOf(r, current) == ListOrEmpty(Pull(users[current].following, target));
    assert FollowingOf(r, target) == FollowingOf(users, target);
    assert FollowersOf(r, current) == FollowersOf(users, current);
  }

  /**
   * A follow flips exactly one pair: afterwards the caller follows the target
   * in both lists, and every other pair is as before.
   */
  lemma FollowFlipsOnePair(users: map<string, User>, target: string, current: string, now: nat)
    requires target in users && current in users && target != current
    ensures var r := Follow(users, target, current, now);
      && r.Keys == users.Keys
      && Follows(r, current, target) && target in FollowingOf(r, current)
      && (forall a, b :: a != current || b != target ==> (Follows(r, a, b) <==> Follows(users, a, b)))
      && (forall a, b :: a != current || b != target ==> (b in FollowingOf(r, a) <==> b in FollowingOf(users, a)))
  {
    var r := Follow(users, target, current, now);
    assert FollowersOf(r, target) == ListOrEmpty(AddToSet(users[target].followers, current));
    assert FollowingOf(r, current) == ListOrEmpty(AddToSet(users[current].following, target));
    assert FollowingOf(r, target) == FollowingOf(users, target);
    assert FollowersOf(r, current) == FollowersOf(users, current);
  }

  /**
   * A map that agrees with a consistent one on every pair but (current,
   * target), and has that pair in both lists or in neither, is consistent.
   */
  lemma OnePairChangeKeepsConsistent(users: map<string, User>, r: map<string, User>, target: string, current: string)
    requires Consistent(users) && r.Keys == users.Keys
    requires Follows(r, current, target) <==> target in FollowingOf(r, current)
    requires forall a, b :: a != current || b != target ==> (Follows(r, a, b) <==> Follows(users, a, b))
    requires forall a, b :: a != current || b != target ==> (b in FollowingOf(r, a) <==> b in FollowingOf(users, a))
    ensures Consistent(r)
  {
    forall a, b | a in r && b in r
      ensures a in FollowersOf(r, b) <==> b in FollowingOf(r, a)
    {
      if a != current || b != target {
        assert Follows(r, a, b) <==> Follows(users, a, b);
        assert a in FollowersOf(users, b) <==> b in FollowingOf(users, a);
      }
    }
  }

  /** An unfollow keeps the two lists in agreement and every listed uid registered. */
  lemma UnfollowKeepsConsistent(users: map<string, User>, target: string, current: string)
    requires target in users && current in users && target != current
    requires Consistent(users) && Closed(users)
    ensures Consistent(Unfollow(users, target, current)) && Closed(Unfollow(users, target, current))
  {
    var r := Unfollow(users, target, current);
    UnfollowFlipsOnePair(users, target, current);
    OnePairChangeKeepsConsistent(users, r, target, current);
    forall u | u in r
      ensures r[u].uid == u
      ensures forall v :: v in ListOrEmpty(r[u].followers) ==> v in r
      ensures forall v :: v in ListOrEmpty(r[u].following) ==> v in r
    {
      assert forall v :: v in ListOrEmpty(r[u].followers) ==> v in ListOrEmpty(users[u].followers);
      assert forall v :: v in ListOrEmpty(r[u].following) ==> v in ListOrEmpty(users[u].following);
    }
  }

  /** A follow keeps the two lists in agreement and every listed uid registered. */
  lemma FollowKeepsConsistent(users: map<string, User>, target: string, current: string, now: nat)
    requires target in users && current in users && target != current
    requires Consistent(users) && Closed(users)
    ensures Consistent(Follow(users, target, current, now)) && Closed(Follow(users, target, current, now))
  {
    var r := Follow(users, target, current, now);
    FollowFlipsOnePair(users, target, current, now);
    OnePairChangeKeepsConsistent(users, r, target, current);
    forall u | u in r
      ensures r[u].uid == u
      ensures forall v :: v in ListOrEmpty(r[u].followers) ==> v in r
      ensures forall v :: v in ListOrEmpty(r[u].following) ==> v in r
    {
      assert forall v :: v in ListOrEmpty(r[u].followers) ==> v in ListOrEmpty(users[u].followers) || v == current;
      assert forall v :: v in ListOrEmpty(r[u].following) ==> v in ListOrEmpty(users[u].following) || v == target;
    }
  }

  /** Inserting a new user with empty lists keeps the lists in agreement and registered. */
  lemma CreateKeepsConsistent(users: map<string, User>, u: User)
    requires Consistent(users) && Closed(users)
    requires u.uid !in users && u.followers == Some([]) && u.following == Some([])
    ensures Consistent(users[u.uid := u]) && Closed(users[u.uid := u])
  {
    var r := users[u.uid := u];
    forall a, b | a in r && b in r
      ensures a in FollowersOf(r, b) <==> b in FollowingOf(r, a)
    {
      if a != u.uid && b != u.uid {
        assert a in FollowersOf(users, b) <==> b in FollowingOf(users, a);
      }
    }
  }

  // ---------------------------------------------------------------------------
  // The users collection and its routes
  // ---------------------------------------------------------------------------

  class UserStore {
    var users: map<string, User>
    const inbox: Notifications.NotificationStore

    ghost predicate Valid()
      reads this
    {
      Consistent(users) && Closed(users)
    }

    constructor (inbox: Notifications.NotificationStore)
      ensures Valid() && users == map[] && this.inbox == inbox
    {
      users := map[];
      this.inbox := inbox;
    }

    /**
     * `POST /users`: a falsy uid is refused; an existing user is returned
     * as it is; otherwise a new document is inserted with empty follow lists.
     */
    method CreateUser(uid: Option<string>, displayName: Option<string>, email: Option<string>, photoURL: Option<string>, now: nat)
      returns (r: Result<Created>)
      requires Valid()
      modifies this
      ensures Valid()
      ensures !Truthy(uid) ==> r == Err(BadRequest("uid required")) && users == old(users)
      ensures Truthy(uid) && uid.value in old(users) ==> r == Ok(AlreadyExists(old(users)[uid.value])) && users == old(users)
      ensures Truthy(uid) && uid.value !in old(users) ==>
        && r == Ok(Inserted(uid.value))
        && users == old(users)[uid.value := NewUser(uid.value, displayName, email, photoURL, now)]
    {
      if !Truthy(uid) {
        return Err(BadRequest("uid required"));
      }
      if uid.value in users {
        return Ok(AlreadyExists(users[uid.value]));
      }
      var doc := NewUser(uid.value, displayName, email, photoURL, now);
      CreateKeepsConsistent(users, doc);
      users := users[uid.value := doc];
      return Ok(Inserted(uid.value));
    }

    /** `GET /users/:uid`: the stored document, whose uid is the one asked for, or 404. */
    method GetUser(uid: string) returns (r: Result<User>)
      requires Valid()
      ensures r.Ok? <==> uid in users
      ensures r.Ok? ==> r.value == users[uid] && r.value.uid == uid
      ensures r.Err? ==> r.error == NotFound("User not found")
    {
      if uid !in users {
        return Err(NotFound("User not found"));
      }
      return Ok(users[uid]);
    }

    /**
     * `PUT /users/:uid/details`: copies the allowed fields the body carries
     * (a `null` included) and stamps `updatedAt`; an unknown uid gives 404.
     */
    method UpdateDetails(uid: string, body: map<string, Json>, now: nat) returns (r: Result<bool>)
      requires Valid()
      modifies this
      ensures Valid()
      ensures uid !in old(users) ==> r == Err(NotFound("User not found")) && users == old(users)
      ensures uid in old(users) ==> r == Ok(true) && users == old(users)[uid := ApplyDetails(old(users)[uid], body, now)]
    {
      if uid !in users {
        return Err(NotFound("User not found"));
      }
      var before := users;
      users := users[uid := ApplyDetails(users[uid], body, now)];
      assert forall u :: u in users ==> FollowersOf(users, u) == FollowersOf(before, u) && FollowingOf(users, u) == FollowingOf(before, u);
      return Ok(true);
    }

    /**
     * `PUT /users/:targetUid/follow`. Refuses a falsy caller and a
     * self-follow (400) and an unknown user (404). When the caller is among
     * the target's followers it unfollows, otherwise it follows and stores a
     * follow notification; the response reports the new state and the new
     * list lengths.
     */
    method ToggleFollow(targetUid: string, currentUid: Option<string>, now: nat) returns (r: Result<FollowResponse>)
      requires Valid()
      modifies this, inbox
      ensures Valid()
      ensures !Truthy(currentUid) ==> r == Err(BadRequest("currentUid required"))
      ensures Truthy(currentUid) && currentUid.value == targetUid ==> r == Err(BadRequest("Cannot follow yourself"))
      ensures Truthy(currentUid) && currentUid.value != targetUid && (targetUid !in old(users) || currentUid.value !in old(users)) ==>
        r == Err(NotFound("User not found"))
      ensures r.Err? ==> users == old(users) && inbox.notifications == old(inbox.notifications)
      ensures r.Ok? ==>
        var cur := currentUid.value;
        var was := Follows(old(users), cur, targetUid);
        && Truthy(currentUid) && cur != targetUid && targetUid in old(users) && cur in old(users)
        && users == (if was then Unfollow(old(users), targetUid, cur) else Follow(old(users), targetUid, cur, now))
        && inbox.notifications == old(inbox.notifications) + (if was then [] else [FollowNotice(targetUid, old(users)[cur])])
        && r.value == FollowResponse(!was, |FollowersOf(users, targetUid)|, |FollowingOf(users, cur)|)
        && Follows(users, cur, targetUid) == !was
    {
      if !Truthy(currentUid) {
        return Err(BadRequest("currentUid required"));
      }
      var cur := currentUid.value;
      if targetUid == cur {
        return Err(BadRequest("Cannot follow yourself"));
      }
      if targetUid !in users || cur !in users {
        return Err(NotFound("User not found"));
      }
      var targetUser := users[targetUid];
      var currentUser := users[cur];
      var was := cur in ListOrEmpty(targetUser.followers);
      ghost var before := users;
      if was {
        UnfollowKeepsConsistent(users, targetUid, cur);
        UnfollowFlipsOnePair(users, targetUid, cur);
        users := users[targetUid := users[targetUid].(followers := Pull(users[targetUid].followers, cur))];
        users := users[cur := users[cur].(following := Pull(users[cur].following, targetUid))];
        assert users == Unfollow(before, targetUid, cur);
      } else {
        FollowKeepsConsistent(users, targetUid, cur, now);
        FollowFlipsOnePair(users, targetUid, cur, now);
        users := users[targetUid := users[targetUid].(followers := AddToSet(users[targetUid].followers, cur), updatedAt := Some(now))];
        users := users[cur := users[cur].(following := AddToSet(users[cur].following, targetUid), updatedAt := Some(now))];
        assert users == Follow(before, targetUid, cur, now);
        inbox.Insert(FollowNotice(targetUid, currentUser));
      }
      var followersCount := |ListOrEmpty(users[targetUid].followers)|;
      var followingCount := |ListOrEmpty(users[cur].following)|;
      return Ok(FollowResponse(!was, followersCount, followingCount));
    }
  }
}

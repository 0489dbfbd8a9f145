/**
 * The comment routes of a post: adding a comment, adding a reply (under a
 * comment or under a nested reply), editing and deleting a top-level comment
 * with its author checks, deleting or editing a reply at any depth, and the
 * notifications the add routes store.
 */
module Comments {
  import opened Wrappers
  import opened ReplyTree
  import Notifications
  import Users

  /**
   * The fields of a post document the comment routes read or write. The
   * owner's id and email are compared with `===`, so they are `Text`s.
   */
  datatype PostDoc = PostDoc(userId: Text, userEmail: Text, text: Option<string>, comments: seq<Comment>)

  /** The body of `POST /socialPost/:postId/replies`. */
  datatype ReplyBody = ReplyBody(
    commentId: Option<string>,
    parentReplyId: Option<string>,
    authorName: Option<string>,
    authorEmail: Text,
    authorPhoto: Option<string>,
    text: string,
    senderId: Option<string>)

  /** The body of `POST /socialPost/:id/comments`. */
  datatype CommentBody = CommentBody(
    userName: Option<string>,
    text: string,
    authorEmail: Text,
    authorPhoto: Option<string>,
    senderId: Text)

  /**
   * A new comment or reply as the database stores it: the driver writes an
   * `undefined` author email as `null`. (Its other optional fields are
   * modelled as None either way.)
   */
  function Persisted(c: Comment): (p: Comment)
    ensures p.authorEmail != Undefined
    ensures c.authorEmail != Undefined ==> p == c
    ensures p.(authorEmail := c.authorEmail) == c
  {
    c.(authorEmail := Stored(c.authorEmail))
  }

  // ---------------------------------------------------------------------------
  // Top-level comments
  // ---------------------------------------------------------------------------

  /** The position of the first top-level comment with the id, or |cs| when there is none. */
  function CommentIndex(cs: seq<Comment>, commentId: Option<string>): (k: nat)
    ensures k <= |cs|
    ensures k < |cs| ==> Some(cs[k].id) == commentId
    ensures forall j :: 0 <= j < k ==> Some(cs[j].id) != commentId
  {
    if cs == [] then 0
    else if Some(cs[0].id) == commentId then 0
    else 1 + CommentIndex(cs[1..], commentId)
  }

  /** `comments.find(c => c._id.toString() === commentId)`: the first top-level comment with that id. */
  function FindComment(cs: seq<Comment>, commentId: Option<string>): (r: Option<Comment>)
    ensures r.None? <==> forall i :: 0 <= i < |cs| ==> Some(cs[i].id) != commentId
    ensures r.Some? ==> CommentIndex(cs, commentId) < |cs| && r.value == cs[CommentIndex(cs, commentId)]
  {
    var k := CommentIndex(cs, commentId);
    if k < |cs| then Some(cs[k]) else None
  }

  /**
   * The positional update `comments.$.text`: the first top-level comment with
   * the id gets the new text; nothing else changes.
   */
  function SetFirstText(cs: seq<Comment>, commentId: string, text: string): (r: seq<Comment>)
    ensures |r| == |cs|
    ensures forall i :: 0 <= i < |cs| ==>
      r[i] == if i == CommentIndex(cs, Some(commentId)) then cs[i].(text := text) else cs[i]
  {
    if cs == [] then []
    else if cs[0].id == commentId then [cs[0].(text := text)] + cs[1..]
    else [cs[0]] + SetFirstText(cs[1..], commentId, text)
  }

  /**
   * `$pull` of the comments with the id: all of them go, and every other
   * comment stays, as often as it was there and in its order.
   */
  function PullComment(cs: seq<Comment>, commentId: string): (r: seq<Comment>)
    ensures forall c :: c in r <==> c in cs && c.id != commentId
    ensures forall c: Comment :: c.id != commentId ==> multiset(r)[c] == multiset(cs)[c]
    ensures IsSubsequence(r, cs)
    ensures |r| <= |cs|
    ensures (forall i :: 0 <= i < |cs| ==> cs[i].id != commentId) ==> r == cs
  {
    if cs == [] then []
    else
      var rest := PullComment(cs[1..], commentId);
      assert [cs[0]] + cs[1..] == cs;
      if cs[0].id == commentId then
        SubsequenceCons(rest, cs[1..], cs[0]);
        rest
      else
        assert ([cs[0]] + rest)[1..] == rest;
        [cs[0]] + rest
  }

  /** The edit check: the caller's email is `===` to the comment's author email. */
  predicate MayEdit(c: Comment, userEmail: Text)
  {
    c.authorEmail == userEmail
  }

  /** The delete check: the caller is the comment's author or the post's owner, by email. */
  predicate MayDelete(post: PostDoc, c: Comment, userEmail: Text)
  {
    c.authorEmail == userEmail || post.userEmail == userEmail
  }

  /**
   * The checks compare emails with strict equality, so a request that sends
   * no email passes them for a comment document that has no `authorEmail`
   * field at all.
   */
  lemma UnsignedCommentOpenToAnonymous(post: PostDoc, c: Comment)
    requires c.authorEmail == Undefined
    ensures MayEdit(c, Undefined) && MayDelete(post, c, Undefined)
  {
  }

  /**
   * A comment added without an author email is stored with a `null` one, so a
   * later request without an email fails the author check (`null !==
   * undefined`), while a request that sends `null` as its email passes it.
   * Deleting it without an email is allowed only when the post has no
   * `userEmail` field either.
   */
  lemma EmaillessCommentStoredAsNull(post: PostDoc, id: string, body: CommentBody, now: nat)
    requires body.authorEmail == Undefined
    ensures var c := Persisted(NewComment(id, body, now));
      && c.authorEmail == Null
      && !MayEdit(c, Undefined) && MayEdit(c, Null)
      && (MayDelete(post, c, Undefined) <==> post.userEmail == Undefined)
  {
  }

  /** The comment `POST /socialPost/:id/comments` pushes. */
  function NewComment(id: string, body: CommentBody, now: nat): (c: Comment)
    ensures c.id == id && c.text == body.text && c.createdAt == now && c.replies == Present([])
    ensures c.authorName == if Truthy(body.userName) then body.userName else Some("Unknown")
    ensures c.authorEmail == body.authorEmail && c.authorPhoto == body.authorPhoto
  {
    Comment(id, if Truthy(body.userName) then body.userName else Some("Unknown"), body.authorEmail, body.authorPhoto, body.text, now, Present([]))
  }

  /** The reply document both reply routes build. */
  function NewReply(id: string, body: ReplyBody, now: nat): (c: Comment)
    ensures c.id == id && c.text == body.text && c.createdAt == now && c.replies == Present([])
    ensures c.authorName == body.authorName && c.authorEmail == body.authorEmail && c.authorPhoto == body.authorPhoto
  {
    Comment(id, body.authorName, body.authorEmail, body.authorPhoto, body.text, now, Present([]))
  }

  /**
   * The comments after the add-reply route: with a truthy `parentReplyId` the
   * reply goes under every reply with that id inside the comment `commentId`;
   * otherwise it goes at the end of that comment's replies.
   */
  function WithReply(cs: seq<Comment>, body: ReplyBody, nr: Comment): (r: seq<Comment>)
    ensures |r| == |cs|
    ensures forall i :: 0 <= i < |cs| && Some(cs[i].id) != body.commentId ==> r[i] == cs[i]
    ensures forall i :: 0 <= i < |cs| ==> Strip(r[i]) == Strip(cs[i])
    ensures !Truthy(body.parentReplyId) ==>
      forall i :: 0 <= i < |cs| && Some(cs[i].id) == body.commentId ==> Kids(r[i]) == Kids(cs[i]) + [nr]
    ensures Truthy(body.parentReplyId) ==>
      forall i :: 0 <= i < |cs| && Some(cs[i].id) == body.commentId ==>
        Kids(r[i]) == AddNestedReplyRecursive(Kids(cs[i]), body.parentReplyId.value, nr)
  {
    match body.commentId
    case None => cs
    case Some(cid) =>
      if Truthy(body.parentReplyId) then
        AddNestedReply(cs, cid, body.parentReplyId.value, nr)
      else AddTopLevelReply(cs, cid, nr)
  }

  /**
   * A reply under a nested reply lands exactly where the reply tree says: in
   * the target comment (whose replies sit at depth 1), the reply becomes the
   * last child of every reply with id `parentReplyId` that no such reply
   * encloses (the first one in preorder included), every other reply keeps
   * its place and depth, and deleting the new reply (whose id is new) gives
   * back the old replies; with unique ids it is added once when the parent
   * exists.
   */
  lemma NestedReplyLandsUnderParent(cs: seq<Comment>, body: ReplyBody, nr: Comment, i: nat)
    requires Truthy(body.parentReplyId) && i < |cs| && Some(cs[i].id) == body.commentId
    ensures var kids := Kids(WithReply(cs, body, nr)[i]);
      && Preorder(kids) == Grafted(Kids(cs[i]), body.parentReplyId.value, nr)
      && Outline(kids, 1) == GraftedOutline(Kids(cs[i]), body.parentReplyId.value, nr, 1)
      && IsSubsequence(Preorder(Kids(cs[i])), Preorder(kids))
      && FindNode(kids, body.parentReplyId.value) ==
        (match FindNode(Kids(cs[i]), body.parentReplyId.value)
         case Some(n) => Some(n.(replies := Present(Kids(n) + [nr])))
         case None => None)
      && (!ContainsId(Kids(cs[i]), nr.id) ==>
            DeleteReply(kids, nr.id) == Normalized(Kids(cs[i])) && Pruned(kids, nr.id) == Preorder(Kids(cs[i])))
      && (UniqueIds(Kids(cs[i])) && ContainsId(Kids(cs[i]), body.parentReplyId.value) ==>
            multiset(Preorder(kids)) == multiset(Preorder(Kids(cs[i]))) + multiset(PreorderNode(nr)))
  {
    var t := body.parentReplyId.value;
    AddNestedReplyPreorder(Kids(cs[i]), t, nr, 1);
    AddNestedReplyKeepsNodes(Kids(cs[i]), t, nr);
    AddNestedReplyAppendsToParent(Kids(cs[i]), t, nr);
    if !ContainsId(Kids(cs[i]), nr.id) {
      AddNestedReplyUndone(Kids(cs[i]), t, nr);
    }
    if UniqueIds(Kids(cs[i])) {
      AddNestedReplyAddsOnce(Kids(cs[i]), t, nr);
    }
  }

  /** The reply notification: to the comment's author, unless the replier signs with the same email. */
  function ReplyNotice(recipient: string, postId: string, post: PostDoc, body: ReplyBody): (n: Notifications.Notification)
    ensures n.recipientId == Some(recipient) && n.senderId == body.senderId && n.ntype == Some("reply")
    ensures n.postId == Some(postId) && n.postText == post.text && n.commentText == Some(body.text)
    ensures n.senderName == body.authorName
  {
    Notifications.Notification(Some(recipient), body.senderId, body.authorName, body.authorPhoto, Some(postId),
      post.text, Some("reply"), None, Some(body.text), None, None)
  }

  /** The comment notification: to the post's owner, unless the commenter is the owner. */
  function CommentNotice(postId: string, post: PostDoc, body: CommentBody): (n: Notifications.Notification)
    ensures n.recipientId == ToOption(post.userId) && n.senderId == ToOption(body.senderId) && n.ntype == Some("comment")
    ensures n.postId == Some(postId) && n.postText == post.text && n.commentText == Some(body.text)
    ensures n.senderName == body.userName
  {
    Notifications.Notification(ToOption(post.userId), ToOption(body.senderId), body.userName, body.authorPhoto, Some(postId),
      post.text, Some("comment"), None, Some(body.text), None, None)
  }

  /**
   * `findOne({ email })` matches a user: a string matches the same email; the
   * driver sends `undefined` as `null`, and `null` matches a user whose email
   * is `null` or missing.
   */
  predicate EmailQueryMatches(u: Users.User, email: Text)
  {
    match email
    case Str(s) => u.email == Some(s)
    case _ => u.email.None?
  }

  /** The posts collection, reduced to the fields above, and the collections the routes notify through. */
  class PostBoard {
    var posts: map<string, PostDoc>
    const inbox: Notifications.NotificationStore
    const people: Users.UserStore

    constructor (posts: map<string, PostDoc>, inbox: Notifications.NotificationStore, people: Users.UserStore)
      ensures this.posts == posts && this.inbox == inbox && this.people == people
    {
      this.posts := posts;
      this.inbox := inbox;
      this.people := people;
    }

    /**
     * `POST /socialPost/:id/comments`: push a new comment ("Unknown" for a
     * falsy name) and notify the post's owner unless the sender is the owner
     * under `===`. The response carries the comment as built; the database
     * holds it as `Persisted` states.
     */
    method AddComment(postId: string, body: CommentBody, newId: string, now: nat) returns (r: Result<Comment>)
      modifies this, inbox
      ensures postId !in old(posts) ==> r == Err(NotFound("Post not found")) && posts == old(posts) && inbox.notifications == old(inbox.notifications)
      ensures postId in old(posts) ==>
        var post := old(posts)[postId];
        && r == Ok(NewComment(newId, body, now))
        && posts == old(posts)[postId := post.(comments := post.comments + [Persisted(NewComment(newId, body, now))])]
        && inbox.notifications == old(inbox.notifications) + (if post.userId != body.senderId then [CommentNotice(postId, post, body)] else [])
    {
      if postId !in posts {
        return Err(NotFound("Post not found"));
      }
      var post := posts[postId];
      var c := NewComment(newId, body, now);
      posts := posts[postId := post.(comments := post.comments + [Persisted(c)])];
      if post.userId != body.senderId {
        inbox.Insert(CommentNotice(postId, post, body));
      }
      return Ok(c);
    }

    /**
     * `POST /socialPost/:postId/replies`: add the reply, then notify the
     * comment's author (looked up by email) when the replier's email differs.
     */
    method AddReply(postId: string, body: ReplyBody, newId: string, now: nat) returns (r: Result<Comment>)
      modifies this, inbox
      ensures postId !in old(posts) ==> r == Err(NotFound("Post not found")) && posts == old(posts) && inbox.notifications == old(inbox.notifications)
      ensures postId in old(posts) ==>
        var post := old(posts)[postId];
        var nr := NewReply(newId, body, now);
        && r == Ok(nr)
        && posts == old(posts)[postId := post.(comments := WithReply(post.comments, body, Persisted(nr)))]
      ensures postId in old(posts) ==>
        var post := old(posts)[postId];
        var original := FindComment(post.comments, body.commentId);
        var notify := original.Some? && original.value.authorEmail != body.authorEmail
          && exists u :: u in people.users.Values && EmailQueryMatches(u, original.value.authorEmail);
        && (!notify ==> inbox.notifications == old(inbox.notifications))
        && (notify ==>
              exists u :: u in people.users.Values && EmailQueryMatches(u, original.value.authorEmail)
                && inbox.notifications == old(inbox.notifications) + [ReplyNotice(u.uid, postId, post, body)])
    {
      if postId !in posts {
        return Err(NotFound("Post not found"));
      }
      var post := posts[postId];
      var nr := NewReply(newId, body, now);
      var updated := WithReply(post.comments, body, nr);
      posts := posts[postId := post.(comments := WithReply(post.comments, body, Persisted(nr)))];
      var original := FindComment(updated, body.commentId);
      FindCommentStripped(post.comments, updated, body.commentId);
      if original.Some? && original.value.authorEmail != body.authorEmail {
        var email := original.value.authorEmail;
        if exists u :: u in people.users.Values && EmailQueryMatches(u, email) {
          var author :| author in people.users.Values && EmailQueryMatches(author, email);
          inbox.Insert(ReplyNotice(author.uid, postId, post, body));
        }
      }
      return Ok(nr);
    }

    /**
     * `POST /socialPost/:postId/replies/:replyId`: the helper it calls is not
     * defined anywhere, so after the post lookup the call always fails and
     * nothing is stored.
     */
    method AddReplyToReply(postId: string) returns (r: Result<Comment>)
      ensures postId !in posts ==> r == Err(NotFound("Post not found"))
      ensures postId in posts ==> r == Err(ServerError("Failed to add nested reply"))
    {
      if postId !in posts {
        return Err(NotFound("Post not found"));
      }
      return Err(ServerError("Failed to add nested reply"));
    }

    /**
     * The nested-reply route as its body evidently intends it: the new reply
     * becomes the last child of every node with id `replyId` that no such node
     * encloses, at any depth of the post's thread, and goes nowhere else;
     * every other node keeps its place and depth, deleting the new reply
     * gives back the old thread, and with unique ids the reply is added once
     * when its parent exists.
     */
    method AddReplyUnderReply(postId: string, replyId: string, body: ReplyBody, newId: string, now: nat) returns (r: Result<Comment>)
      modifies this
      ensures postId !in old(posts) ==> r == Err(NotFound("Post not found")) && posts == old(posts)
      ensures postId in old(posts) ==>
        var post := old(posts)[postId];
        var nr := NewReply(newId, body, now);
        var stored := Persisted(nr);
        && r == Ok(nr)
        && posts == old(posts)[postId := post.(comments := AddNestedReplyRecursive(post.comments, replyId, stored))]
        && Preorder(posts[postId].comments) == Grafted(post.comments, replyId, stored)
        && Outline(posts[postId].comments, 0) == GraftedOutline(post.comments, replyId, stored, 0)
        && IsSubsequence(Preorder(post.comments), Preorder(posts[postId].comments))
        && FindNode(posts[postId].comments, replyId) ==
          (match FindNode(post.comments, replyId)
           case Some(n) => Some(n.(replies := Present(Kids(n) + [stored])))
           case None => None)
        && (!ContainsId(post.comments, newId) ==>
              DeleteReply(posts[postId].comments, newId) == Normalized(post.comments) &&
              Pruned(posts[postId].comments, newId) == Preorder(post.comments))
        && (UniqueIds(post.comments) && ContainsId(post.comments, replyId) ==>
              multiset(Preorder(posts[postId].comments)) == multiset(Preorder(post.comments)) + multiset(PreorderNode(stored)))
    {
      if postId !in posts {
        return Err(NotFound("Post not found"));
      }
      var post := posts[postId];
      var nr := NewReply(newId, body, now);
      var stored := Persisted(nr);
      AddNestedReplyPreorder(post.comments, replyId, stored, 0);
      AddNestedReplyKeepsNodes(post.comments, replyId, stored);
      AddNestedReplyAppendsToParent(post.comments, replyId, stored);
      if !ContainsId(post.comments, newId) {
        AddNestedReplyUndone(post.comments, replyId, stored);
      }
      if UniqueIds(post.comments) {
        AddNestedReplyAddsOnce(post.comments, replyId, stored);
      }
      posts := posts[postId := post.(comments := AddNestedReplyRecursive(post.comments, replyId, stored))];
      return Ok(nr);
    }

    /** `DELETE /socialPost/:postId/replies/:replyId`: remove every node with the id, at any depth. */
    method DeleteReplyRoute(postId: string, replyId: string) returns (r: Result<bool>)
      modifies this
      ensures postId !in old(posts) ==> r == Err(NotFound("Post not found")) && posts == old(posts)
      ensures postId in old(posts) ==>
        var post := old(posts)[postId];
        && r == Ok(true)
        && posts == old(posts)[postId := post.(comments := DeleteReply(post.comments, replyId))]
        && !ContainsId(posts[postId].comments, replyId)
    {
      if postId !in posts {
        return Err(NotFound("Post not found"));
      }
      var post := posts[postId];
      DeleteReplyRemovesTarget(post.comments, replyId);
      posts := posts[postId := post.(comments := DeleteReply(post.comments, replyId))];
      return Ok(true);
    }

    /** `PUT /socialPost/:postId/replies/:replyId`: edit the node's text if the caller is its author. */
    method EditReplyRoute(postId: string, replyId: string, text: string, authorEmail: Text) returns (r: Result<bool>)
      modifies this
      ensures postId !in old(posts) ==> r == Err(NotFound("Post not found")) && posts == old(posts)
      ensures postId in old(posts) ==>
        var post := old(posts)[postId];
        && r == Ok(true)
        && posts == old(posts)[postId := post.(comments := UpdateReply(post.comments, replyId, text, authorEmail))]
        && SameShape(posts[postId].comments, post.comments)
    {
      if postId !in posts {
        return Err(NotFound("Post not found"));
      }
      var post := posts[postId];
      UpdateReplySameShape(post.comments, replyId, text, authorEmail);
      posts := posts[postId := post.(comments := UpdateReply(post.comments, replyId, text, authorEmail))];
      return Ok(true);
    }

    /**
     * `PUT /socialPost/:postId/comment/:commentId`: 404 for an unknown
     * comment, 403 unless the caller's email is the comment's author email,
     * otherwise the first comment with the id gets the new text. The route
     * has no error handler: an unknown post leaves the request unanswered,
     * modelled as a server error that changes nothing.
     */
    method EditComment(postId: string, commentId: string, text: string, userEmail: Text) returns (r: Result<bool>)
      modifies this
      ensures postId !in old(posts) ==> r.Err? && r.error.ServerError? && posts == old(posts)
      ensures postId in old(posts) ==>
        var post := old(posts)[postId];
        var c := FindComment(post.comments, Some(commentId));
        && (c.None? ==> r == Err(NotFound("Comment not found")) && posts == old(posts))
        && (c.Some? && !MayEdit(c.value, userEmail) ==> r == Err(Forbidden("Not authorized")) && posts == old(posts))
        && (c.Some? && MayEdit(c.value, userEmail) ==>
              r == Ok(true) && posts == old(posts)[postId := post.(comments := SetFirstText(post.comments, commentId, text))])
    {
      if postId !in posts {
        return Err(ServerError("no response"));
      }
      var post := posts[postId];
      var c := FindComment(post.comments, Some(commentId));
      if c.None? {
        return Err(NotFound("Comment not found"));
      }
      if !MayEdit(c.value, userEmail) {
        return Err(Forbidden("Not authorized"));
      }
      posts := posts[postId := post.(comments := SetFirstText(post.comments, commentId, text))];
      return Ok(true);
    }

    /**
     * `DELETE /socialPost/:postId/comment/:commentId`: 404 for an unknown post
     * or comment, 403 unless the caller is the comment's author or the post's
     * owner, otherwise every top-level comment with the id is pulled.
     */
    method DeleteComment(postId: string, commentId: string, userEmail: Text) returns (r: Result<string>)
      modifies this
      ensures postId !in old(posts) ==> r == Err(NotFound("Post not found")) && posts == old(posts)
      ensures postId in old(posts) ==>
        var post := old(posts)[postId];
        var c := FindComment(post.comments, Some(commentId));
        && (c.None? ==> r == Err(NotFound("Comment not found")) && posts == old(posts))
        && (c.Some? && !MayDelete(post, c.value, userEmail) ==> r == Err(Forbidden("Not authorized to delete comment")) && posts == old(posts))
        && (c.Some? && MayDelete(post, c.value, userEmail) ==>
              r == Ok(commentId) && posts == old(posts)[postId := post.(comments := PullComment(post.comments, commentId))])
    {
      if postId !in posts {
        return Err(NotFound("Post not found"));
      }
      var post := posts[postId];
      var c := FindComment(post.comments, Some(commentId));
      if c.None? {
        return Err(NotFound("Comment not found"));
      }
      if !MayDelete(post, c.value, userEmail) {
        return Err(Forbidden("Not authorized to delete comment"));
      }
      posts := posts[postId := post.(comments := PullComment(post.comments, commentId))];
      return Ok(commentId);
    }
  }

  /** Adding a reply changes no top-level comment's own fields, so the comment found before is found after, minus its replies. */
  lemma {:induction false} FindCommentStripped(cs: seq<Comment>, r: seq<Comment>, commentId: Option<string>)
    requires |r| == |cs| && forall i :: 0 <= i < |cs| ==> Strip(r[i]) == Strip(cs[i])
    ensures CommentIndex(r, commentId) == CommentIndex(cs, commentId)
    ensures FindComment(r, commentId).Some? <==> FindComment(cs, commentId).Some?
    ensures FindComment(r, commentId).Some? ==> Strip(FindComment(r, commentId).value) == Strip(FindComment(cs, commentId).value)
    decreases cs
  {
    if cs != [] {
      assert Strip(r[0]).id == r[0].id && Strip(cs[0]).id == cs[0].id;
      FindCommentStripped(cs[1..], r[1..], commentId);
    }
  }

  /**
   * Editing a comment touches only the first comment with the id, and only
   * its text: the list keeps its length, ids, authors and replies.
   */
  lemma EditCommentKeepsThread(cs: seq<Comment>, commentId: string, text: string)
    ensures var r := SetFirstText(cs, commentId, text);
      && |r| == |cs|
      && forall i :: 0 <= i < |cs| ==> r[i].(text := cs[i].text) == cs[i]
    ensures FindComment(cs, Some(commentId)).Some? ==>
      FindComment(SetFirstText(cs, commentId, text), Some(commentId)) == Some(FindComment(cs, Some(commentId)).value.(text := text))
  {
    var r := SetFirstText(cs, commentId, text);
    if FindComment(cs, Some(commentId)).Some? {
      var k := CommentIndex(cs, Some(commentId));
      assert r[k] == cs[k].(text := text);
      assert forall j :: 0 <= j < k ==> r[j] == cs[j];
      FindCommentAt(r, Some(commentId), k);
    }
  }

  lemma {:induction false} FindCommentAt(cs: seq<Comment>, commentId: Option<string>, k: nat)
    requires k < |cs| && Some(cs[k].id) == commentId
    requires forall j :: 0 <= j < k ==> Some(cs[j].id) != commentId
    ensures CommentIndex(cs, commentId) == k
    decreases k
  {
    if k > 0 {
      FindCommentAt(cs[1..], commentId, k - 1);
    }
  }

  /**
   * Deleting a comment is idempotent: a second delete of the same id finds nothing to delete.
   */
  lemma DeleteCommentOnce(cs: seq<Comment>, commentId: string)
    ensures PullComment(PullComment(cs, commentId), commentId) == PullComment(cs, commentId)
    ensures FindComment(PullComment(cs, commentId), Some(commentId)).None?
  {
    var r := PullComment(cs, commentId);
    assert forall i :: 0 <= i < |r| ==> r[i] in r;
  }
}

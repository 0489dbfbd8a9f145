/**
 * Notifications: the message text chosen by notification type, the rules of
 * `POST /notifications` (no self-notification, `postText` cut to 100
 * characters, defaults for missing texts) and the notifications collection
 * that route and the follow handler insert into.
 */
module Notifications {
  import opened Wrappers

  /**
   * A value interpolated into a template string: `undefined` and `null` print
   * as those words, a string prints as itself.
   */
  function Display(t: Text): (r: string)
    ensures t.Str? ==> r == t.s
  {
    match t
    case Undefined => "undefined"
    case Null => "null"
    case Str(s) => s
  }

  /**
   * A stored notification. The follow, comment and reply handlers store their
   * documents as given, without a message, read flag or time. A field the
   * handler left `undefined` is stored as `null`, so a stored field is a
   * string or None.
   */
  datatype Notification = Notification(
    recipientId: Option<string>,
    senderId: Option<string>,
    senderName: Option<string>,
    senderPhoto: Option<string>,
    postId: Option<string>,
    postText: Option<string>,
    ntype: Option<string>,
    message: Option<string>,
    commentText: Option<string>,
    isRead: Option<bool>,
    createdAt: Option<nat>)

  /**
   * The fields of a `POST /notifications` body. The two ids are compared with
   * `===` and the name is printed, so for those three `null` and a missing
   * field are told apart; for the others a missing field is None.
   */
  datatype NotificationBody = NotificationBody(
    recipientId: Text,
    senderId: Text,
    senderName: Text,
    senderPhoto: Option<string>,
    postId: Option<string>,
    postText: Option<string>,
    ntype: Option<string>,
    commentText: Option<string>)

  datatype Outcome = SelfSkipped | Created(notification: Notification)

  /** The number of UTF-16 code units `substring(0, 100)` keeps at most. */
  const MaxPostText: nat := 100

  /**
   * The UTF-16 code units JavaScript uses for a character: two (a surrogate
   * pair) for a character outside the Basic Multilingual Plane, one otherwise.
   */
  function Units(c: char): (n: nat)
    ensures 1 <= n <= 2
  {
    if c as int > 0xFFFF then 2 else 1
  }

  /** The `length` of a JavaScript string: its count of UTF-16 code units. */
  function Utf16Length(s: string): (n: nat)
    ensures |s| <= n <= 2 * |s|
  {
    if s == [] then 0 else Units(s[0]) + Utf16Length(s[1..])
  }

  /**
   * The longest prefix of `s` that fits in `budget` UTF-16 code units. A
   * character whose surrogate pair straddles the limit is left out whole.
   */
  function CutUnits(s: string, budget: nat): (r: string)
    ensures r <= s
    ensures Utf16Length(r) <= budget
    ensures r == s || Utf16Length(r) + Units(s[|r|]) > budget
    ensures Utf16Length(s) <= budget ==> r == s
  {
    if s == [] || Units(s[0]) > budget then []
    else [s[0]] + CutUnits(s[1..], budget - Units(s[0]))
  }

  /**
   * The wording after the sender's name: the `switch` of
   * `generateNotificationMessage`, five types with their own text and a
   * generic one for every other type.
   */
  function Phrase(ntype: Option<string>): (r: string)
    ensures |r| > 0
    ensures ntype == Some("like") ==> r == "liked your post"
    ensures ntype == Some("comment") ==> r == "commented on your post"
    ensures ntype == Some("reply") ==> r == "replied to your comment"
    ensures ntype == Some("follow") ==> r == "started following you"
    ensures ntype == Some("share") ==> r == "shared your post"
    ensures !KnownType(ntype) ==> r == "interacted with your post"
  {
    if ntype == Some("like") then "liked your post"
    else if ntype == Some("comment") then "commented on your post"
    else if ntype == Some("reply") then "replied to your comment"
    else if ntype == Some("follow") then "started following you"
    else if ntype == Some("share") then "shared your post"
    else "interacted with your post"
  }

  /** The five types with their own wording. */
  predicate KnownType(ntype: Option<string>)
  {
    ntype == Some("like") || ntype == Some("comment") || ntype == Some("reply") || ntype == Some("follow") || ntype == Some("share")
  }

  /**
   * `generateNotificationMessage` as it takes effect: the last of its three
   * declarations, which knows all five types. The template prints the
   * sender's name (or `undefined`/`null`), a space and the type's wording;
   * the comment text is accepted and unused.
   */
  function GenerateMessage(ntype: Option<string>, senderName: Text, commentText: Option<string>): (r: string)
    ensures |r| > |Display(senderName)| + 1
    ensures r[..|Display(senderName)| + 1] == Display(senderName) + " "
    ensures r[|Display(senderName)| + 1..] == Phrase(ntype)
  {
    var prefix := Display(senderName) + " ";
    assert (prefix + Phrase(ntype))[..|prefix|] == prefix;
    assert (prefix + Phrase(ntype))[|prefix|..] == Phrase(ntype);
    prefix + Phrase(ntype)
  }

  /**
   * Different types produce different messages for the same sender, except
   * that every type without its own wording shares the generic one.
   */
  lemma MessageTellsTypesApart(t1: Option<string>, t2: Option<string>, senderName: Text, c1: Option<string>, c2: Option<string>)
    requires t1 != t2 && (KnownType(t1) || KnownType(t2))
    ensures GenerateMessage(t1, senderName, c1) != GenerateMessage(t2, senderName, c2)
  {
  }

  /**
   * `postText ? postText.substring(0, 100) : ""`: a truthy text keeps its
   * longest prefix of at most 100 UTF-16 code units, the whole text when it
   * is that short; a falsy one becomes "".
   */
  function TrimPostText(postText: Option<string>): (r: string)
    ensures Utf16Length(r) <= MaxPostText
    ensures Truthy(postText) ==> r <= postText.value
    ensures Truthy(postText) ==> r == postText.value || Utf16Length(r) + Units(postText.value[|r|]) > MaxPostText
    ensures Truthy(postText) && Utf16Length(postText.value) <= MaxPostText ==> r == postText.value
    ensures !Truthy(postText) ==> r == ""
  {
    if Truthy(postText) then CutUnits(postText.value, MaxPostText) else ""
  }

  /**
   * `POST /notifications`: skipped when recipient and sender are the same
   * value under `===` (both missing included, but not `null` against a
   * missing id); otherwise the stored notification has the sender's data
   * (`undefined` stored as `null`), the trimmed post text, the generated
   * message, the comment text or "", `isRead = false` and the time of the
   * request.
   */
  function CreateNotification(body: NotificationBody, now: nat): (r: Outcome)
    ensures r.SelfSkipped? <==> body.recipientId == body.senderId
    ensures r.Created? ==>
      var n := r.notification;
      && n.recipientId == ToOption(body.recipientId) && n.senderId == ToOption(body.senderId)
      && n.senderName == ToOption(body.senderName) && n.senderPhoto == body.senderPhoto
      && n.postId == body.postId && n.ntype == body.ntype
      && n.postText == Some(TrimPostText(body.postText))
      && n.message == Some(GenerateMessage(body.ntype, body.senderName, body.commentText))
      && n.commentText == (if Truthy(body.commentText) then body.commentText else Some(""))
      && n.isRead == Some(false) && n.createdAt == Some(now)
  {
    if body.recipientId == body.senderId then SelfSkipped
    else
      Created(Notification(
        ToOption(body.recipientId), ToOption(body.senderId), ToOption(body.senderName), body.senderPhoto, body.postId,
        Some(TrimPostText(body.postText)), body.ntype,
        Some(GenerateMessage(body.ntype, body.senderName, body.commentText)),
        if Truthy(body.commentText) then body.commentText else Some(""),
        Some(false), Some(now)))
  }

  /** The notifications collection. */
  class NotificationStore {
    var notifications: seq<Notification>

    constructor ()
      ensures notifications == []
    {
      notifications := [];
    }

    /** `createNotification`: store the document exactly as given. */
    method Insert(n: Notification)
      modifies this
      ensures notifications == old(notifications) + [n]
    {
      notifications := notifications + [n];
    }

    /** The route: store the notification unless it is a self-notification. */
    method Post(body: NotificationBody, now: nat) returns (r: Outcome)
      modifies this
      ensures r == CreateNotification(body, now)
      ensures r.SelfSkipped? ==> notifications == old(notifications)
      ensures r.Created? ==> notifications == old(notifications) + [r.notification]
    {
      r := CreateNotification(body, now);
      if r.Created? {
        notifications := notifications + [r.notification];
      }
    }
  }
}

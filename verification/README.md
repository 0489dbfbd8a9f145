# Social server core in Dafny

This project models the core of a social-network server written in
JavaScript on Express, MongoDB and Socket.IO:

- **Real-time chat** (`chat.js`):
  - the registry of connected users, a map from user id to socket id in insertion order;
  - the send pipeline: persist, deliver to the receiver if connected, acknowledge to the sender;
  - the typing indicator;
  - read receipts, over the socket and over `PUT /messages/read`;
  - disconnect handling;
  - the two derived queries: the message history of a pair of users and the conversation summaries of one user.
- **The social parts of `index.js`**:
  - creating users, reading a user and updating profile details;
  - the follow/unfollow toggle, which keeps the target's `followers` list and the caller's `following` list in step;
  - the feed and profile post filters;
  - the reaction toggle of a post;
  - the notification rules;
  - the comment and reply routes over the recursive reply tree, with their author checks.

Pure computations are Dafny functions. Handlers that change stored state are
methods of small classes, one per store:

| class | stores |
|---|---|
| `ChatServer.Server` | the registry, the message log and the emitted events |
| `Users.UserStore` | users |
| `Reactions.PostStore` | reaction lists |
| `Comments.PostBoard` | comment threads |
| `Notifications.NotificationStore` | notifications |

Each method is specified by the functions of its module, and the properties
of those functions are proved as lemmas.

What the environment supplies is passed in as a parameter:

- `now` is the clock;
- `newId` is a freshly generated ObjectId;
- `validId` is the answer of `ObjectId.isValid`;
- `insertOk` and `updateOk` are the outcomes of database writes.

Emitted socket events are appended to an `outbox` sequence.

Some JavaScript semantics are modelled explicitly:

- `Wrappers.Text` (`Undefined`, `Null` or a string) models a value that the
  code compares with `===`, so `undefined` and `null` are told apart there.
  `Wrappers.Stored` is what the MongoDB driver writes for a value the handler
  set: `undefined` becomes `null`. Elsewhere `Option` stands for a value that
  may be absent.
- `Wrappers.Truthy` models a falsy test on a string.
- `$pull` removes every occurrence. `$addToSet` appends only when the value is absent.
- A `replies` field that is missing is told apart from an empty list.
- A template prints a missing name as `undefined` and a `null` as `null`.

The reply-tree helpers are specified against reference views of a thread.
`ReplyTree.Preorder` lists every node, parents before children. The depth
listing `ReplyTree.Outline` also records each node's depth, and
`ReplyTree.OutlineDetermines` proves that it fixes the thread up to reading a
missing reply list as empty. The add and delete helpers are stated as edits of
that listing (`GraftedOutline`, `PrunedOutline`), so they pin down the nesting
and not only the order.

`chat.js` registers the `send_message` handler twice, so each send is stored
and delivered twice. The model follows the code: `DispatchSendMessage` runs
both handlers. A design that treats the duplicate registration as a defect
and runs it once is `SendMessage` on its own.

`generateNotificationMessage` is declared more than once in `index.js`. The
last declaration is the one in effect, and it is the one modelled.

## Model

| member | source | states |
|---|---|---|
| ChatLog.PairMessages | chat.js:58-62 | a message is kept exactly when it is in the log and goes from either user of the pair to the other |
| ChatLog.SortByCreatedAt | chat.js:63 | the result is sorted by creation time and is a permutation of its input |
| ChatLog.History | chat.js:55-69 | the history of a pair is sorted by creation time, is a permutation of the pair's messages and holds exactly the messages between the two |
| ChatLog.HistorySymmetric | chat.js:58-62 | the history of (a, b) equals the history of (b, a) |
| ChatLog.HistoryAfterAppend | chat.js:157-168 | storing a message adds it to the history of its own pair, as a multiset, and leaves every other pair's history exactly as it was |
| ChatLog.MarkRead | chat.js:77-80 | length and content are kept; exactly the unread messages from `other` to `reader` become read, with `readAt` = now; all other messages are unchanged |
| ChatLog.MarkReadLeavesNoUnread | chat.js:77-80 | after marking, no message from `other` to `reader` is unread |
| ChatLog.MarkReadIdempotent | chat.js:77-80 | marking a second time, at any later time, changes nothing |
| ChatLog.Group | chat.js:94-100 | a group holds exactly the user's messages whose counterpart is the group key |
| ChatLog.Latest | chat.js:95-101 | the chosen message is in the group and no message of the group is newer |
| ChatLog.Conversations | chat.js:90-134 | one summary per counterpart that exchanged a message with the user and has a user document; its last message is between the two and is the newest such message |
| ChatLog.GroupIsPair | chat.js:94-100 | the group of counterpart c is exactly the pair history filter for (uid, c) |
| ChatLog.ConversationAgreesWithHistory | chat.js:90-134 | a summary's unread count equals the unread messages to the user in the pair's history, and its last message is as new as the history's last entry |
| ChatLog.MarkReadClearsConversation | chat.js:77-107 | after the user marks a counterpart's messages read, that conversation's unread count is 0 |
| ChatRegistry.Get | chat.js:171 | `get` yields nothing exactly when no entry has the user id; a yielded socket is bound to that user |
| ChatRegistry.IndexOfSocket | chat.js:258-259 | the position of the first entry bound to the socket, or the length when there is none |
| ChatRegistry.SetEffect | chat.js:145-147 | `set` keeps user ids unique, binds the user to the new socket, leaves every other user's binding alone, and keeps the insertion order (or appends a new user) |
| ChatRegistry.RemoveFirstWithSocketEffect | chat.js:257-264 | the disconnect loop removes exactly the first entry bound to the socket, or nothing when there is none |
| ChatRegistry.RemoveAtEffect | chat.js:260 | deleting one entry keeps ids unique, unbinds its user and leaves every other user's binding alone |
| ChatRegistry.StaleDisconnectKeepsNewerSocket | chat.js:257-264 | a disconnect of a socket the user is no longer bound to leaves the user's current binding in place |
| ChatRegistry.ReconnectThenStaleDisconnect | chat.js:145-264 | connecting twice and then closing the first socket leaves the user bound to the second socket |
| ChatServer.Saved | chat.js:158-168 | the saved message has the payload's ids, text and image, is unread, has no `readAt`, and carries the time and the new id |
| ChatServer.ToUser | chat.js:171-174 | one event goes to the user's socket when the user is connected, and none otherwise |
| ChatServer.Server.UserConnected | chat.js:145-152 | a falsy id changes nothing; otherwise the user is bound to this socket, other bindings stay, and `user_online` is broadcast to everyone else |
| ChatServer.Server.SendMessage | chat.js:155-184 | after a failed insert, only `message_error` goes to the sender; after a successful one, the message is stored with the next id, sent to the receiver if connected, acknowledged to the sender, and is in the pair's history |
| ChatServer.Server.DispatchSendMessage | chat.js:155-218 | both registered handlers run, so two successful inserts store two copies of the message, deliver it twice to a connected receiver and acknowledge it twice to the sender |
| ChatServer.Server.Typing | chat.js:221-233 | `user_typing`, with the flag, goes to the receiver if connected; nothing is stored |
| ChatServer.Server.MarkMessagesRead | chat.js:236-254 | a successful update marks the log as `MarkRead` does and leaves no unread message; the receipt goes to the other user if connected; a failure changes nothing |
| ChatServer.Server.MarkReadHttp | chat.js:72-87 | 400 exactly when either id is falsy; otherwise the log is marked read |
| ChatServer.Server.Disconnect | chat.js:257-266 | the first entry bound to the socket is removed; `user_offline` is broadcast only when such an entry existed; other users' bindings are kept |
| Reactions.IndexOfUser | index.js:882-884 | `findIndex`: the first entry of the user, or -1 when the user has none |
| Reactions.FindIndex | index.js:882-884 | the loop finds the first entry of the user, or -1, and agrees with `IndexOfUser` |
| Reactions.UserReaction | index.js:914-915 | the response's `userReaction` is `null` or a truthy type held by the user's entry; for a list with one entry per user it is that entry's type when that type is truthy |
| Reactions.ToggleKeepsOthers | index.js:886-905 | the toggle never changes another user's reactions |
| Reactions.ToggleRules | index.js:879-905 | same type or `null` removes the user's reaction; another type replaces it in place, at the same position and with the same list length; with no reaction, a truthy type appends the new entry at the end and anything else changes nothing; one entry per user is kept |
| Reactions.ToggleAddsEntry | index.js:896-904 | with no reaction and a truthy type, the list is the old one with the new entry pushed at the end, and that entry is the user's only one |
| Reactions.ToggleRetypesEntry | index.js:893-895 | a retyped entry keeps its position: the list is the old one with only that entry's type replaced |
| Reactions.ToggleUserReaction | index.js:886-915 | the returned `userReaction` is the new type exactly when it is truthy and differs from the old one, and `null` otherwise |
| Reactions.WrittenAgrees | index.js:907-910 | for a request with a user id and a type that are not `undefined`, the database holds exactly the list the handler sends back |
| Reactions.WrittenKeepsOthers | index.js:886-910 | for a request with a user id, the list the database holds keeps every other user's entries unchanged and in order |
| Reactions.TypelessRequestKeepsEntry | index.js:886-910 | a request without a type retypes the user's entry, which the database then holds with a `null` type; a second such request writes the same list, so the entry is never removed |
| Reactions.PostStore.React | index.js:865-927 | 400 for a bad id; 404 for an unknown post; otherwise the list (empty when absent) is toggled and written back with `undefined` stored as `null`, and the response carries the list as the handler holds it, the user's reaction and the count |
| Notifications.Phrase | index.js:1031-1046 | like, comment, reply, follow and share each have their own wording; every other type gets the generic one |
| Notifications.GenerateMessage | index.js:1031-1046 | the message is the sender's name as the template prints it, a space, then the type's wording |
| Notifications.MessageTellsTypesApart | index.js:1031-1046 | two different types, at least one of them known, give different messages for the same sender |
| Notifications.Utf16Length | index.js:993 | a string's `length` counts UTF-16 code units, between one and two per character |
| Notifications.CutUnits | index.js:993 | the result is the longest prefix that fits in the budget of UTF-16 code units, and the whole string when it fits |
| Notifications.TrimPostText | index.js:993 | a truthy post text keeps its longest prefix of at most 100 UTF-16 code units, all of it when it is that short; a falsy one becomes "" |
| Notifications.CreateNotification | index.js:960-999 | skipped exactly when recipient and sender are equal under `===` (so a `null` id and a missing one differ); otherwise the ids and the sender's fields are copied with `undefined` stored as `null`, the post text is exactly the trimmed text, the message is generated, the comment text defaults to "", the notification is unread and carries the time |
| Notifications.NotificationStore.Insert | index.js:96-114 | the document is appended as given |
| Notifications.NotificationStore.Post | index.js:960-1010 | the collection grows by the created notification, and by nothing when it is a self-notification |
| Users.OrNull | index.js:131-133 | `x \|\| null` keeps a truthy string and turns anything else into `null` |
| Users.Pull | index.js:278-285 | `$pull` removes every occurrence and keeps everything else; a missing list stays missing |
| Users.AddToSet | index.js:288-301 | `$addToSet` adds the value, leaves a list that already holds it unchanged, and creates a missing list |
| Users.NewUser | index.js:129-144 | a new user has falsy names turned into `null`, empty follow lists, the creation time, and null profile fields |
| Users.DetailsUpdate | index.js:217-231 | the update holds exactly the allowed fields present in the body, with the body's values |
| Users.ApplyDetails | index.js:217-236 | allowed body fields overwrite, every other field and detail is unchanged, and `updatedAt` is set |
| Users.FollowNotice | index.js:304-313 | the follow notification goes to the target from the caller, with the caller's name and photo, type `follow` and no message, read flag or time |
| Users.UnfollowFlipsOnePair | index.js:276-285 | after an unfollow, the caller is in neither list; every other pair's follow relation is unchanged |
| Users.FollowFlipsOnePair | index.js:286-301 | after a follow, the caller is in both lists; every other pair's follow relation is unchanged |
| Users.UnfollowKeepsConsistent | index.js:276-285 | an unfollow keeps followers and following mutually consistent and all listed users registered |
| Users.FollowKeepsConsistent | index.js:286-301 | a follow keeps followers and following mutually consistent and all listed users registered |
| Users.CreateKeepsConsistent | index.js:129-146 | inserting a new user keeps the follow lists consistent |
| Users.UserStore.CreateUser | index.js:121-152 | 400 for a falsy uid; an existing user is returned unchanged; otherwise the new document is inserted; the follow lists stay consistent |
| Users.UserStore.GetUser | index.js:155-165 | the stored document with that uid, or 404 |
| Users.UserStore.UpdateDetails | index.js:199-249 | 404 for an unknown uid; otherwise the user is updated as `ApplyDetails` states |
| Users.UserStore.ToggleFollow | index.js:252-332 | 400 for a falsy caller or a self-follow; 404 for an unknown user; otherwise unfollow when following and follow (with a notification) when not; the relation flips, the counts are the new list lengths, and the lists stay consistent |
| Visibility.FeedByAuthor | index.js:608-624 | the feed shows all of the user's own posts, a followed author's public and private posts, and only the public posts of anyone else |
| Visibility.FeedOf | index.js:608-624 | a post is in the feed exactly when it is stored and passes the feed filter |
| Visibility.Feed | index.js:596-635 | 404 for an unknown user; otherwise the posts that pass the filter for the user's following list |
| Visibility.ProfileOf | index.js:647-656 | a post is on the profile exactly when it is stored and passes the profile filter |
| Visibility.Profile | index.js:638-671 | 404 for an unknown target; otherwise the target's posts, only public ones unless the viewer is absent, the target or a follower |
| Visibility.FeedWithinProfile | index.js:608-656 | with consistent follow lists, a target's post in the viewer's feed is also on the target's profile for that viewer; for a non-follower the two agree exactly |
| Visibility.FollowRevealsPrivatePosts | index.js:608-624 | a follow shows the target's private posts in the caller's feed and an unfollow hides them; public posts are shown either way |
| Comments.CommentIndex | index.js:1363 | the position of the first top-level comment with the id, or the length when there is none |
| Comments.FindComment | index.js:1363 | `find` yields nothing exactly when no top-level comment has the id; otherwise it yields the first one |
| Comments.SetFirstText | index.js:1369-1372 | the positional `$` update changes the text of the first comment with the id and nothing else |
| Comments.PullComment | index.js:1399-1407 | `$pull` removes every comment with the id and keeps every other comment, as often as it occurred and in its order (a subsequence) |
| Comments.UnsignedCommentOpenToAnonymous | index.js:1366-1397 | a comment document whose `authorEmail` field is absent may be edited and deleted by a request without an email |
| Comments.Persisted | index.js:1427-1440 | a new comment or reply is stored with a `null` author email in place of `undefined`, and otherwise as built |
| Comments.EmaillessCommentStoredAsNull | index.js:1366-1440 | a comment added without an email is stored with a `null` one: a request without an email may not edit it, a request sending `null` may, and a request without an email may delete it only when the post has no `userEmail` field |
| Comments.NewComment | index.js:1427-1435 | the new comment has the body's text and author fields, "Unknown" for a falsy name, and an empty reply list |
| Comments.NewReply | index.js:1141-1149 | the new reply has the body's text and author fields and an empty reply list |
| Comments.WithReply | index.js:1151-1166 | only the addressed comment changes, and its own fields stay the same; a reply without a parent goes at the end of that comment's replies, and a reply with a parent goes under that parent |
| Comments.NestedReplyLandsUnderParent | index.js:1151-1230 | under the addressed comment, the depth listing (which fixes the nesting) shows the new reply as the last child of every reply with the parent id that no such reply encloses, every other reply at its old place and depth, and the reply nowhere else; the first one found gains it as its last child; deleting the new reply gives back the old replies; with unique ids it is added once |
| Comments.ReplyNotice | index.js:1183-1194 | the reply notification goes to the comment's author, with type `reply`, the post and the reply text |
| Comments.CommentNotice | index.js:1443-1455 | the comment notification goes to the post's owner, with type `comment`, the post and the comment text |
| Comments.PostBoard.AddComment | index.js:1417-1462 | 404 for an unknown post; otherwise the comment is appended as `Persisted` stores it, and the owner is notified unless the owner's id is `===` to the sender's |
| Comments.PostBoard.AddReply | index.js:1124-1201 | 404 for an unknown post; otherwise the reply is placed, as `Persisted` stores it, where `WithReply` states; a notification goes to a user the email query matches exactly when one exists and the comment's author email is not `===` to the replier's |
| Comments.PostBoard.AddReplyToReply | index.js:1290-1326 | as written: 404 for an unknown post, otherwise always the 500 error, and nothing is stored |
| Comments.PostBoard.AddReplyUnderReply | index.js:1290-1326 | as intended: the thread's depth listing shows the stored reply as the last child of every node with the reply id that no such node encloses, every other node at its old place and depth, and the reply nowhere else; the first such node gains it as its last child; deleting the new id gives back the old thread; with unique ids the reply is added once when its parent exists |
| Comments.PostBoard.DeleteReplyRoute | index.js:1233-1255 | 404 for an unknown post; otherwise no node with the id remains at any depth |
| Comments.PostBoard.EditReplyRoute | index.js:1328-1355 | 404 for an unknown post; otherwise the thread keeps its shape, and only nodes with the id whose author email matches get the new text |
| Comments.PostBoard.EditComment | index.js:1358-1375 | no response for an unknown post; 404 for an unknown comment; 403 when the email differs from the author's; otherwise the first matching comment gets the new text |
| Comments.PostBoard.DeleteComment | index.js:1378-1414 | 404 for an unknown post or comment; 403 unless the email is the comment author's or the post owner's; otherwise every comment with the id is pulled |
| Comments.FindCommentStripped | index.js:1175-1177 | a thread rewrite that keeps each comment's own fields finds the same comment, so the notification check sees the same author |
| Comments.EditCommentKeepsThread | index.js:1369-1372 | editing a comment's text leaves its replies and the other comments unchanged |
| Comments.DeleteCommentOnce | index.js:1399-1407 | deleting a comment is idempotent, and the comment cannot be found afterwards |
| ReplyTree.AddNestedReply | index.js:1204-1218 | only the comments with the id get their replies rewritten by the recursive helper; everything else stays |
| ReplyTree.AddTopLevelReply | index.js:1161-1165 | the reply is appended to the replies of the comments with the id; the other comments stay |
| ReplyTree.AddNestedReplyKeepsNodes | index.js:1220-1230 | adding a reply never loses or reorders a node of the thread |
| ReplyTree.AddNestedReplyWithoutParent | index.js:1220-1230 | with no node of the target id, the thread keeps all its nodes in order (missing reply lists become empty) |
| ReplyTree.AddNestedReplyAppendsToParent | index.js:1220-1230 | the first node with the target id gains the new reply as its last child |
| ReplyTree.AddNestedReplyPreorder | index.js:1220-1230 | the new thread's depth listing is the old one with the reply's listing, one level deeper, right after the subtree of every target-id node that no target-id node encloses: the reply is that node's last child, every other node keeps its place and depth, and the reply appears nowhere else |
| ReplyTree.AddNestedReplyDetermined | index.js:1220-1230 | that depth listing pins the result: any thread with it equals the add's result once missing reply lists are read as empty |
| ReplyTree.AddNestedReplyUndone | index.js:1220-1230 | when the reply's id is new, deleting that id from the new thread gives back the old thread (missing reply lists read as empty), and pruning it lists exactly the old thread |
| ReplyTree.AddNestedReplyAddsOnce | index.js:1220-1230 | with unique ids, the new thread holds the old nodes plus the reply's nodes once when the target id exists, and only the old nodes otherwise |
| ReplyTree.DeleteReplyPreorder | index.js:1258-1265 | the depth listing after a delete is the old one without each deleted node and its subtree: every other node keeps its order and its depth |
| ReplyTree.DeleteReplyDetermined | index.js:1258-1265 | that depth listing pins the result: any thread with it equals the delete's result once missing reply lists are read as empty, so every kept node stays under its parent |
| ReplyTree.DeleteReplyNormal | index.js:1258-1265 | every kept node has a reply list after the delete (`c.replies ? … : []`), at any depth |
| ReplyTree.DeleteReplyRemovesTarget | index.js:1258-1265 | no node with the id remains at any depth |
| ReplyTree.DeleteReplyKeepsOthers | index.js:1258-1265 | the remaining nodes, with their depths, are a subsequence of the original depth listing; when the id is absent, the thread is the old one exactly, with missing reply lists made empty |
| ReplyTree.DeleteReplyIdempotent | index.js:1258-1265 | deleting the same id twice equals deleting it once |
| ReplyTree.UpdateReplySameShape | index.js:1267-1288 | an edit keeps the thread's shape and ids |
| ReplyTree.UpdateReplyEditsTarget | index.js:1267-1288 | for a thread with unique ids, in preorder, the edit changes exactly the text of the node with the target id, and only when its author email is `===` to the caller's |

## Left out

- HTTP, Socket.IO and MongoDB plumbing is left out. Requests, events and collections become method calls, parameters and fields.
- Concurrent handlers and `await` interleavings are left out; each handler runs atomically.
- Database failures beyond the modelled flags are left out. These are the 500 replies of the `catch` blocks, and `createNotification` silently swallowing an insert failure.
- An ObjectId that `new ObjectId` rejects, which throws into the 500 path, is left out. Ids are plain strings.
- The `commentCount` counter updates are not modelled.
- Sorting is modelled only for the chat history. The feed and the profile are sorted by `createdAt`; the model keeps them in store order.
- Banner uploads, stories, post creation and deletion, shares, search routes, `GET /users`, the AI-chat proxy and the notification read/list routes are outside this model.
- ChatLog.Conversations: counterpart ids are not modelled as missing. Several user documents with the same uid are not modelled either; `$unwind` would repeat the summary for each. The summaries form a map, so the `$group` output order is not modelled.
- JSON `null` and a missing field are told apart only where the outcome depends on it.
  - Places that compare with `===`: reaction user ids and types (index.js:883, 888); the recipient and sender ids of `POST /notifications` (index.js:974); comment and reply author emails (index.js:1178, 1270, 1366, 1393); the post owner's email and id (index.js:1393, 1443). A `null` against a missing value is unequal in each.
  - Printing in the message template, which prints `undefined` and `null` differently (index.js:1031-1046).
  - The `replies` field.
  - Every other optional value is one `None`. The code only tests those for truthiness, or stores them, or sends them in a query, where MongoDB matches `null` and a missing field alike.
- Notifications.TrimPostText: when the 100th UTF-16 code unit is the first half of a surrogate pair, `substring` keeps that lone half. A Dafny string cannot hold an unpaired surrogate, so the model stops one unit earlier.
- Reactions.WrittenKeepsOthers: stated for a request with a user id. With an `undefined` one, a new entry is stored with a `null` user id, which is not `===` to the request's and so reads as another user's entry.
- `text` fields of comments and replies are modelled as strings; a body that omits them is not modelled.
- Comments.PostBoard.AddReply: `findOne` by email returns the first document in natural order. The model picks some user with that email.
- Comments.PostBoard.EditComment: for an unknown post the handler throws outside any `try`, and the request is never answered. The model reports this as a `ServerError`.
- Message ids are the message's position in the log rather than generated ObjectIds.

## Findings

| source | as written | input that shows it | evidently intended | confidence | as-written member | corrected member |
|---|---|---|---|---|---|---|
| index.js:1310 | the nested-reply route calls `addReplyRecursive`, which is defined nowhere, so every request for an existing post ends in the 500 reply and stores nothing | any existing post, any reply id | add the reply under the reply with that id at any depth, as `addNestedReplyRecursive` does | high (not executed) | Comments.PostBoard.AddReplyToReply | Comments.PostBoard.AddReplyUnderReply |
| chat.js:186-218 | `send_message` is registered twice, so one event stores the message twice and delivers and acknowledges it twice | any send with both inserts succeeding | one stored message per send | high (not executed) | ChatServer.Server.DispatchSendMessage | ChatServer.Server.SendMessage |

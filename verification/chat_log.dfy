/**
 * The chat message store and the queries over it: pairwise history in
 * `createdAt` order, the bulk mark-read update and the per-counterpart
 * conversation summaries. The store is a sequence of messages in insertion
 * order; every query is a pure function of it.
 */
module ChatLog {
  import opened Wrappers

  /**
   * A stored chat message. `senderId` and `receiverId` are whatever the client
   * sent (None when the field was missing); `createdAt` is the server clock at
   * insertion and `id` the identifier the store assigned.
   */
  datatype Message = Message(
    id: nat,
    senderId: Option<string>,
    receiverId: Option<string>,
    text: Option<string>,
    image: Option<string>,
    isRead: bool,
    readAt: Option<nat>,
    createdAt: nat)

  /** The public fields of a user document that the conversations query joins in. */
  datatype UserProfile = UserProfile(uid: string, displayName: Option<string>, photoURL: Option<string>, email: Option<string>)

  /** One row of the conversations query. */
  datatype Summary = Summary(user: UserProfile, lastMessage: Message, unreadCount: nat)

  // ---------------------------------------------------------------------------
  // Pairwise history
  // ---------------------------------------------------------------------------

  /** The `$or` filter of the history query: `m` goes from `a` to `b` or from `b` to `a`. */
  predicate Between(m: Message, a: string, b: string)
  {
    (m.senderId == Some(a) && m.receiverId == Some(b)) || (m.senderId == Some(b) && m.receiverId == Some(a))
  }

  /** The messages between `a` and `b`, in store order. */
  function PairMessages(log: seq<Message>, a: string, b: string): (r: seq<Message>)
    ensures forall m :: m in r <==> m in log && Between(m, a, b)
    ensures |r| <= |log|
  {
    if log == [] then []
    else (if Between(log[0], a, b) then [log[0]] else []) + PairMessages(log[1..], a, b)
  }

  predicate SortedByCreatedAt(s: seq<Message>)
  {
    forall i, j :: 0 <= i < j < |s| ==> s[i].createdAt <= s[j].createdAt
  }

  /** Insert `x` before the first element that is not older than it. */
  function InsertByCreatedAt(x: Message, s: seq<Message>): (r: seq<Message>)
    ensures multiset(r) == multiset(s) + multiset{x}
  {
    if s == [] then [x]
    else if x.createdAt <= s[0].createdAt then [x] + s
    else
      assert s == [s[0]] + s[1..];
      [s[0]] + InsertByCreatedAt(x, s[1..])
  }

  /** Inserting into a sorted list keeps it sorted. */
  lemma {:induction false} InsertKeepsSorted(x: Message, s: seq<Message>)
    requires SortedByCreatedAt(s)
    ensures SortedByCreatedAt(InsertByCreatedAt(x, s))
    decreases s
  {
    if s == [] {
    } else if x.createdAt <= s[0].createdAt {
      forall m | m in s ensures x.createdAt <= m.createdAt {
        var j :| 0 <= j < |s| && s[j] == m;
      }
      SortedCons(x, s);
    } else {
      var rest := InsertByCreatedAt(x, s[1..]);
      assert SortedByCreatedAt(s[1..]) by {
        forall i, j | 0 <= i < j < |s[1..]| ensures s[1..][i].createdAt <= s[1..][j].createdAt {
          assert s[1..][i] == s[i + 1] && s[1..][j] == s[j + 1];
        }
      }
      InsertKeepsSorted(x, s[1..]);
      assert s == [s[0]] + s[1..];
      forall m | m in rest ensures s[0].createdAt <= m.createdAt {
        assert m in multiset(rest);
        assert m == x || m in multiset(s[1..]);
        if m != x {
          var j :| 0 <= j < |s[1..]| && s[1..][j] == m;
          assert s[j + 1] == m;
        }
      }
      SortedCons(s[0], rest);
    }
  }

  lemma SortedCons(y: Message, t: seq<Message>)
    requires SortedByCreatedAt(t)
    requires forall m :: m in t ==> y.createdAt <= m.createdAt
    ensures SortedByCreatedAt([y] + t)
  {
    forall i, j | 0 <= i < j < |[y] + t|
      ensures ([y] + t)[i].createdAt <= ([y] + t)[j].createdAt
    {
      assert ([y] + t)[j] == t[j - 1];
      if i > 0 {
        assert ([y] + t)[i] == t[i - 1];
      } else {
        assert t[j - 1] in t;
      }
    }
  }

  /** The `.sort({ createdAt: 1 })` of the history query. */
  function SortByCreatedAt(s: seq<Message>): (r: seq<Message>)
    ensures multiset(r) == multiset(s)
    ensures SortedByCreatedAt(r)
  {
    if s == [] then []
    else
      assert s == [s[0]] + s[1..];
      InsertKeepsSorted(s[0], SortByCreatedAt(s[1..]));
      InsertByCreatedAt(s[0], SortByCreatedAt(s[1..]))
  }

  /**
   * GET /messages/:userId1/:userId2: exactly the messages between the two users
   * (with their multiplicity), oldest first.
   */
  function History(log: seq<Message>, a: string, b: string): (r: seq<Message>)
    ensures SortedByCreatedAt(r)
    ensures multiset(r) == multiset(PairMessages(log, a, b))
    ensures forall m :: m in r <==> m in log && Between(m, a, b)
  {
    var r := SortByCreatedAt(PairMessages(log, a, b));
    assert forall m :: m in r <==> m in multiset(PairMessages(log, a, b));
    r
  }

  lemma {:induction false} PairMessagesSymmetric(log: seq<Message>, a: string, b: string)
    ensures PairMessages(log, a, b) == PairMessages(log, b, a)
    decreases log
  {
    if log != [] {
      PairMessagesSymmetric(log[1..], a, b);
    }
  }

  /** The history of a pair does not depend on which of the two asks for it. */
  lemma HistorySymmetric(log: seq<Message>, a: string, b: string)
    ensures History(log, a, b) == History(log, b, a)
  {
    PairMessagesSymmetric(log, a, b);
  }

  lemma {:induction false} PairMessagesAppend(log: seq<Message>, m: Message, a: string, b: string)
    ensures PairMessages(log + [m], a, b) == PairMessages(log, a, b) + (if Between(m, a, b) then [m] else [])
    decreases log
  {
    if log == [] {
      assert log + [m] == [m];
    } else {
      assert (log + [m])[0] == log[0] && (log + [m])[1..] == log[1..] + [m];
      PairMessagesAppend(log[1..], m, a, b);
    }
  }

  /**
   * Appending a message adds it to the history of its own pair and of no
   * other pair: every other pair's history is exactly what it was.
   */
  lemma HistoryAfterAppend(log: seq<Message>, m: Message, a: string, b: string)
    ensures multiset(History(log + [m], a, b)) ==
      multiset(History(log, a, b)) + (if Between(m, a, b) then multiset{m} else multiset{})
    ensures !Between(m, a, b) ==> History(log + [m], a, b) == History(log, a, b)
  {
    PairMessagesAppend(log, m, a, b);
    if !Between(m, a, b) {
      assert PairMessages(log, a, b) + [] == PairMessages(log, a, b);
    }
  }

  // ---------------------------------------------------------------------------
  // Mark read
  // ---------------------------------------------------------------------------

  /** The filter of the mark-read `updateMany`: an unread message from `other` to `reader`. */
  predicate Unread(m: Message, reader: Option<string>, other: Option<string>)
  {
    m.senderId == other && m.receiverId == reader && !m.isRead
  }

  /** `m'` differs from `m` at most in its read state. */
  predicate SameContent(m': Message, m: Message)
  {
    m'.(isRead := m.isRead, readAt := m.readAt) == m
  }

  /**
   * The `updateMany` of mark-read: every message matching the filter gets
   * `isRead = true` and `readAt = now`; every other message is left as it was.
   */
  function MarkRead(log: seq<Message>, reader: Option<string>, other: Option<string>, now: nat): (r: seq<Message>)
    ensures |r| == |log|
    ensures forall i :: 0 <= i < |log| ==> SameContent(r[i], log[i])
    ensures forall i :: 0 <= i < |log| && Unread(log[i], reader, other) ==> r[i].isRead && r[i].readAt == Some(now)
    ensures forall i :: 0 <= i < |log| && !Unread(log[i], reader, other) ==> r[i] == log[i]
  {
    if log == [] then []
    else
      var m := log[0];
      [if Unread(m, reader, other) then m.(isRead := true, readAt := Some(now)) else m] + MarkRead(log[1..], reader, other, now)
  }

  /** How many messages the mark-read filter matches. */
  function CountUnread(log: seq<Message>, reader: Option<string>, other: Option<string>): nat
  {
    if log == [] then 0
    else (if Unread(log[0], reader, other) then 1 else 0) + CountUnread(log[1..], reader, other)
  }

  lemma {:induction false} CountUnreadZero(log: seq<Message>, reader: Option<string>, other: Option<string>)
    requires forall i :: 0 <= i < |log| ==> !Unread(log[i], reader, other)
    ensures CountUnread(log, reader, other) == 0
    decreases log
  {
    if log != [] {
      CountUnreadZero(log[1..], reader, other);
    }
  }

  /** After mark-read no message from `other` to `reader` is unread, so the filter matches nothing. */
  lemma MarkReadLeavesNoUnread(log: seq<Message>, reader: Option<string>, other: Option<string>, now: nat)
    ensures forall m :: m in MarkRead(log, reader, other, now) ==> !Unread(m, reader, other)
    ensures CountUnread(MarkRead(log, reader, other, now), reader, other) == 0
  {
    var r := MarkRead(log, reader, other, now);
    CountUnreadZero(r, reader, other);
  }

  /** A second mark-read for the same pair changes nothing, whatever its clock reads. */
  lemma MarkReadIdempotent(log: seq<Message>, reader: Option<string>, other: Option<string>, now: nat, later: nat)
    ensures MarkRead(MarkRead(log, reader, other, now), reader, other, later) == MarkRead(log, reader, other, now)
  {
    MarkReadLeavesNoUnread(log, reader, other, now);
  }

  // ---------------------------------------------------------------------------
  // Conversations
  // ---------------------------------------------------------------------------

  /** The `$match` of the conversations query: `uid` sent or received `m`. */
  predicate Involves(m: Message, uid: string)
  {
    m.senderId == Some(uid) || m.receiverId == Some(uid)
  }

  /** The `$group` key: the receiver when `uid` sent the message, the sender otherwise. */
  function Counterpart(m: Message, uid: string): Option<string>
  {
    if m.senderId == Some(uid) then m.receiverId else m.senderId
  }

  /** The messages of the group of `uid` keyed by counterpart `c`, in store order. */
  function Group(log: seq<Message>, uid: string, c: string): (r: seq<Message>)
    ensures forall m :: m in r <==> m in log && Involves(m, uid) && Counterpart(m, uid) == Some(c)
  {
    if log == [] then []
    else
      (if Involves(log[0], uid) && Counterpart(log[0], uid) == Some(c) then [log[0]] else [])
      + Group(log[1..], uid, c)
  }

  /** The `$first` after the descending `$sort`: a message with the greatest `createdAt`. */
  function Latest(ms: seq<Message>): (r: Message)
    requires ms != []
    ensures r in ms
    ensures forall m :: m in ms ==> m.createdAt <= r.createdAt
  {
    if |ms| == 1 then ms[0]
    else
      var rest := Latest(ms[1..]);
      if ms[0].createdAt >= rest.createdAt then ms[0] else rest
  }

  /** The `$sum` of the group: messages addressed to `uid` and not yet read. */
  function UnreadFor(ms: seq<Message>, uid: string): nat
  {
    if ms == [] then 0
    else (if ms[0].receiverId == Some(uid) && !ms[0].isRead then 1 else 0) + UnreadFor(ms[1..], uid)
  }

  /**
   * GET /conversations/:uid: one summary per counterpart of `uid` that has a
   * user document (`$lookup` then `$unwind` drops the others). The source's
   * output order is that of `$group`, which is unspecified, so the model
   * returns the summaries keyed by counterpart.
   */
  function Conversations(log: seq<Message>, uid: string, users: map<string, UserProfile>): (r: map<string, Summary>)
    ensures forall c :: c in r <==> c in users && exists m :: m in log && Involves(m, uid) && Counterpart(m, uid) == Some(c)
    ensures forall c :: c in r ==>
      && r[c].user == users[c]
      && r[c].lastMessage in log
      && Between(r[c].lastMessage, uid, c)
      && (forall m :: m in log && Between(m, uid, c) ==> m.createdAt <= r[c].lastMessage.createdAt)
  {
    var r := map c | c in users && Group(log, uid, c) != [] ::
      Summary(users[c], Latest(Group(log, uid, c)), UnreadFor(Group(log, uid, c), uid));
    forall c | c in r
      ensures Between(r[c].lastMessage, uid, c)
      ensures forall m :: m in log && Between(m, uid, c) ==> m.createdAt <= r[c].lastMessage.createdAt
    {
      GroupIsPair(log, uid, c);
    }
    forall c | c in users && exists m :: m in log && Involves(m, uid) && Counterpart(m, uid) == Some(c)
      ensures c in r
    {
      var m :| m in log && Involves(m, uid) && Counterpart(m, uid) == Some(c);
      assert m in Group(log, uid, c);
    }
    r
  }

  /** The group of counterpart `c` holds exactly the messages of the pair (`uid`, `c`), in store order. */
  lemma {:induction false} GroupIsPair(log: seq<Message>, uid: string, c: string)
    ensures Group(log, uid, c) == PairMessages(log, uid, c)
    decreases log
  {
    if log != [] {
      GroupIsPair(log[1..], uid, c);
    }
  }

  lemma {:induction false} UnreadForAppend(a: seq<Message>, b: seq<Message>, uid: string)
    ensures UnreadFor(a + b, uid) == UnreadFor(a, uid) + UnreadFor(b, uid)
    decreases a
  {
    if a == [] {
      assert a + b == b;
    } else {
      assert (a + b)[0] == a[0] && (a + b)[1..] == a[1..] + b;
      UnreadForAppend(a[1..], b, uid);
    }
  }

  lemma {:induction false} UnreadForInsert(x: Message, s: seq<Message>, uid: string)
    ensures UnreadFor(InsertByCreatedAt(x, s), uid) == UnreadFor([x], uid) + UnreadFor(s, uid)
    decreases s
  {
    if s != [] && x.createdAt > s[0].createdAt {
      UnreadForInsert(x, s[1..], uid);
      assert s == [s[0]] + s[1..];
      UnreadForAppend([s[0]], s[1..], uid);
      UnreadForAppend([s[0]], InsertByCreatedAt(x, s[1..]), uid);
    } else if s != [] {
      UnreadForAppend([x], s, uid);
    }
  }

  lemma {:induction false} UnreadForSort(s: seq<Message>, uid: string)
    ensures UnreadFor(SortByCreatedAt(s), uid) == UnreadFor(s, uid)
    decreases s
  {
    if s != [] {
      UnreadForSort(s[1..], uid);
      UnreadForInsert(s[0], SortByCreatedAt(s[1..]), uid);
      assert s == [s[0]] + s[1..];
      UnreadForAppend([s[0]], s[1..], uid);
    }
  }

  /**
   * A conversation's unread count is the number of messages of the pair's
   * history addressed to `uid` and unread, and its last message is as recent
   * as the last entry of that history.
   */
  lemma ConversationAgreesWithHistory(log: seq<Message>, uid: string, users: map<string, UserProfile>, c: string)
    requires c in Conversations(log, uid, users)
    ensures Conversations(log, uid, users)[c].unreadCount == UnreadFor(History(log, uid, c), uid)
    ensures History(log, uid, c) != []
    ensures Conversations(log, uid, users)[c].lastMessage.createdAt == History(log, uid, c)[|History(log, uid, c)| - 1].createdAt
  {
    ConversationUnreadAgrees(log, uid, users, c);
    ConversationLastAgrees(log, uid, users, c);
  }

  /** The summary's unread count, counted over the sorted history. */
  lemma ConversationUnreadAgrees(log: seq<Message>, uid: string, users: map<string, UserProfile>, c: string)
    requires c in Conversations(log, uid, users)
    ensures Conversations(log, uid, users)[c].unreadCount == UnreadFor(History(log, uid, c), uid)
  {
    var g := Group(log, uid, c);
    assert Conversations(log, uid, users)[c].unreadCount == UnreadFor(g, uid);
    GroupIsPair(log, uid, c);
    UnreadForSort(PairMessages(log, uid, c), uid);
  }

  /** The summary's last message is as new as the last entry of the history. */
  lemma ConversationLastAgrees(log: seq<Message>, uid: string, users: map<string, UserProfile>, c: string)
    requires c in Conversations(log, uid, users)
    ensures History(log, uid, c) != []
    ensures Conversations(log, uid, users)[c].lastMessage.createdAt == History(log, uid, c)[|History(log, uid, c)| - 1].createdAt
  {
    LastMessageInHistory(log, uid, users, c);
    LastMessageIsNewest(log, uid, users, c);
    LastOfSortedIsNewest(History(log, uid, c), Conversations(log, uid, users)[c].lastMessage);
  }

  /** The summary's last message belongs to the pair's history. */
  lemma LastMessageInHistory(log: seq<Message>, uid: string, users: map<string, UserProfile>, c: string)
    requires c in Conversations(log, uid, users)
    ensures Conversations(log, uid, users)[c].lastMessage in History(log, uid, c)
  {
    var lm := Conversations(log, uid, users)[c].lastMessage;
    assert lm in log && Between(lm, uid, c);
  }

  /** No message of the pair's history is newer than the summary's last message. */
  lemma LastMessageIsNewest(log: seq<Message>, uid: string, users: map<string, UserProfile>, c: string)
    requires c in Conversations(log, uid, users)
    ensures forall m :: m in History(log, uid, c) ==> m.createdAt <= Conversations(log, uid, users)[c].lastMessage.createdAt
  {
  }

  /** In a list sorted by time, a newest element is as new as the last one. */
  lemma LastOfSortedIsNewest(h: seq<Message>, lm: Message)
    requires SortedByCreatedAt(h) && lm in h
    requires forall m :: m in h ==> m.createdAt <= lm.createdAt
    ensures h != [] && lm.createdAt == h[|h| - 1].createdAt
  {
    var k :| 0 <= k < |h| && h[k] == lm;
    assert h[|h| - 1] in h;
  }

  lemma {:induction false} UnreadForNone(ms: seq<Message>, uid: string)
    requires forall m :: m in ms ==> !(m.receiverId == Some(uid) && !m.isRead)
    ensures UnreadFor(ms, uid) == 0
    decreases ms
  {
    if ms != [] {
      UnreadForNone(ms[1..], uid);
    }
  }

  /** After `uid` marks its messages from `c` read, the conversation with `c` shows no unread message. */
  lemma MarkReadClearsConversation(log: seq<Message>, uid: string, c: string, now: nat, users: map<string, UserProfile>)
    requires c in Conversations(MarkRead(log, Some(uid), Some(c), now), uid, users)
    ensures Conversations(MarkRead(log, Some(uid), Some(c), now), uid, users)[c].unreadCount == 0
  {
    var log' := MarkRead(log, Some(uid), Some(c), now);
    MarkReadLeavesNoUnread(log, Some(uid), Some(c), now);
    forall m | m in Group(log', uid, c)
      ensures !(m.receiverId == Some(uid) && !m.isRead)
    {
      assert !Unread(m, Some(uid), Some(c));
    }
    UnreadForNone(Group(log', uid, c), uid);
  }
}

/**
 * The connection registry `connectedUsers`: a JavaScript Map from user id to
 * the id of that user's socket. A Map iterates in insertion order and `set` on
 * an existing key keeps the key's position, so the registry is modelled as the
 * sequence of its entries in that order, with at most one entry per user.
 */
module ChatRegistry {
  import opened Wrappers

  /** Socket.IO socket ids are never empty, so a looked-up id is always truthy. */
  type SocketId = s: string | s != "" witness "socket"

  datatype Entry = Entry(userId: string, socketId: SocketId)

  /** At most one entry per user. */
  predicate UniqueUsers(reg: seq<Entry>)
  {
    forall i, j :: 0 <= i < j < |reg| ==> reg[i].userId != reg[j].userId
  }

  /** The registered users, in Map order. */
  function Users(reg: seq<Entry>): (r: seq<string>)
    ensures |r| == |reg|
    ensures forall i :: 0 <= i < |reg| ==> r[i] == reg[i].userId
  {
    if reg == [] then [] else [reg[0].userId] + Users(reg[1..])
  }

  /** `connectedUsers.get(userId)`: the socket of the first entry for the user, if any. */
  function Get(reg: seq<Entry>, userId: Option<string>): (r: Option<SocketId>)
    ensures r.None? <==> forall i :: 0 <= i < |reg| ==> Some(reg[i].userId) != userId
    ensures r.Some? ==> exists i :: 0 <= i < |reg| && Some(reg[i].userId) == userId && reg[i].socketId == r.value
  {
    if reg == [] then None
    else if Some(reg[0].userId) == userId then Some(reg[0].socketId)
    else Get(reg[1..], userId)
  }

  /** Index of the user's entry, or |reg| when there is none. */
  function IndexOfUser(reg: seq<Entry>, userId: string): (k: nat)
    ensures k <= |reg|
    ensures k < |reg| ==> reg[k].userId == userId
    ensures forall i :: 0 <= i < k ==> reg[i].userId != userId
  {
    if reg == [] then 0
    else if reg[0].userId == userId then 0
    else 1 + IndexOfUser(reg[1..], userId)
  }

  /**
   * `connectedUsers.set(userId, socketId)`: an existing entry for the user has
   * its socket replaced where it stands; otherwise a new entry goes last.
   */
  function Set(reg: seq<Entry>, userId: string, socketId: SocketId): (r: seq<Entry>)
  {
    var k := IndexOfUser(reg, userId);
    if k < |reg| then reg[k := Entry(userId, socketId)] else reg + [Entry(userId, socketId)]
  }

  /**
   * The disconnect scan: delete the first entry, in Map order, whose socket is
   * `socketId`; nothing else.
   */
  function RemoveFirstWithSocket(reg: seq<Entry>, socketId: SocketId): (r: seq<Entry>)
  {
    if reg == [] then []
    else if reg[0].socketId == socketId then reg[1..]
    else [reg[0]] + RemoveFirstWithSocket(reg[1..], socketId)
  }

  /** Index of the first entry whose socket is `socketId`, or |reg| when there is none. */
  function IndexOfSocket(reg: seq<Entry>, socketId: SocketId): (k: nat)
    ensures k <= |reg|
    ensures k < |reg| ==> reg[k].socketId == socketId
    ensures forall i :: 0 <= i < k ==> reg[i].socketId != socketId
  {
    if reg == [] then 0
    else if reg[0].socketId == socketId then 0
    else 1 + IndexOfSocket(reg[1..], socketId)
  }

  // ---------------------------------------------------------------------------
  // Properties
  // ---------------------------------------------------------------------------

  /** With one entry per user, Get returns the user's entry wherever it stands. */
  lemma {:induction false} GetAt(reg: seq<Entry>, i: nat)
    requires UniqueUsers(reg) && i < |reg|
    ensures Get(reg, Some(reg[i].userId)) == Some(reg[i].socketId)
    decreases i
  {
    if i > 0 {
      GetAt(reg[1..], i - 1);
    }
  }

  /**
   * After `set`, the user maps to the new socket, every other user keeps the
   * socket it had, no user appears twice, and the users keep their Map order
   * (a new user goes last).
   */
  lemma SetEffect(reg: seq<Entry>, userId: string, socketId: SocketId)
    requires UniqueUsers(reg)
    ensures UniqueUsers(Set(reg, userId, socketId))
    ensures Get(Set(reg, userId, socketId), Some(userId)) == Some(socketId)
    ensures forall v :: v != Some(userId) ==> Get(Set(reg, userId, socketId), v) == Get(reg, v)
    ensures Users(Set(reg, userId, socketId)) ==
      if Get(reg, Some(userId)).Some? then Users(reg) else Users(reg) + [userId]
  {
    var k := IndexOfUser(reg, userId);
    if k < |reg| {
      assert Get(reg, Some(userId)).Some?;
      SetExisting(reg, k, socketId);
    } else {
      assert Get(reg, Some(userId)).None?;
      SetNew(reg, userId, socketId);
    }
  }

  /** `set` on a registered user: only that entry's socket changes. */
  lemma SetExisting(reg: seq<Entry>, k: nat, socketId: SocketId)
    requires UniqueUsers(reg) && k < |reg|
    ensures var r := reg[k := Entry(reg[k].userId, socketId)];
      && UniqueUsers(r)
      && Get(r, Some(reg[k].userId)) == Some(socketId)
      && (forall v :: v != Some(reg[k].userId) ==> Get(r, v) == Get(reg, v))
      && Users(r) == Users(reg)
  {
    ReplaceKeepsUnique(reg, k, socketId);
    GetAt(reg[k := Entry(reg[k].userId, socketId)], k);
    forall v | v != Some(reg[k].userId)
      ensures Get(reg[k := Entry(reg[k].userId, socketId)], v) == Get(reg, v)
    {
      ReplaceKeepsGet(reg, k, socketId, v);
    }
    ReplaceKeepsUsers(reg, k, socketId);
  }

  /** Replacing a socket keeps one entry per user. */
  lemma ReplaceKeepsUnique(reg: seq<Entry>, k: nat, socketId: SocketId)
    requires UniqueUsers(reg) && k < |reg|
    ensures UniqueUsers(reg[k := Entry(reg[k].userId, socketId)])
  {
    var r := reg[k := Entry(reg[k].userId, socketId)];
    assert forall i :: 0 <= i < |r| ==> r[i].userId == reg[i].userId;
  }

  /** Replacing a socket keeps the users and their order. */
  lemma ReplaceKeepsUsers(reg: seq<Entry>, k: nat, socketId: SocketId)
    requires k < |reg|
    ensures Users(reg[k := Entry(reg[k].userId, socketId)]) == Users(reg)
  {
    var r := reg[k := Entry(reg[k].userId, socketId)];
    assert forall i :: 0 <= i < |r| ==> r[i].userId == reg[i].userId;
  }

  /** `set` on an unregistered user: a new entry goes last. */
  lemma SetNew(reg: seq<Entry>, userId: string, socketId: SocketId)
    requires UniqueUsers(reg) && Get(reg, Some(userId)).None?
    ensures var r := reg + [Entry(userId, socketId)];
      && UniqueUsers(r)
      && Get(r, Some(userId)) == Some(socketId)
      && (forall v :: v != Some(userId) ==> Get(r, v) == Get(reg, v))
      && Users(r) == Users(reg) + [userId]
  {
    AppendKeepsUnique(reg, userId, socketId);
    GetAt(reg + [Entry(userId, socketId)], |reg|);
    forall v | v != Some(userId)
      ensures Get(reg + [Entry(userId, socketId)], v) == Get(reg, v)
    {
      AppendKeepsGet(reg, Entry(userId, socketId), v);
    }
    AppendUsers(reg, userId, socketId);
  }

  /** Appending an unregistered user keeps one entry per user. */
  lemma AppendKeepsUnique(reg: seq<Entry>, userId: string, socketId: SocketId)
    requires UniqueUsers(reg) && Get(reg, Some(userId)).None?
    ensures UniqueUsers(reg + [Entry(userId, socketId)])
  {
    var r := reg + [Entry(userId, socketId)];
    assert forall i :: 0 <= i < |reg| ==> r[i] == reg[i];
  }

  /** Appending an entry appends its user. */
  lemma AppendUsers(reg: seq<Entry>, userId: string, socketId: SocketId)
    ensures Users(reg + [Entry(userId, socketId)]) == Users(reg) + [userId]
  {
    var r := reg + [Entry(userId, socketId)];
    assert forall i :: 0 <= i < |reg| ==> r[i] == reg[i];
  }

  /** Replacing the socket of one entry does not change what another user maps to. */
  lemma {:induction false} ReplaceKeepsGet(reg: seq<Entry>, k: nat, socketId: SocketId, v: Option<string>)
    requires k < |reg| && v != Some(reg[k].userId)
    ensures Get(reg[k := Entry(reg[k].userId, socketId)], v) == Get(reg, v)
    decreases k
  {
    var r := reg[k := Entry(reg[k].userId, socketId)];
    if k > 0 {
      assert r[1..] == reg[1..][k - 1 := Entry(reg[k].userId, socketId)];
      ReplaceKeepsGet(reg[1..], k - 1, socketId, v);
    } else {
      assert r[1..] == reg[1..];
    }
  }

  /** Appending an entry does not change what another user maps to. */
  lemma {:induction false} AppendKeepsGet(reg: seq<Entry>, e: Entry, v: Option<string>)
    requires v != Some(e.userId)
    ensures Get(reg + [e], v) == Get(reg, v)
    decreases reg
  {
    if reg != [] {
      assert (reg + [e])[1..] == reg[1..] + [e];
      AppendKeepsGet(reg[1..], e, v);
    }
  }

  /**
   * The disconnect scan removes at most one entry: the first one whose socket
   * is `socketId`. Every other entry stays, in order; when no entry has that
   * socket the registry is unchanged.
   */
  lemma {:induction false} RemoveFirstWithSocketEffect(reg: seq<Entry>, socketId: SocketId)
    ensures var k := IndexOfSocket(reg, socketId);
      RemoveFirstWithSocket(reg, socketId) == if k < |reg| then reg[..k] + reg[k + 1..] else reg
    decreases reg
  {
    if reg != [] && reg[0].socketId != socketId {
      RemoveFirstWithSocketEffect(reg[1..], socketId);
      var k := IndexOfSocket(reg[1..], socketId);
      if k < |reg[1..]| {
        ConsSplice(reg, k);
      } else {
        assert [reg[0]] + reg[1..] == reg;
      }
    }
  }

  /** Putting the head back in front of a splice of the tail is a splice one further along. */
  lemma ConsSplice(reg: seq<Entry>, k: nat)
    requires k + 1 < |reg|
    ensures [reg[0]] + (reg[1..][..k] + reg[1..][k + 1..]) == reg[..k + 1] + reg[k + 2..]
  {
    assert [reg[0]] + reg[1..][..k] == reg[..k + 1];
    assert reg[1..][k + 1..] == reg[k + 2..];
  }

  /** Deleting one entry forgets that entry's user and no other. */
  lemma RemoveAtEffect(reg: seq<Entry>, k: nat, v: Option<string>)
    requires UniqueUsers(reg) && k < |reg|
    ensures UniqueUsers(reg[..k] + reg[k + 1..])
    ensures Get(reg[..k] + reg[k + 1..], v) == if v == Some(reg[k].userId) then None else Get(reg, v)
  {
    var r := reg[..k] + reg[k + 1..];
    assert forall i :: 0 <= i < k ==> r[i] == reg[i];
    assert forall i :: k <= i < |r| ==> r[i] == reg[i + 1];
    assert UniqueUsers(r);
    if v == Some(reg[k].userId) {
      assert forall i :: 0 <= i < |r| ==> Some(r[i].userId) != v;
    } else {
      RemoveKeepsGet(reg, k, v);
    }
  }

  /** Deleting one entry does not change what another user maps to. */
  lemma {:induction false} RemoveKeepsGet(reg: seq<Entry>, k: nat, v: Option<string>)
    requires k < |reg| && v != Some(reg[k].userId)
    ensures Get(reg[..k] + reg[k + 1..], v) == Get(reg, v)
    decreases k
  {
    if k == 0 {
      assert reg[..0] + reg[1..] == reg[1..];
    } else {
      var r := reg[..k] + reg[k + 1..];
      assert r[0] == reg[0];
      assert r[1..] == reg[1..][..k - 1] + reg[1..][k..];
      RemoveKeepsGet(reg[1..], k - 1, v);
    }
  }

  /**
   * A stale disconnect cannot evict a newer socket: when user `u` is bound to
   * socket `s`, the disconnect of any other socket leaves that binding alone.
   */
  lemma StaleDisconnectKeepsNewerSocket(reg: seq<Entry>, u: string, s: SocketId, stale: SocketId)
    requires UniqueUsers(reg)
    requires Get(reg, Some(u)) == Some(s) && stale != s
    ensures Get(RemoveFirstWithSocket(reg, stale), Some(u)) == Some(s)
  {
    RemoveFirstWithSocketEffect(reg, stale);
    var k := IndexOfSocket(reg, stale);
    if k < |reg| {
      var i :| 0 <= i < |reg| && Some(reg[i].userId) == Some(u) && reg[i].socketId == s;
      assert i != k;
      GetAt(reg, i);
      RemoveAtEffect(reg, k, Some(u));
    }
  }

  /**
   * A reconnect followed by the old socket's disconnect: user `u` registers on
   * `s1`, then again on `s2`, then `s1` closes. `u` stays registered on `s2`.
   */
  lemma ReconnectThenStaleDisconnect(reg: seq<Entry>, u: string, s1: SocketId, s2: SocketId)
    requires UniqueUsers(reg) && s1 != s2
    ensures Get(RemoveFirstWithSocket(Set(Set(reg, u, s1), u, s2), s1), Some(u)) == Some(s2)
  {
    SetEffect(reg, u, s1);
    SetEffect(Set(reg, u, s1), u, s2);
    StaleDisconnectKeepsNewerSocket(Set(Set(reg, u, s1), u, s2), u, s2, s1);
  }
}

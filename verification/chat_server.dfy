/**
 * The real-time chat server: the connection registry, the message store and
 * the socket events the handlers emit. Each handler runs as one atomic step;
 * the database is the `messages` sequence and every emit is appended to
 * `outbox`, addressed to one socket or broadcast to every socket but one.
 */
module ChatServer {
  import opened Wrappers
  import opened ChatLog
  import opened ChatRegistry

  /** Where an emit goes: `io.to(socketId)` / `socket.emit`, or `socket.broadcast`. */
  datatype Target = ToSocket(socketId: SocketId) | BroadcastExcept(socketId: SocketId)

  datatype Event =
    | UserOnline(userId: string)
    | UserOffline(userId: string)
    | ReceiveMessage(message: Message)
    | MessageSent(message: Message)
    | MessageError(error: string)
    | UserTyping(senderId: Option<string>, isTyping: bool)
    | MessagesRead(readerId: Option<string>)

  datatype Emit = Emit(target: Target, event: Event)

  /** The payload of `send_message`; a field the client left out, or sent as null, is None. */
  datatype SendPayload = SendPayload(senderId: Option<string>, receiverId: Option<string>, text: Option<string>, image: Option<string>)

  /** The document `send_message` stores: the payload's fields, unread, stamped `now`, with the store's new id. */
  function Saved(data: SendPayload, id: nat, now: nat): (m: Message)
    ensures m.senderId == data.senderId && m.receiverId == data.receiverId
    ensures m.text == data.text && m.image == data.image
    ensures !m.isRead && m.readAt.None? && m.createdAt == now && m.id == id
  {
    Message(id, data.senderId, data.receiverId, data.text, data.image, false, None, now)
  }

  /** The emit that reaches `userId` if it is registered, and nothing otherwise. */
  function ToUser(registry: seq<Entry>, userId: Option<string>, e: Event): (r: seq<Emit>)
    ensures |r| <= 1
    ensures r != [] <==> Get(registry, userId).Some?
    ensures r != [] ==> r[0] == Emit(ToSocket(Get(registry, userId).value), e)
  {
    match Get(registry, userId)
    case Some(s) => [Emit(ToSocket(s), e)]
    case None => []
  }

  class Server {
    var registry: seq<Entry>
    var messages: seq<Message>
    var outbox: seq<Emit>

    /** One entry per user, and every stored message carries its own position as id. */
    ghost predicate Valid()
      reads this
    {
      && UniqueUsers(registry)
      && (forall i :: 0 <= i < |messages| ==> messages[i].id == i)
    }

    constructor ()
      ensures Valid()
      ensures registry == [] && messages == [] && outbox == []
    {
      registry := [];
      messages := [];
      outbox := [];
    }

    /**
     * `user_connected`: a falsy user id is ignored; otherwise the user is bound
     * to this socket (replacing an earlier binding) and every other socket
     * hears that the user is online.
     */
    method UserConnected(socket: SocketId, userId: Option<string>)
      requires Valid()
      modifies this
      ensures Valid()
      ensures messages == old(messages)
      ensures !Truthy(userId) ==> registry == old(registry) && outbox == old(outbox)
      ensures Truthy(userId) ==>
        && registry == Set(old(registry), userId.value, socket)
        && outbox == old(outbox) + [Emit(BroadcastExcept(socket), UserOnline(userId.value))]
      ensures Truthy(userId) ==> Get(registry, userId) == Some(socket)
      ensures forall v :: Truthy(userId) && v != userId ==> Get(registry, v) == Get(old(registry), v)
    {
      if !Truthy(userId) {
        return;
      }
      SetEffect(registry, userId.value, socket);
      registry := Set(registry, userId.value, socket);
      outbox := outbox + [Emit(BroadcastExcept(socket), UserOnline(userId.value))];
    }

    /**
     * One `send_message` handler. When the insert succeeds, the message is
     * stored, pushed to the receiver if registered, and echoed to the sender;
     * when it fails, the store is untouched and the sender gets only an error.
     * There is no check of the sender or receiver.
     */
    method SendMessage(socket: SocketId, data: SendPayload, now: nat, insertOk: bool)
      requires Valid()
      modifies this
      ensures Valid()
      ensures registry == old(registry)
      ensures var saved := Saved(data, |old(messages)|, now);
        insertOk ==>
          && messages == old(messages) + [saved]
          && outbox == old(outbox) + ToUser(registry, data.receiverId, ReceiveMessage(saved)) + [Emit(ToSocket(socket), MessageSent(saved))]
      ensures !insertOk ==>
        && messages == old(messages)
        && outbox == old(outbox) + [Emit(ToSocket(socket), MessageError("Failed to send message"))]
      ensures insertOk && data.senderId.Some? && data.receiverId.Some? ==>
        Saved(data, |old(messages)|, now) in History(messages, data.senderId.value, data.receiverId.value)
    {
      if !insertOk {
        outbox := outbox + [Emit(ToSocket(socket), MessageError("Failed to send message"))];
        return;
      }
      var saved := Saved(data, |messages|, now);
      messages := messages + [saved];
      var receiverSocket := Get(registry, data.receiverId);
      if receiverSocket.Some? {
        outbox := outbox + [Emit(ToSocket(receiverSocket.value), ReceiveMessage(saved))];
      }
      outbox := outbox + [Emit(ToSocket(socket), MessageSent(saved))];
    }

    /**
     * The event `send_message` as dispatched: the handler is registered twice,
     * so both copies run, each with its own insert and its own clock reading.
     * When both inserts succeed, the receiver (if connected) gets the message
     * twice and the sender gets two acknowledgements.
     */
    method DispatchSendMessage(socket: SocketId, data: SendPayload, now1: nat, ok1: bool, now2: nat, ok2: bool)
      requires Valid()
      modifies this
      ensures Valid()
      ensures registry == old(registry)
      ensures ok1 && ok2 ==> messages == old(messages) + [Saved(data, |old(messages)|, now1), Saved(data, |old(messages)| + 1, now2)]
      ensures ok1 && ok2 ==>
        var first := Saved(data, |old(messages)|, now1);
        var second := Saved(data, |old(messages)| + 1, now2);
        outbox == old(outbox)
          + ToUser(registry, data.receiverId, ReceiveMessage(first)) + [Emit(ToSocket(socket), MessageSent(first))]
          + ToUser(registry, data.receiverId, ReceiveMessage(second)) + [Emit(ToSocket(socket), MessageSent(second))]
      ensures |messages| == |old(messages)| + (if ok1 then 1 else 0) + (if ok2 then 1 else 0)
    {
      SendMessage(socket, data, now1, ok1);
      SendMessage(socket, data, now2, ok2);
    }

    /** `typing_start` / `typing_stop`: relayed to the receiver if registered, dropped otherwise. */
    method Typing(receiverId: Option<string>, senderId: Option<string>, isTyping: bool)
      modifies this
      ensures registry == old(registry) && messages == old(messages)
      ensures outbox == old(outbox) + ToUser(registry, receiverId, UserTyping(senderId, isTyping))
    {
      var receiverSocket := Get(registry, receiverId);
      if receiverSocket.Some? {
        outbox := outbox + [Emit(ToSocket(receiverSocket.value), UserTyping(senderId, isTyping))];
      }
    }

    /**
     * `mark_messages_read`: every unread message from `otherUserId` to `userId`
     * becomes read at `now`, then `otherUserId`, if registered, gets a read
     * receipt, whether or not any message changed. When the update fails the
     * error is swallowed and nothing changes.
     */
    method MarkMessagesRead(userId: Option<string>, otherUserId: Option<string>, now: nat, updateOk: bool)
      requires Valid()
      modifies this
      ensures Valid()
      ensures registry == old(registry)
      ensures updateOk ==>
        && messages == MarkRead(old(messages), userId, otherUserId, now)
        && outbox == old(outbox) + ToUser(registry, otherUserId, MessagesRead(userId))
      ensures !updateOk ==> messages == old(messages) && outbox == old(outbox)
      ensures updateOk ==> CountUnread(messages, userId, otherUserId) == 0
    {
      if !updateOk {
        return;
      }
      MarkReadLeavesNoUnread(messages, userId, otherUserId, now);
      messages := MarkRead(messages, userId, otherUserId, now);
      var otherSocket := Get(registry, otherUserId);
      if otherSocket.Some? {
        outbox := outbox + [Emit(ToSocket(otherSocket.value), MessagesRead(userId))];
      }
    }

    /**
     * `PUT /messages/read`: the same update, refused with 400 when either id is
     * falsy; no socket is told.
     */
    method MarkReadHttp(userId: Option<string>, otherUserId: Option<string>, now: nat) returns (r: Result<bool>)
      requires Valid()
      modifies this
      ensures Valid()
      ensures registry == old(registry) && outbox == old(outbox)
      ensures r.Err? <==> !Truthy(userId) || !Truthy(otherUserId)
      ensures r.Err? ==> r.error.BadRequest? && messages == old(messages)
      ensures r.Ok? ==> r.value && messages == MarkRead(old(messages), userId, otherUserId, now)
    {
      if !Truthy(userId) || !Truthy(otherUserId) {
        return Err(BadRequest("userId and otherUserId required"));
      }
      messages := MarkRead(messages, userId, otherUserId, now);
      return Ok(true);
    }

    /**
     * `disconnect`: walk the registry in Map order, delete the first entry
     * bound to the closing socket, tell every other socket that its user is
     * offline, and stop. Nothing happens when no entry has this socket.
     */
    method Disconnect(socket: SocketId)
      requires Valid()
      modifies this
      ensures Valid()
      ensures messages == old(messages)
      ensures registry == RemoveFirstWithSocket(old(registry), socket)
      ensures var k := IndexOfSocket(old(registry), socket);
        outbox == old(outbox) + if k < |old(registry)| then [Emit(BroadcastExcept(socket), UserOffline(old(registry)[k].userId))] else []
      ensures forall v :: Get(old(registry), v) != Some(socket) ==> Get(registry, v) == Get(old(registry), v)
    {
      RemoveFirstWithSocketEffect(registry, socket);
      var k := IndexOfSocket(registry, socket);
      if k < |registry| {
        forall v | Get(registry, v) != Some(socket)
          ensures Get(registry[..k] + registry[k + 1..], v) == Get(registry, v)
        {
          RemoveAtEffect(registry, k, v);
          if v == Some(registry[k].userId) {
            GetAt(registry, k);
          }
        }
        RemoveAtEffect(registry, k, None);
      }
      var i := 0;
      while i < |registry|
        invariant 0 <= i <= |registry|
        invariant forall j :: 0 <= j < i ==> registry[j].socketId != socket
        invariant registry == old(registry) && outbox == old(outbox)
        decreases |registry| - i
      {
        if registry[i].socketId == socket {
          assert i == k;
          var userId := registry[i].userId;
          registry := registry[..i] + registry[i + 1..];
          outbox := outbox + [Emit(BroadcastExcept(socket), UserOffline(userId))];
          break;
        }
        i := i + 1;
      }
    }
  }
}

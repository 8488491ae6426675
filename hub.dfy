/** The Socket.IO server as the handlers see it: the connected sockets, the
    channels (Socket.IO "rooms") each one is in, and the stream of events sent
    out so far. An emit is recorded together with the sockets it reached at
    that moment. */
module Hub {
  import opened Base
  import opened Store

  type SocketId = int

  /** A channel name: `room-<id>`, the `room-undefined` a payload without a
      `roomId` field yields, or `user-<id>`. */
  datatype Channel = RoomChannel(room: RoomId) | UndefinedRoom | UserChannel(user: UserId)

  /** An authenticated connection: the token's claims and the channels it is in. */
  datatype Conn = Conn(userId: UserId, username: string, channels: set<Channel>)

  datatype Event =
    | Error(reason: string)
    | UserJoined(userId: UserId, username: string, roomId: RoomId)
    /** `author` is None when the users row is missing: the joined SELECT
        finds no row and the payload is `undefined`. */
    | NewMessage(messageId: MessageId, row: Message, author: Option<string>)
    | UserTyping(userId: UserId, username: string, roomId: RoomId, isTyping: bool)
    | MessageEdited(messageId: MessageId, content: string, editedAt: int)
    | MessageDeleted(messageId: MessageId)
    | MessageRecalled(messageId: MessageId)
    /** `payloadRoom` is None when the payload had no `roomId` field. */
    | UserLeft(userId: UserId, username: string, payloadRoom: Option<RoomId>)
    | UserOffline(userId: UserId, username: string)
    /** `createdBy` is None when the value is `undefined`, which JSON drops. */
    | RoomCreated(roomId: RoomId, name: string, createdBy: Option<string>)

  /** `socket.emit`, `socket.to(ch).emit` and `io.to(ch).emit`. */
  datatype Mode = ToSender | ToChannelExceptSender(channel: Channel) | ToChannel(channel: Channel)

  datatype Delivery = Delivery(mode: Mode, recipients: set<SocketId>, event: Event)

  function ChannelsOf(rooms: set<RoomId>): (s: set<Channel>)
    ensures forall c :: c in s <==> c.RoomChannel? && c.room in rooms
  {
    set r | r in rooms :: RoomChannel(r)
  }

  /** The sockets of `sockets` that are in channel `ch`. */
  function InChannel(sockets: map<SocketId, Conn>, ch: Channel): (s: set<SocketId>)
    ensures forall k :: k in s <==> k in sockets && ch in sockets[k].channels
  {
    set k | k in sockets && ch in sockets[k].channels
  }

  class Io {
    var sockets: map<SocketId, Conn>
    var outbox: seq<Delivery>

    constructor ()
      ensures sockets == map[] && outbox == []
    {
      sockets, outbox := map[], [];
    }

    /** The sockets currently in channel `ch`. */
    function Subscribers(ch: Channel): set<SocketId>
      reads this
    {
      InChannel(sockets, ch)
    }

    /** A socket that passed the handshake; it starts in no channel of ours. */
    method Connect(sid: SocketId, c: Conn)
      requires sid !in sockets
      modifies this
      ensures sockets == old(sockets)[sid := c] && outbox == old(outbox)
    {
      sockets := sockets[sid := c];
    }

    /** The transport closed: the socket leaves every channel. */
    method Disconnect(sid: SocketId)
      modifies this
      ensures sockets == old(sockets) - {sid} && outbox == old(outbox)
    {
      sockets := sockets - {sid};
    }

    /** `socket.join(ch)`. */
    method Join(sid: SocketId, ch: Channel)
      requires sid in sockets
      modifies this
      ensures sockets == old(sockets)[sid := old(sockets[sid]).(channels := old(sockets[sid].channels) + {ch})]
      ensures outbox == old(outbox)
    {
      sockets := sockets[sid := sockets[sid].(channels := sockets[sid].channels + {ch})];
    }

    /** `socket.leave(ch)`; leaving a channel one is not in changes nothing. */
    method Leave(sid: SocketId, ch: Channel)
      requires sid in sockets
      modifies this
      ensures sockets == old(sockets)[sid := old(sockets[sid]).(channels := old(sockets[sid].channels) - {ch})]
      ensures outbox == old(outbox)
    {
      sockets := sockets[sid := sockets[sid].(channels := sockets[sid].channels - {ch})];
    }

    /** `socket.emit(e)`: the sending socket alone. */
    method EmitToSender(sid: SocketId, e: Event)
      modifies this
      ensures sockets == old(sockets)
      ensures outbox == old(outbox) + [Delivery(ToSender, {sid}, e)]
    {
      outbox := outbox + [Delivery(ToSender, {sid}, e)];
    }

    /** `socket.to(ch).emit(e)`: every socket in `ch` but the sender. */
    method EmitExcept(sid: SocketId, ch: Channel, e: Event)
      modifies this
      ensures sockets == old(sockets)
      ensures outbox == old(outbox) + [Delivery(ToChannelExceptSender(ch), old(Subscribers(ch)) - {sid}, e)]
    {
      outbox := outbox + [Delivery(ToChannelExceptSender(ch), Subscribers(ch) - {sid}, e)];
    }

    /** `io.to(ch).emit(e)`: every socket in `ch`, the sender included. */
    method EmitChannel(ch: Channel, e: Event)
      modifies this
      ensures sockets == old(sockets)
      ensures outbox == old(outbox) + [Delivery(ToChannel(ch), old(Subscribers(ch)), e)]
    {
      outbox := outbox + [Delivery(ToChannel(ch), Subscribers(ch), e)];
    }
  }
}

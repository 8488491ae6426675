/** The Socket.IO event handlers (server/socket/socketHandlers.ts). Each
    handler is one atomic step over the shared tables `db` and the server
    `io`, on behalf of the connected socket `sid`; `now` is the clock in
    milliseconds. The table updates are specified by the pure transitions
    below, which carry the lemmas. */
module SocketHandlers {
  import opened Base
  import opened Store
  import opened Hub

  // ---------------------------------------------------------------------------
  // Table transitions
  // ---------------------------------------------------------------------------

  /** The role `join-room` inserts, if any: the creator becomes admin, anyone
      else joins a public room as member; a private room admits nobody else. */
  function JoinRole(room: Room, u: UserId): (role: Option<Role>)
    ensures role == Some(Admin) <==> room.createdBy == u
    ensures role == Some(Member) <==> room.createdBy != u && !room.isPrivate
    ensures role != Some(Moderator)
  {
    if room.createdBy == u then Some(Admin)
    else if !room.isPrivate then Some(Member)
    else None
  }

  /** The tables after `join-room`: a membership row is inserted only when
      none exists and the room admits the user. */
  function Joined(t: Tables, r: RoomId, u: UserId, now: int): (t2: Tables)
    ensures t2 == t.(members := t2.members)
    ensures (r, u) in t2.members <==>
      (r, u) in t.members || (r in t.rooms && JoinRole(t.rooms[r], u).Some?)
    ensures (r, u) in t.members ==> t2.members[(r, u)] == t.members[(r, u)]
    ensures (r, u) !in t.members && (r, u) in t2.members ==>
      t2.members[(r, u)] == Membership(JoinRole(t.rooms[r], u).value, now, now)
    ensures forall k :: k != (r, u) ==> (k in t2.members <==> k in t.members)
    ensures forall k :: k != (r, u) && k in t.members ==> t2.members[k] == t.members[k]
  {
    if r in t.rooms && (r, u) !in t.members && JoinRole(t.rooms[r], u).Some? then
      t.(members := t.members[(r, u) := Membership(JoinRole(t.rooms[r], u).value, now, now)])
    else t
  }

  /** Joining twice is joining once: the second join finds the row. */
  lemma JoinIdempotent(t: Tables, r: RoomId, u: UserId, now: int, later: int)
    ensures Joined(Joined(t, r, u, now), r, u, later) == Joined(t, r, u, now)
  {
  }

  /** The message row `send-message` inserts: the type defaults to text and an
      empty or absent file URL is stored as NULL. */
  function Posted(r: RoomId, u: UserId, content: string, kind: Option<MessageKind>,
                  fileUrl: Option<string>, now: int): (m: Message)
    ensures m.roomId == r && m.userId == u && m.content == content && m.createdAt == now
    ensures kind.None? ==> m.kind == Text
    ensures kind.Some? ==> m.kind == kind.value
    ensures m.fileUrl.Some? <==> Truthy(fileUrl)
    ensures m.fileUrl.Some? ==> m.fileUrl == fileUrl
    ensures !m.isEdited && !m.isRecalled && !m.isDeleted
  {
    Message(r, u, content, kind.GetOr(Text), if Truthy(fileUrl) then fileUrl else None,
            None, None, false, false, false, now)
  }

  /** The tables after a member's `send-message`, before the notifications. */
  function Sent(t: Tables, m: Message, now: int): (t2: Tables)
    ensures t2.messages == t.messages[t.nextMessageId := m]
    ensures t2.nextMessageId == t.nextMessageId + 1
    ensures t2.rooms.Keys == t.rooms.Keys
    ensures m.roomId in t.rooms ==> t2.rooms[m.roomId] == t.rooms[m.roomId].(updatedAt := now)
    ensures forall x :: x in t.rooms && x != m.roomId ==> t2.rooms[x] == t.rooms[x]
    ensures t2 == t.(messages := t2.messages, nextMessageId := t2.nextMessageId, rooms := t2.rooms)
  {
    t.(messages := t.messages[t.nextMessageId := m], nextMessageId := t.nextMessageId + 1,
       rooms := Touched(t.rooms, m.roomId, now))
  }

  /** The notifications `ns` are one per user of `users`, all alike but for
      the user: `new_message` from the sender, about room `r`. */
  ghost predicate NotifiesEach(ns: seq<Notification>, users: set<UserId>, title: string, content: string, r: RoomId) {
    && |ns| == |users|
    && (forall i :: 0 <= i < |ns| ==> ns[i] == Notification(ns[i].userId, title, content, r) && ns[i].userId in users)
    && (forall v :: v in users ==> exists i :: 0 <= i < |ns| && ns[i].userId == v)
  }

  lemma {:induction false} NotifiesEachStep(ns: seq<Notification>, users: set<UserId>, v: UserId,
                                            title: string, content: string, r: RoomId)
    requires NotifiesEach(ns, users, title, content, r) && v !in users
    ensures NotifiesEach(ns + [Notification(v, title, content, r)], users + {v}, title, content, r)
  {
    var ns2 := ns + [Notification(v, title, content, r)];
    forall w | w in users + {v} ensures exists i :: 0 <= i < |ns2| && ns2[i].userId == w {
      if w == v {
        assert ns2[|ns|].userId == v;
      } else {
        var i :| 0 <= i < |ns| && ns[i].userId == w;
        assert ns2[i].userId == w;
      }
    }
  }

  /** The author, and only the author, may edit or recall a message. */
  predicate IsAuthor(t: Tables, id: MessageId, u: UserId) {
    id in t.messages && t.messages[id].userId == u
  }

  /** `UPDATE messages SET content = ?, is_edited = TRUE`. */
  function Edited(t: Tables, id: MessageId, content: string): (t2: Tables)
    requires id in t.messages
    ensures t2.messages.Keys == t.messages.Keys
    ensures t2.messages[id] == t.messages[id].(content := content, isEdited := true)
    ensures forall k :: k in t.messages && k != id ==> t2.messages[k] == t.messages[k]
    ensures t2 == t.(messages := t2.messages)
  {
    t.(messages := t.messages[id := t.messages[id].(content := content, isEdited := true)])
  }

  /** Edit checks neither a time window nor the recalled flag: editing a
      recalled message gives it content again while it stays recalled. */
  lemma EditRevivesRecalled(t: Tables, id: MessageId, content: string)
    requires id in t.messages && t.messages[id].isRecalled
    ensures Edited(t, id, content).messages[id].isRecalled
    ensures Edited(t, id, content).messages[id].content == content
  {
  }

  /** Two minutes, in milliseconds. */
  const RecallWindow: int := 2 * 60 * 1000

  /** Recall is refused only when strictly more than two minutes have passed. */
  predicate InRecallWindow(createdAt: int, now: int) {
    !(now - createdAt > RecallWindow)
  }

  lemma RecallWindowEdge(createdAt: int)
    ensures InRecallWindow(createdAt, createdAt + 120000)
    ensures !InRecallWindow(createdAt, createdAt + 120001)
  {
  }

  /** `UPDATE messages SET is_recalled = TRUE, content = ""`. */
  function Recalled(t: Tables, id: MessageId): (t2: Tables)
    requires id in t.messages
    ensures t2.messages.Keys == t.messages.Keys
    ensures t2.messages[id] == t.messages[id].(content := "", isRecalled := true)
    ensures forall k :: k in t.messages && k != id ==> t2.messages[k] == t.messages[k]
    ensures t2 == t.(messages := t2.messages)
  {
    t.(messages := t.messages[id := t.messages[id].(content := "", isRecalled := true)])
  }

  /** Recall has no already-recalled check, and a second recall changes nothing. */
  lemma RecallIdempotent(t: Tables, id: MessageId)
    requires id in t.messages
    ensures Recalled(Recalled(t, id), id) == Recalled(t, id)
  {
  }

  /** `user_deleted_messages` upsert: hides a message from one viewer. */
  function Hidden(t: Tables, u: UserId, id: MessageId, now: int): (t2: Tables)
    ensures t2.hidden.Keys == t.hidden.Keys + {(u, id)}
    ensures t2 == t.(hidden := t2.hidden)
  {
    t.(hidden := t.hidden[(u, id) := now])
  }

  /** Deleting twice hides the same pairs as deleting once, and no message row changes. */
  lemma DeleteIdempotent(t: Tables, u: UserId, id: MessageId, now: int, later: int)
    ensures Hidden(Hidden(t, u, id, now), u, id, later).hidden.Keys == Hidden(t, u, id, now).hidden.Keys
    ensures Hidden(Hidden(t, u, id, now), u, id, later).messages == t.messages
  {
  }

  // ---------------------------------------------------------------------------
  // leave-room payloads
  // ---------------------------------------------------------------------------

  /** What arrives with `leave-room`: an object with `roomId`, or anything
      else (a bare number), whose destructured `roomId` is undefined. */
  datatype LeavePayload = WithRoomId(roomId: RoomId) | BareNumber(n: int)

  function LeaveChannel(p: LeavePayload): (ch: Channel)
    ensures p.WithRoomId? ==> ch == RoomChannel(p.roomId)
    ensures p.BareNumber? ==> ch == UndefinedRoom
  {
    match p
    case WithRoomId(r) => RoomChannel(r)
    case BareNumber(_) => UndefinedRoom
  }

  function PayloadRoom(p: LeavePayload): Option<RoomId> {
    if p.WithRoomId? then Some(p.roomId) else None
  }

  /** The connection after `leave-room`. */
  function AfterLeave(c: Conn, p: LeavePayload): (c2: Conn)
    ensures c2.userId == c.userId && c2.username == c.username
    ensures c2.channels == c.channels - {LeaveChannel(p)}
  {
    c.(channels := c.channels - {LeaveChannel(p)})
  }

  /** What the chat area sends, as written: the room id itself. */
  function ClientLeavePayload(roomId: RoomId): LeavePayload {
    BareNumber(roomId)
  }

  /** As written, leaving a room the socket is in keeps it subscribed. */
  lemma LeaveAsSentKeepsSubscription(c: Conn, roomId: RoomId)
    requires RoomChannel(roomId) in c.channels
    ensures RoomChannel(roomId) in AfterLeave(c, ClientLeavePayload(roomId)).channels
  {
  }

  /** The payload the handler expects: `{ roomId }`. */
  function ClientLeavePayloadFixed(roomId: RoomId): (p: LeavePayload)
    ensures LeaveChannel(p) == RoomChannel(roomId)
  {
    WithRoomId(roomId)
  }

  /** With the intended payload the socket leaves exactly that room's channel. */
  lemma LeaveFixedUnsubscribes(c: Conn, roomId: RoomId)
    ensures AfterLeave(c, ClientLeavePayloadFixed(roomId)).channels == c.channels - {RoomChannel(roomId)}
    ensures RoomChannel(roomId) !in AfterLeave(c, ClientLeavePayloadFixed(roomId)).channels
  {
  }

  // ---------------------------------------------------------------------------
  // Handlers
  // ---------------------------------------------------------------------------

  /** The claims of a token that verifies; None for a missing or invalid token. */
  datatype Claims = Claims(userId: UserId, username: string)

  /** `io.use`: a socket without valid claims is refused; otherwise it is
      admitted and its user is marked online. */
  method Handshake(db: Db, io: Io, sid: SocketId, claims: Option<Claims>, now: int) returns (accepted: bool)
    requires db.Valid() && sid !in io.sockets
    modifies db, io
    ensures db.Valid()
    ensures accepted <==> claims.Some?
    ensures accepted ==>
      && db.State() == old(db.State()).(users := WithStatus(old(db.State()).users, claims.value.userId, Online, now))
      && io.sockets == old(io.sockets)[sid := Conn(claims.value.userId, claims.value.username, {})]
    ensures !accepted ==> db.State() == old(db.State()) && io.sockets == old(io.sockets)
    ensures io.outbox == old(io.outbox)
  {
    if claims.None? {
      return false;
    }
    db.SetStatus(claims.value.userId, Online, now);
    io.Connect(sid, Conn(claims.value.userId, claims.value.username, {}));
    accepted := true;
  }

  /** The rooms the connection query returns: existing rooms with a membership row. */
  function MemberRooms(t: Tables, u: UserId): (s: set<RoomId>)
    ensures forall r :: r in s <==> r in t.rooms && (r, u) in t.members
  {
    set r | r in RoomsOf(t, u) && r in t.rooms
  }

  /** `connection`: the socket joins the channel of every room its user belongs to. */
  method OnConnection(db: Db, io: Io, sid: SocketId)
    requires sid in io.sockets
    modifies io
    ensures io.sockets == old(io.sockets)[sid := old(io.sockets[sid]).(channels :=
      old(io.sockets[sid].channels) + ChannelsOf(MemberRooms(db.State(), old(io.sockets[sid].userId))))]
    ensures io.outbox == old(io.outbox)
  {
    var c := io.sockets[sid];
    var all := MemberRooms(db.State(), c.userId);
    var todo := all;
    ghost var s0 := io.sockets;
    assert c.(channels := c.channels + ChannelsOf(all - todo)) == c;
    assert s0[sid := c] == s0;
    while todo != {}
      invariant todo <= all
      invariant sid in io.sockets
      invariant io.sockets == s0[sid := c.(channels := c.channels + ChannelsOf(all - todo))]
      invariant io.outbox == old(io.outbox)
      decreases |todo|
    {
      var r := Pick(todo);
      io.Join(sid, RoomChannel(r));
      ghost var done := ChannelsOf(all - todo);
      assert ChannelsOf(all - (todo - {r})) == done + {RoomChannel(r)};
      assert c.channels + done + {RoomChannel(r)} == c.channels + ChannelsOf(all - (todo - {r}));
      todo := todo - {r};
    }
    assert all - todo == all;
  }

  /** `join-room`. */
  method JoinRoom(db: Db, io: Io, sid: SocketId, roomId: RoomId, now: int)
    requires db.Valid() && sid in io.sockets
    modifies db, io
    ensures db.Valid()
    ensures db.State() == Joined(old(db.State()), roomId, old(io.sockets[sid].userId), now)
    ensures var t, c := old(db.State()), old(io.sockets[sid]);
      if roomId !in t.rooms then
        && io.sockets == old(io.sockets)
        && io.outbox == old(io.outbox) + [Delivery(ToSender, {sid}, Error("Room does not exist"))]
      else if (roomId, c.userId) !in t.members && JoinRole(t.rooms[roomId], c.userId).None? then
        && io.sockets == old(io.sockets)
        && io.outbox == old(io.outbox) + [Delivery(ToSender, {sid}, Error("Access denied to private room"))]
      else
        && io.sockets == old(io.sockets)[sid := c.(channels := c.channels + {RoomChannel(roomId)})]
        && io.outbox == old(io.outbox) + [Delivery(ToChannelExceptSender(RoomChannel(roomId)),
             old(io.Subscribers(RoomChannel(roomId))) - {sid}, UserJoined(c.userId, c.username, roomId))]
  {
    var c := io.sockets[sid];
    if roomId !in db.rooms {
      io.EmitToSender(sid, Error("Room does not exist"));
      return;
    }
    var room := db.rooms[roomId];
    if (roomId, c.userId) !in db.members {
      var role := JoinRole(room, c.userId);
      if role.None? {
        io.EmitToSender(sid, Error("Access denied to private room"));
        return;
      }
      db.InsertMember(roomId, c.userId, role.value, now);
    }
    ghost var before := io.Subscribers(RoomChannel(roomId));
    io.Join(sid, RoomChannel(roomId));
    assert io.Subscribers(RoomChannel(roomId)) - {sid} == before - {sid};
    io.EmitExcept(sid, RoomChannel(roomId), UserJoined(c.userId, c.username, roomId));
  }

  /** One `new_message` notification per user of `users`. */
  method NotifyAll(db: Db, users: set<UserId>, title: string, content: string, r: RoomId)
    requires db.Valid()
    modifies db
    ensures db.Valid()
    ensures db.State() == old(db.State()).(notifications := db.notifications)
    ensures |db.notifications| >= |old(db.notifications)| && db.notifications[..|old(db.notifications)|] == old(db.notifications)
    ensures NotifiesEach(db.notifications[|old(db.notifications)|..], users, title, content, r)
  {
    var n := |db.notifications|;
    var todo := users;
    assert db.notifications[n..] == [];
    while todo != {}
      invariant todo <= users
      invariant db.Valid()
      invariant db.State() == old(db.State()).(notifications := db.notifications)
      invariant |db.notifications| >= n && db.notifications[..n] == old(db.notifications)
      invariant NotifiesEach(db.notifications[n..], users - todo, title, content, r)
      decreases |todo|
    {
      var v := Pick(todo);
      ghost var ns := db.notifications[n..];
      db.Notify(Notification(v, title, content, r));
      assert db.notifications[n..] == ns + [Notification(v, title, content, r)];
      NotifiesEachStep(ns, users - todo, v, title, content, r);
      assert (users - todo) + {v} == users - (todo - {v});
      todo := todo - {v};
    }
    assert users - todo == users;
  }

  /** `send-message`: a member's message is stored, broadcast to the whole
      room, bumps the room and notifies every offline member but the sender. */
  method SendMessage(db: Db, io: Io, sid: SocketId, roomId: RoomId, content: string,
                     kind: Option<MessageKind>, fileUrl: Option<string>, now: int)
    requires db.Valid() && sid in io.sockets
    modifies db, io
    ensures db.Valid()
    ensures io.sockets == old(io.sockets)
    ensures var t, c := old(db.State()), old(io.sockets[sid]);
      if (roomId, c.userId) !in t.members then
        && db.State() == t
        && io.outbox == old(io.outbox) + [Delivery(ToSender, {sid}, Error("You are not a member of this room"))]
      else
        var m := Posted(roomId, c.userId, content, kind, fileUrl, now);
        && db.State() == Sent(t, m, now).(notifications := db.notifications)
        && |db.notifications| >= |t.notifications|
        && db.notifications[..|t.notifications|] == t.notifications
        && NotifiesEach(db.notifications[|t.notifications|..], OfflineMembers(t, roomId, c.userId),
             "New message from " + c.username, content, roomId)
        && io.outbox == old(io.outbox) + [Delivery(ToChannel(RoomChannel(roomId)),
             old(io.Subscribers(RoomChannel(roomId))), NewMessage(t.nextMessageId, m, Username(t, c.userId)))]
  {
    var c := io.sockets[sid];
    if (roomId, c.userId) !in db.members {
      io.EmitToSender(sid, Error("You are not a member of this room"));
      return;
    }
    // Read up front: neither the insert nor the touch changes members or users.
    var offline := OfflineMembers(db.State(), roomId, c.userId);
    var m := Posted(roomId, c.userId, content, kind, fileUrl, now);
    var id := db.InsertMessage(m);
    io.EmitChannel(RoomChannel(roomId), NewMessage(id, m, Username(db.State(), c.userId)));
    db.TouchRoom(roomId, now);
    NotifyAll(db, offline, "New message from " + c.username, content, roomId);
  }

  /** `typing`: relayed to the rest of the channel; no membership check. */
  method Typing(db: Db, io: Io, sid: SocketId, roomId: RoomId, isTyping: bool)
    requires sid in io.sockets
    modifies io
    ensures io.sockets == old(io.sockets)
    ensures io.outbox == old(io.outbox) + [Delivery(ToChannelExceptSender(RoomChannel(roomId)),
      old(io.Subscribers(RoomChannel(roomId))) - {sid},
      UserTyping(old(io.sockets[sid].userId), old(io.sockets[sid].username), roomId, isTyping))]
  {
    var c := io.sockets[sid];
    io.EmitExcept(sid, RoomChannel(roomId), UserTyping(c.userId, c.username, roomId, isTyping));
  }

  /** `edit-message`: the author's edit is stored and broadcast to the
      message's own room; anyone else gets an error. */
  method EditMessage(db: Db, io: Io, sid: SocketId, id: MessageId, content: string, now: int)
    requires db.Valid() && sid in io.sockets
    modifies db, io
    ensures db.Valid()
    ensures io.sockets == old(io.sockets)
    ensures var t := old(db.State());
      if IsAuthor(t, id, old(io.sockets[sid].userId)) then
        && db.State() == Edited(t, id, content)
        && io.outbox == old(io.outbox) + [Delivery(ToChannel(RoomChannel(t.messages[id].roomId)),
             old(io.Subscribers(RoomChannel(t.messages[id].roomId))), MessageEdited(id, content, now))]
      else
        && db.State() == t
        && io.outbox == old(io.outbox) + [Delivery(ToSender, {sid}, Error("Message not found or unauthorized"))]
  {
    var u := io.sockets[sid].userId;
    if !(id in db.messages && db.messages[id].userId == u) {
      io.EmitToSender(sid, Error("Message not found or unauthorized"));
      return;
    }
    var m := db.messages[id];
    db.UpdateMessage(id, m.(content := content, isEdited := true));
    io.EmitChannel(RoomChannel(m.roomId), MessageEdited(id, content, now));
  }

  /** `delete-message`: hides an existing message from its requester alone. */
  method DeleteMessage(db: Db, io: Io, sid: SocketId, id: MessageId, now: int)
    requires db.Valid() && sid in io.sockets
    modifies db, io
    ensures db.Valid()
    ensures io.sockets == old(io.sockets)
    ensures var t := old(db.State());
      if id in t.messages then
        && db.State() == Hidden(t, old(io.sockets[sid].userId), id, now)
        && io.outbox == old(io.outbox) + [Delivery(ToSender, {sid}, MessageDeleted(id))]
      else
        && db.State() == t
        && io.outbox == old(io.outbox) + [Delivery(ToSender, {sid}, Error("Message not found"))]
  {
    if id !in db.messages {
      io.EmitToSender(sid, Error("Message not found"));
      return;
    }
    db.HideMessage(io.sockets[sid].userId, id, now);
    io.EmitToSender(sid, MessageDeleted(id));
  }

  /** `recall-message`: the author may recall within two minutes; the
      broadcast goes to the room the payload names. */
  method RecallMessage(db: Db, io: Io, sid: SocketId, roomId: RoomId, id: MessageId, now: int)
    requires db.Valid() && sid in io.sockets
    modifies db, io
    ensures db.Valid()
    ensures io.sockets == old(io.sockets)
    ensures var t := old(db.State());
      if !IsAuthor(t, id, old(io.sockets[sid].userId)) then
        && db.State() == t
        && io.outbox == old(io.outbox) + [Delivery(ToSender, {sid}, Error("Message not found or unauthorized"))]
      else if !InRecallWindow(t.messages[id].createdAt, now) then
        && db.State() == t
        && io.outbox == old(io.outbox) + [Delivery(ToSender, {sid}, Error("已超過可收回時間（2分鐘）"))]
      else
        && db.State() == Recalled(t, id)
        && io.outbox == old(io.outbox) + [Delivery(ToChannel(RoomChannel(roomId)),
             old(io.Subscribers(RoomChannel(roomId))), MessageRecalled(id))]
  {
    var u := io.sockets[sid].userId;
    if !(id in db.messages && db.messages[id].userId == u) {
      io.EmitToSender(sid, Error("Message not found or unauthorized"));
      return;
    }
    var m := db.messages[id];
    if now - m.createdAt > RecallWindow {
      io.EmitToSender(sid, Error("已超過可收回時間（2分鐘）"));
      return;
    }
    db.UpdateMessage(id, m.(content := "", isRecalled := true));
    io.EmitChannel(RoomChannel(roomId), MessageRecalled(id));
  }

  /** `mark-read`: upserts the read receipt; nothing is sent. */
  method MarkRead(db: Db, io: Io, sid: SocketId, id: MessageId, now: int)
    requires db.Valid() && sid in io.sockets
    modifies db
    ensures db.Valid()
    ensures db.State() == old(db.State()).(receipts := old(db.receipts)[(id, io.sockets[sid].userId) := now])
  {
    db.MarkReceipt(id, io.sockets[sid].userId, now);
  }

  /** `leave-room`: leaves the payload's channel and tells the rest of it. */
  method LeaveRoom(db: Db, io: Io, sid: SocketId, p: LeavePayload)
    requires sid in io.sockets
    modifies io
    ensures io.sockets == old(io.sockets)[sid := AfterLeave(old(io.sockets[sid]), p)]
    ensures io.outbox == old(io.outbox) + [Delivery(ToChannelExceptSender(LeaveChannel(p)),
      old(io.Subscribers(LeaveChannel(p))) - {sid},
      UserLeft(old(io.sockets[sid].userId), old(io.sockets[sid].username), PayloadRoom(p)))]
  {
    var c := io.sockets[sid];
    var ch := LeaveChannel(p);
    ghost var before := io.Subscribers(ch);
    io.Leave(sid, ch);
    assert io.Subscribers(ch) - {sid} == before - {sid};
    io.EmitExcept(sid, ch, UserLeft(c.userId, c.username, PayloadRoom(p)));
  }

  /** The deliveries `ds` announce `e` once to each room channel of `rooms`,
      reaching the sockets of `sockets` in that channel, sender excluded. */
  ghost predicate AnnouncesEach(ds: seq<Delivery>, rooms: set<RoomId>, sockets: map<SocketId, Conn>, e: Event) {
    && |ds| == |rooms|
    && (forall i :: 0 <= i < |ds| ==>
          && ds[i].mode.ToChannelExceptSender? && ds[i].mode.channel.RoomChannel?
          && ds[i].mode.channel.room in rooms
          && ds[i] == Delivery(ds[i].mode, InChannel(sockets, ds[i].mode.channel), e))
    && (forall r :: r in rooms ==> exists i :: 0 <= i < |ds| && ds[i].mode == ToChannelExceptSender(RoomChannel(r)))
  }

  lemma {:induction false} AnnouncesEachStep(ds: seq<Delivery>, rooms: set<RoomId>, sockets: map<SocketId, Conn>,
                                             e: Event, r: RoomId)
    requires AnnouncesEach(ds, rooms, sockets, e) && r !in rooms
    ensures AnnouncesEach(ds + [Delivery(ToChannelExceptSender(RoomChannel(r)), InChannel(sockets, RoomChannel(r)), e)],
                          rooms + {r}, sockets, e)
  {
    var ds2 := ds + [Delivery(ToChannelExceptSender(RoomChannel(r)), InChannel(sockets, RoomChannel(r)), e)];
    forall q | q in rooms + {r} ensures exists i :: 0 <= i < |ds2| && ds2[i].mode == ToChannelExceptSender(RoomChannel(q)) {
      if q == r {
        assert ds2[|ds|].mode == ToChannelExceptSender(RoomChannel(q));
      } else {
        var i :| 0 <= i < |ds| && ds[i].mode == ToChannelExceptSender(RoomChannel(q));
        assert ds2[i].mode == ToChannelExceptSender(RoomChannel(q));
      }
    }
  }

  /** `socket.to(room-<r>).emit(e)` for each room `r` of `rooms`, from a
      socket that is in no channel any more. */
  method AnnounceToRooms(io: Io, sid: SocketId, rooms: set<RoomId>, e: Event)
    requires sid !in io.sockets
    modifies io
    ensures io.sockets == old(io.sockets)
    ensures |io.outbox| >= |old(io.outbox)| && io.outbox[..|old(io.outbox)|] == old(io.outbox)
    ensures AnnouncesEach(io.outbox[|old(io.outbox)|..], rooms, io.sockets, e)
  {
    var n := |io.outbox|;
    var todo := rooms;
    assert io.outbox[n..] == [];
    while todo != {}
      invariant todo <= rooms
      invariant io.sockets == old(io.sockets)
      invariant |io.outbox| >= n && io.outbox[..n] == old(io.outbox)
      invariant AnnouncesEach(io.outbox[n..], rooms - todo, io.sockets, e)
      decreases |todo|
    {
      var r := Pick(todo);
      ghost var ds := io.outbox[n..];
      io.EmitExcept(sid, RoomChannel(r), e);
      assert io.Subscribers(RoomChannel(r)) - {sid} == InChannel(io.sockets, RoomChannel(r));
      assert io.outbox[n..] == ds + [Delivery(ToChannelExceptSender(RoomChannel(r)), InChannel(io.sockets, RoomChannel(r)), e)];
      AnnouncesEachStep(ds, rooms - todo, io.sockets, e, r);
      assert (rooms - todo) + {r} == rooms - (todo - {r});
      todo := todo - {r};
    }
    assert rooms - todo == rooms;
  }

  /** `disconnect`: the user is marked offline, even while another of its
      sockets stays connected, and every room it belongs to hears so. The
      socket has already left its channels when the handler runs. */
  method Disconnect(db: Db, io: Io, sid: SocketId, now: int)
    requires db.Valid() && sid in io.sockets
    modifies db, io
    ensures db.Valid()
    ensures db.State() == old(db.State()).(users := WithStatus(old(db.users), old(io.sockets[sid].userId), Offline, now))
    ensures io.sockets == old(io.sockets) - {sid}
    ensures |io.outbox| >= |old(io.outbox)| && io.outbox[..|old(io.outbox)|] == old(io.outbox)
    ensures AnnouncesEach(io.outbox[|old(io.outbox)|..], RoomsOf(old(db.State()), old(io.sockets[sid].userId)),
      io.sockets, UserOffline(old(io.sockets[sid].userId), old(io.sockets[sid].username)))
  {
    var c := io.sockets[sid];
    var rooms := RoomsOf(db.State(), c.userId);
    io.Disconnect(sid);
    db.SetStatus(c.userId, Offline, now);
    AnnounceToRooms(io, sid, rooms, UserOffline(c.userId, c.username));
  }
}

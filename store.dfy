/** The database tables the handlers read and write (rooms, room_members,
    messages, user_deleted_messages, message_reads, notifications, users),
    as a value `Tables` and as the mutable `Db` object the handlers share.
    Each `Db` method is one SQL statement of the handlers. */
module Store {
  import opened Base

  type UserId = int
  type RoomId = int
  type MessageId = int

  datatype Role = Admin | Moderator | Member
  datatype MessageKind = Text | Image | File | System
  datatype Status = Online | Offline

  datatype Room = Room(
    name: string,
    description: Option<string>,
    kind: string,
    createdBy: UserId,
    isPrivate: bool,
    createdAt: int,
    updatedAt: int)

  datatype Membership = Membership(role: Role, joinedAt: int, lastReadAt: int)

  datatype Message = Message(
    roomId: RoomId,
    userId: UserId,
    content: string,
    kind: MessageKind,
    fileUrl: Option<string>,
    fileName: Option<string>,
    fileSize: Option<int>,
    isEdited: bool,
    isRecalled: bool,
    isDeleted: bool,
    createdAt: int)

  datatype User = User(username: string, status: Status, lastSeen: int)

  datatype Notification = Notification(userId: UserId, title: string, content: string, relatedRoom: RoomId)

  datatype Tables = Tables(
    rooms: map<RoomId, Room>,
    members: map<(RoomId, UserId), Membership>,
    messages: map<MessageId, Message>,
    hidden: map<(UserId, MessageId), int>,
    receipts: map<(MessageId, UserId), int>,
    notifications: seq<Notification>,
    users: map<UserId, User>,
    nextRoomId: int,
    nextMessageId: int)

  /** Auto-increment counters lie above every id in use, and every
      membership row names an existing room. */
  predicate WellFormed(t: Tables) {
    && (forall r :: r in t.rooms ==> r < t.nextRoomId)
    && (forall m :: m in t.messages ==> m < t.nextMessageId)
    && (forall k :: k in t.members ==> k.0 in t.rooms)
  }

  predicate IsMember(t: Tables, r: RoomId, u: UserId) {
    (r, u) in t.members
  }

  /** `role IN (...)` on the requester's membership row. */
  predicate HasRoleIn(t: Tables, r: RoomId, u: UserId, roles: set<Role>) {
    (r, u) in t.members && t.members[(r, u)].role in roles
  }

  /** A plain row as `INSERT INTO messages (room_id, user_id, content, type)` leaves it. */
  function PlainMessage(r: RoomId, u: UserId, content: string, kind: MessageKind, now: int): Message {
    Message(r, u, content, kind, None, None, None, false, false, false, now)
  }

  function Username(t: Tables, u: UserId): Option<string> {
    if u in t.users then Some(t.users[u].username) else None
  }

  /** The members of `r` other than `sender` whose users row says offline. */
  function OfflineMembers(t: Tables, r: RoomId, sender: UserId): (s: set<UserId>)
    ensures forall v :: v in s <==>
      (r, v) in t.members && v in t.users && t.users[v].status == Offline && v != sender
  {
    set k | k in t.members && k.0 == r && k.1 in t.users && t.users[k.1].status == Offline && k.1 != sender :: k.1
  }

  /** The rooms `u` has a membership row in. */
  function RoomsOf(t: Tables, u: UserId): (s: set<RoomId>)
    ensures forall r :: r in s <==> (r, u) in t.members
  {
    set k | k in t.members && k.1 == u :: k.0
  }

  class Db {
    var rooms: map<RoomId, Room>
    var members: map<(RoomId, UserId), Membership>
    var messages: map<MessageId, Message>
    var hidden: map<(UserId, MessageId), int>
    var receipts: map<(MessageId, UserId), int>
    var notifications: seq<Notification>
    var users: map<UserId, User>
    var nextRoomId: int
    var nextMessageId: int

    function State(): Tables
      reads this
    {
      Tables(rooms, members, messages, hidden, receipts, notifications, users, nextRoomId, nextMessageId)
    }

    ghost predicate Valid()
      reads this
    {
      WellFormed(State())
    }

    constructor (users: map<UserId, User>)
      ensures Valid()
      ensures State() == Tables(map[], map[], map[], map[], map[], [], users, 1, 1)
    {
      this.rooms, this.members, this.messages := map[], map[], map[];
      this.hidden, this.receipts, this.notifications := map[], map[], [];
      this.users := users;
      this.nextRoomId, this.nextMessageId := 1, 1;
    }

    /** Replaces every table at once: the commit of a transaction. */
    method Commit(t: Tables)
      requires WellFormed(t)
      modifies this
      ensures Valid() && State() == t
    {
      rooms, members, messages, hidden, receipts := t.rooms, t.members, t.messages, t.hidden, t.receipts;
      notifications, users, nextRoomId, nextMessageId := t.notifications, t.users, t.nextRoomId, t.nextMessageId;
    }

    /** `INSERT INTO messages ...`; the new row gets the next auto-increment id. */
    method InsertMessage(m: Message) returns (id: MessageId)
      requires Valid()
      modifies this
      ensures Valid()
      ensures id == old(nextMessageId) && id !in old(messages)
      ensures State() == old(State()).(messages := old(messages)[id := m], nextMessageId := id + 1)
    {
      id := nextMessageId;
      messages := messages[id := m];
      nextMessageId := nextMessageId + 1;
    }

    /** `UPDATE rooms SET ... WHERE id = ?` on an existing row. */
    method UpdateRoom(r: RoomId, room: Room)
      requires Valid() && r in rooms
      modifies this
      ensures Valid()
      ensures State() == old(State()).(rooms := old(rooms)[r := room])
    {
      rooms := rooms[r := room];
    }

    /** `INSERT INTO room_members (room_id, user_id, role)` for a key not yet present;
        `last_read_at` starts at the insertion time. */
    method InsertMember(r: RoomId, u: UserId, role: Role, now: int)
      requires Valid() && r in rooms && (r, u) !in members
      modifies this
      ensures Valid()
      ensures State() == old(State()).(members := old(members)[(r, u) := Membership(role, now, now)])
    {
      members := members[(r, u) := Membership(role, now, now)];
    }

    /** `DELETE FROM room_members WHERE room_id = ? AND user_id = ?`. */
    method DeleteMember(r: RoomId, u: UserId)
      requires Valid()
      modifies this
      ensures Valid()
      ensures State() == old(State()).(members := old(members) - {(r, u)})
    {
      members := members - {(r, u)};
    }

    /** `UPDATE rooms SET updated_at = NOW() WHERE id = ?` (no row, no change). */
    method TouchRoom(r: RoomId, now: int)
      requires Valid()
      modifies this
      ensures Valid()
      ensures State() == old(State()).(rooms := Touched(old(rooms), r, now))
    {
      rooms := Touched(rooms, r, now);
    }

    /** `UPDATE messages SET ... WHERE id = ?` on an existing row. */
    method UpdateMessage(id: MessageId, m: Message)
      requires Valid() && id in messages
      modifies this
      ensures Valid()
      ensures State() == old(State()).(messages := old(messages)[id := m])
    {
      messages := messages[id := m];
    }

    /** `INSERT INTO user_deleted_messages ... ON DUPLICATE KEY UPDATE deleted_at = NOW()`. */
    method HideMessage(u: UserId, id: MessageId, now: int)
      requires Valid()
      modifies this
      ensures Valid()
      ensures State() == old(State()).(hidden := old(hidden)[(u, id) := now])
    {
      hidden := hidden[(u, id) := now];
    }

    /** `INSERT INTO message_reads ... ON DUPLICATE KEY UPDATE read_at = NOW()`. */
    method MarkReceipt(id: MessageId, u: UserId, now: int)
      requires Valid()
      modifies this
      ensures Valid()
      ensures State() == old(State()).(receipts := old(receipts)[(id, u) := now])
    {
      receipts := receipts[(id, u) := now];
    }

    /** `UPDATE room_members SET last_read_at = NOW() WHERE room_id = ? AND user_id = ?` (no row, no change). */
    method SetLastRead(r: RoomId, u: UserId, now: int)
      requires Valid()
      modifies this
      ensures Valid()
      ensures (r, u) in old(members) ==>
        State() == old(State()).(members := old(members)[(r, u) := old(members)[(r, u)].(lastReadAt := now)])
      ensures (r, u) !in old(members) ==> State() == old(State())
    {
      if (r, u) in members {
        members := members[(r, u) := members[(r, u)].(lastReadAt := now)];
      }
    }

    /** A statement that rewrites the receipts table as a whole (`INSERT ... SELECT`). */
    method SetReceipts(m: map<(MessageId, UserId), int>)
      requires Valid()
      modifies this
      ensures Valid()
      ensures State() == old(State()).(receipts := m)
    {
      receipts := m;
    }

    /** `INSERT INTO notifications ...`. */
    method Notify(n: Notification)
      requires Valid()
      modifies this
      ensures Valid()
      ensures State() == old(State()).(notifications := old(notifications) + [n])
    {
      notifications := notifications + [n];
    }

    /** `UPDATE users SET status = ?, last_seen = NOW() WHERE id = ?`. */
    method SetStatus(u: UserId, status: Status, now: int)
      requires Valid()
      modifies this
      ensures Valid()
      ensures State() == old(State()).(users := WithStatus(old(users), u, status, now))
    {
      users := WithStatus(users, u, status, now);
    }
  }

  function Touched(rooms: map<RoomId, Room>, r: RoomId, now: int): (m: map<RoomId, Room>)
    ensures m.Keys == rooms.Keys
    ensures r in rooms ==> m[r] == rooms[r].(updatedAt := now)
    ensures forall x :: x in rooms && x != r ==> m[x] == rooms[x]
  {
    if r in rooms then rooms[r := rooms[r].(updatedAt := now)] else rooms
  }

  function WithStatus(users: map<UserId, User>, u: UserId, status: Status, now: int): (m: map<UserId, User>)
    ensures m.Keys == users.Keys
    ensures u in users ==> m[u] == users[u].(status := status, lastSeen := now)
    ensures forall x :: x in users && x != u ==> m[x] == users[x]
  {
    if u in users then users[u := users[u].(status := status, lastSeen := now)] else users
  }
}

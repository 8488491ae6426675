/** The rooms REST router (server/routes/rooms.ts). Every route acts for the
    authenticated user `u` (`req.userId`); a reply is a value or an HTTP
    error status. The system messages interpolate `req.username`, which the
    routes read but nothing sets (`RequestUsername`). */
module RoomRoutes {
  import opened Base
  import opened Ordering
  import opened Store
  import opened Hub
  import SocketHandlers

  /** `req.username` as the routes see it. The authentication middleware
      (server/middleware/auth.ts:17-22) sets `req.user` and `req.userId`
      only, so the property is always `undefined`. */
  const RequestUsername: Option<string> := None

  // ---------------------------------------------------------------------------
  // GET /rooms
  // ---------------------------------------------------------------------------

  /** One row of the room list: the room, its creator's name and whether the
      requester belongs to it. */
  datatype RoomRow = RoomRow(id: RoomId, room: Room, creatorName: Option<string>, member: bool)

  function RoomRowOf(t: Tables, r: RoomId, u: UserId): RoomRow
    requires r in t.rooms
  {
    RoomRow(r, t.rooms[r], Username(t, t.rooms[r].createdBy), (r, u) in t.members)
  }

  /** Every room, member or not: the LEFT JOINs keep them all. */
  function RoomRows(t: Tables, u: UserId): set<RoomRow> {
    set r | r in t.rooms :: RoomRowOf(t, r, u)
  }

  /** `ORDER BY r.updated_at DESC, r.created_at DESC`. */
  predicate NewestFirst(a: RoomRow, b: RoomRow) {
    a.room.updatedAt > b.room.updatedAt ||
    (a.room.updatedAt == b.room.updatedAt && a.room.createdAt >= b.room.createdAt)
  }

  lemma NewestFirstIsPreorder()
    ensures TotalPreorder(NewestFirst)
  {
  }

  method ListRooms(db: Db, u: UserId) returns (rows: seq<RoomRow>)
    ensures IsListing(rows, RoomRows(db.State(), u), NewestFirst)
    ensures forall i :: 0 <= i < |rows| ==>
      && rows[i].id in db.rooms && rows[i].room == db.rooms[rows[i].id]
      && (rows[i].member <==> (rows[i].id, u) in db.members)
    ensures forall r :: r in db.rooms ==> exists i :: 0 <= i < |rows| && rows[i].id == r
  {
    NewestFirstIsPreorder();
    rows := SortSet(RoomRows(db.State(), u), NewestFirst);
    forall i | 0 <= i < |rows|
      ensures rows[i].id in db.rooms && rows[i].room == db.rooms[rows[i].id]
      ensures rows[i].member <==> (rows[i].id, u) in db.members
    {
      assert rows[i] in RoomRows(db.State(), u);
    }
    forall r | r in db.rooms ensures exists i :: 0 <= i < |rows| && rows[i].id == r {
      assert RoomRowOf(db.State(), r, u) in RoomRows(db.State(), u);
    }
  }

  // ---------------------------------------------------------------------------
  // POST /rooms
  // ---------------------------------------------------------------------------

  /** The `memberIds` loop of the create transaction: every id but the
      creator's gets a member row; None when an insert hits a key that is
      already there, which aborts the transaction. */
  function AddInitial(m: map<(RoomId, UserId), Membership>, r: RoomId, creator: UserId,
                      ids: seq<UserId>, now: int): (res: Option<map<(RoomId, UserId), Membership>>)
    ensures res.Some? ==> forall k :: k in res.value <==> k in m || (k.0 == r && k.1 != creator && k.1 in ids)
    ensures res.Some? ==> forall k :: k in m ==> res.value[k] == m[k]
    ensures res.Some? ==> forall k :: k in res.value && k !in m ==> res.value[k] == Membership(Member, now, now)
    decreases |ids|
  {
    if ids == [] then Some(m)
    else
      assert ids == [ids[0]] + ids[1..];
      if ids[0] == creator then AddInitial(m, r, creator, ids[1..], now)
      else if (r, ids[0]) in m then None
      else AddInitial(m[(r, ids[0]) := Membership(Member, now, now)], r, creator, ids[1..], now)
  }

  /** An id other than the creator's whose row is already there: present
      before the loop, or inserted by an earlier iteration. */
  predicate Clash(m: map<(RoomId, UserId), Membership>, r: RoomId, creator: UserId, ids: seq<UserId>) {
    exists i :: 0 <= i < |ids| && ids[i] != creator && ((r, ids[i]) in m || ids[i] in ids[..i])
  }

  lemma {:induction false} AddInitialFailsOnClash(m: map<(RoomId, UserId), Membership>, r: RoomId,
                                                  creator: UserId, ids: seq<UserId>, now: int)
    ensures AddInitial(m, r, creator, ids, now).None? <==> Clash(m, r, creator, ids)
    decreases |ids|
  {
    if ids == [] {
      return;
    }
    var v, rest := ids[0], ids[1..];
    if v != creator && (r, v) in m {
      assert ids[0] != creator && (r, ids[0]) in m;
      return;
    }
    var m' := if v == creator then m else m[(r, v) := Membership(Member, now, now)];
    AddInitialFailsOnClash(m', r, creator, rest, now);
    assert AddInitial(m, r, creator, ids, now) == AddInitial(m', r, creator, rest, now);
    if Clash(m', r, creator, rest) {
      var j :| 0 <= j < |rest| && rest[j] != creator && ((r, rest[j]) in m' || rest[j] in rest[..j]);
      assert ids[j + 1] == rest[j];
      if (r, rest[j]) in m' && (r, rest[j]) !in m {
        assert ids[0] in ids[..j + 1];
      } else if (r, rest[j]) !in m' {
        assert rest[..j] == ids[1..j + 1];
        assert ids[j + 1] in ids[..j + 1];
      }
      assert ids[j + 1] != creator && ((r, ids[j + 1]) in m || ids[j + 1] in ids[..j + 1]);
    }
    if Clash(m, r, creator, ids) {
      var i :| 0 <= i < |ids| && ids[i] != creator && ((r, ids[i]) in m || ids[i] in ids[..i]);
      assert i > 0;
      assert rest[i - 1] == ids[i];
      if (r, ids[i]) !in m && ids[i] != v {
        assert ids[..i] == [v] + rest[..i - 1];
        assert rest[i - 1] in rest[..i - 1];
      }
      assert rest[i - 1] != creator && ((r, rest[i - 1]) in m' || rest[i - 1] in rest[..i - 1]);
    }
  }

  /** A repeated id other than the creator's. */
  predicate Repeats(ids: seq<UserId>, creator: UserId) {
    exists i :: 0 <= i < |ids| && ids[i] != creator && ids[i] in ids[..i]
  }

  /** The create transaction, committed (Some) or rolled back (None): the
      room, its creator as admin, every other listed id as member and a
      "created the room" system message naming `actor`, the interpolated
      `req.username`. */
  function Created(t: Tables, u: UserId, actor: Option<string>, name: string, description: Option<string>,
                   kind: Option<string>, memberIds: seq<UserId>, now: int): (res: Option<Tables>)
    requires WellFormed(t)
    ensures res.None? <==> Repeats(memberIds, u)
    ensures res.Some? ==> WellFormed(res.value)
    ensures res.Some? ==> var r, t2 := t.nextRoomId, res.value;
      && r !in t.rooms
      && r in t2.rooms && t2.rooms == t.rooms[r := t2.rooms[r]]
      && t2.rooms[r].name == name && t2.rooms[r].createdBy == u && !t2.rooms[r].isPrivate
      && t2.rooms[r].description == (if Truthy(description) then description else None)
      && t2.rooms[r].kind == kind.GetOr("group")
      && t2.rooms[r].createdAt == now && t2.rooms[r].updatedAt == now
      && (forall v :: (r, v) in t2.members <==> v == u || v in memberIds)
      && t2.members[(r, u)].role == Admin
      && (forall v :: v in memberIds && v != u ==> t2.members[(r, v)].role == Member)
      && (forall k: (RoomId, UserId) :: k.0 != r ==> (k in t2.members <==> k in t.members))
      && (forall k :: k in t.members ==> t2.members[k] == t.members[k])
      && t2.messages == t.messages[t.nextMessageId := PlainMessage(r, u, Interpolate(actor) + " created the room", System, now)]
      && t2 == t.(rooms := t2.rooms, nextRoomId := r + 1, members := t2.members,
                  messages := t2.messages, nextMessageId := t.nextMessageId + 1)
  {
    var r := t.nextRoomId;
    var room := Room(name, if Truthy(description) then description else None, kind.GetOr("group"), u, false, now, now);
    var m1 := t.members[(r, u) := Membership(Admin, now, now)];
    AddInitialFailsOnClash(m1, r, u, memberIds, now);
    FreshRoomClashIsRepeat(t, u, memberIds, now);
    match AddInitial(m1, r, u, memberIds, now)
    case None => None
    case Some(m2) =>
      Some(t.(rooms := t.rooms[r := room], nextRoomId := r + 1, members := m2,
              messages := t.messages[t.nextMessageId := PlainMessage(r, u, Interpolate(actor) + " created the room", System, now)],
              nextMessageId := t.nextMessageId + 1))
  }

  /** In the room about to be created only the creator is a member, so the
      only clash left is a repeated id. */
  lemma FreshRoomClashIsRepeat(t: Tables, u: UserId, ids: seq<UserId>, now: int)
    requires WellFormed(t)
    ensures var r := t.nextRoomId;
      Clash(t.members[(r, u) := Membership(Admin, now, now)], r, u, ids) <==> Repeats(ids, u)
  {
    var r := t.nextRoomId;
    var m1 := t.members[(r, u) := Membership(Admin, now, now)];
    if Clash(m1, r, u, ids) {
      var i :| 0 <= i < |ids| && ids[i] != u && ((r, ids[i]) in m1 || ids[i] in ids[..i]);
      assert (r, ids[i]) !in t.members;
    }
  }

  /** `io.to(user-<id>).emit('room-created', ...)` for each listed id, in order. */
  function Announcements(sockets: map<SocketId, Conn>, ids: seq<UserId>, e: Event): (ds: seq<Delivery>)
    ensures |ds| == |ids|
    ensures forall i :: 0 <= i < |ids| ==>
      ds[i] == Delivery(ToChannel(UserChannel(ids[i])), InChannel(sockets, UserChannel(ids[i])), e)
  {
    seq(|ids|, i requires 0 <= i < |ids| => Delivery(ToChannel(UserChannel(ids[i])), InChannel(sockets, UserChannel(ids[i])), e))
  }

  /** No handler ever joins a `user-<id>` channel, so while no socket is in
      one, every room-created announcement reaches nobody. */
  lemma AnnouncementsReachNobody(sockets: map<SocketId, Conn>, ids: seq<UserId>, e: Event)
    requires forall k, v :: k in sockets ==> UserChannel(v) !in sockets[k].channels
    ensures forall i :: 0 <= i < |ids| ==> Announcements(sockets, ids, e)[i].recipients == {}
  {
    forall i | 0 <= i < |ids| ensures Announcements(sockets, ids, e)[i].recipients == {} {
      var s := InChannel(sockets, UserChannel(ids[i]));
      assert Announcements(sockets, ids, e)[i].recipients == s;
      assert forall k :: k !in s;
    }
  }

  /** The create transaction step by step, on the transaction's own view of
      the tables: what it would publish, or None when it rolls back. */
  method RunCreate(t: Tables, u: UserId, actor: Option<string>, name: string, description: Option<string>,
                   kind: Option<string>, memberIds: seq<UserId>, now: int) returns (res: Option<Tables>)
    requires WellFormed(t)
    ensures res == Created(t, u, actor, name, description, kind, memberIds, now)
  {
    var r := t.nextRoomId;
    var room := Room(name, if Truthy(description) then description else None, kind.GetOr("group"), u, false, now, now);
    var m1 := t.members[(r, u) := Membership(Admin, now, now)];
    var m := m1;
    var i := 0;
    while i < |memberIds|
      invariant 0 <= i <= |memberIds|
      invariant AddInitial(m, r, u, memberIds[i..], now) == AddInitial(m1, r, u, memberIds, now)
    {
      var v := memberIds[i];
      assert memberIds[i..] == [v] + memberIds[i + 1..];
      if v != u {
        if (r, v) in m {
          // Duplicate key: the insert throws and the transaction rolls back.
          return None;
        }
        m := m[(r, v) := Membership(Member, now, now)];
      }
      i := i + 1;
    }
    assert memberIds[i..] == [];
    var tx := t.(rooms := t.rooms[r := room], nextRoomId := r + 1, members := m,
                 messages := t.messages[t.nextMessageId := PlainMessage(r, u, Interpolate(actor) + " created the room", System, now)],
                 nextMessageId := t.nextMessageId + 1);
    res := Some(tx);
  }

  /** `io.to(user-<id>).emit('room-created', e)` for each listed id. */
  method AnnounceCreated(io: Io, ids: seq<UserId>, e: Event)
    modifies io
    ensures io.sockets == old(io.sockets)
    ensures io.outbox == old(io.outbox) + Announcements(io.sockets, ids, e)
  {
    var j := 0;
    while j < |ids|
      invariant 0 <= j <= |ids|
      invariant io.sockets == old(io.sockets)
      invariant io.outbox == old(io.outbox) + Announcements(io.sockets, ids[..j], e)
    {
      io.EmitChannel(UserChannel(ids[j]), e);
      assert Announcements(io.sockets, ids[..j + 1], e)
          == Announcements(io.sockets, ids[..j], e) + [Delivery(ToChannel(UserChannel(ids[j])),
                                                               InChannel(io.sockets, UserChannel(ids[j])), e)];
      j := j + 1;
    }
    assert ids[..j] == ids;
  }

  /** POST /rooms. `io` is the server the request carries, null when absent. */
  method CreateRoom(db: Db, io: Io?, u: UserId, name: Option<string>,
                    description: Option<string>, kind: Option<string>, memberIds: seq<UserId>, now: int)
    returns (reply: Reply<RoomId>)
    requires db.Valid()
    modifies db, io
    ensures db.Valid()
    ensures !Truthy(name) ==> reply == Fail(400) && db.State() == old(db.State())
    ensures Truthy(name) ==>
      var res := Created(old(db.State()), u, RequestUsername, name.value, description, kind, memberIds, now);
      && (res.None? ==> reply == Fail(500) && db.State() == old(db.State()))
      && (res.Some? ==> reply == Ok(old(db.nextRoomId)) && db.State() == res.value)
    ensures io != null ==> io.sockets == old(io.sockets)
    ensures io != null && reply.Ok? ==>
      io.outbox == old(io.outbox) + Announcements(io.sockets, memberIds, RoomCreated(reply.value, name.value, None))
    ensures io != null && !reply.Ok? ==> io.outbox == old(io.outbox)
  {
    if !Truthy(name) {
      return Fail(400);
    }
    var r := db.nextRoomId;
    var res := RunCreate(db.State(), u, RequestUsername, name.value, description, kind, memberIds, now);
    if res.None? {
      return Fail(500);
    }
    db.Commit(res.value);
    reply := Ok(r);
    if io != null {
      AnnounceCreated(io, memberIds, RoomCreated(r, name.value, RequestUsername));
    }
  }

  // ---------------------------------------------------------------------------
  // GET /rooms/:roomId
  // ---------------------------------------------------------------------------

  datatype MemberRow = MemberRow(userId: UserId, username: string, status: Status, lastSeen: int,
                                 role: Role, joinedAt: int)

  /** The room's members that have a users row (the JOIN drops the others). */
  function MemberRows(t: Tables, r: RoomId): set<MemberRow> {
    set k | k in t.members && k.0 == r && k.1 in t.users ::
      MemberRow(k.1, t.users[k.1].username, t.users[k.1].status, t.users[k.1].lastSeen,
                t.members[k].role, t.members[k].joinedAt)
  }

  function Rank(role: Role): nat {
    match role
    case Admin => 0
    case Moderator => 1
    case Member => 2
  }

  /** `ORDER BY rm.role = 'admin' DESC, rm.role = 'moderator' DESC, u.username ASC`. */
  predicate RoleThenName(a: MemberRow, b: MemberRow) {
    Rank(a.role) < Rank(b.role) || (Rank(a.role) == Rank(b.role) && LexLeq(a.username, b.username))
  }

  lemma RoleThenNameIsPreorder()
    ensures TotalPreorder(RoleThenName)
  {
    forall a: MemberRow, b: MemberRow ensures RoleThenName(a, b) || RoleThenName(b, a) {
      LexLeqTotal(a.username, b.username);
    }
    forall a: MemberRow, b: MemberRow, c: MemberRow | RoleThenName(a, b) && RoleThenName(b, c)
      ensures RoleThenName(a, c)
    {
      if Rank(a.role) == Rank(b.role) == Rank(c.role) {
        LexLeqTransitive(a.username, b.username, c.username);
      }
    }
  }

  /** In the member list no admin follows a non-admin, and no moderator follows a plain member. */
  lemma AdminsThenModerators(s: seq<MemberRow>, i: int, j: int)
    requires SortedBy(s, RoleThenName) && 0 <= i < j < |s|
    ensures s[j].role == Admin ==> s[i].role == Admin
    ensures s[j].role == Moderator ==> s[i].role != Member
  {
    assert RoleThenName(s[i], s[j]);
  }

  datatype Details = Details(room: Room, creatorName: Option<string>, members: seq<MemberRow>)

  /** Membership is checked before existence: a non-member learns nothing,
      not even whether the room exists. */
  method RoomDetails(db: Db, u: UserId, r: RoomId) returns (reply: Reply<Details>)
    ensures (r, u) !in db.members ==> reply == Fail(403)
    ensures (r, u) in db.members && r !in db.rooms ==> reply == Fail(404)
    ensures (r, u) in db.members && r in db.rooms ==>
      && reply.Ok?
      && reply.value.room == db.rooms[r]
      && reply.value.creatorName == Username(db.State(), db.rooms[r].createdBy)
      && IsListing(reply.value.members, MemberRows(db.State(), r), RoleThenName)
  {
    if (r, u) !in db.members {
      return Fail(403);
    }
    if r !in db.rooms {
      return Fail(404);
    }
    RoleThenNameIsPreorder();
    var members := SortSet(MemberRows(db.State(), r), RoleThenName);
    reply := Ok(Details(db.rooms[r], Username(db.State(), db.rooms[r].createdBy), members));
  }

  // ---------------------------------------------------------------------------
  // GET /rooms/:roomId/messages
  // ---------------------------------------------------------------------------

  datatype MessageRow = MessageRow(id: MessageId, message: Message, username: string)

  /** The room's messages whose author has a users row: deleted, recalled and
      hidden ones included. */
  function RoomMessageRows(t: Tables, r: RoomId): set<MessageRow> {
    set id | id in t.messages && t.messages[id].roomId == r && t.messages[id].userId in t.users ::
      MessageRow(id, t.messages[id], t.users[t.messages[id].userId].username)
  }

  /** `ORDER BY m.created_at ASC`. */
  predicate OldestFirst(a: MessageRow, b: MessageRow) {
    a.message.createdAt <= b.message.createdAt
  }

  /** The first 100 rows of some listing the ordering allows. */
  method RoomMessages(db: Db, u: UserId, r: RoomId) returns (reply: Reply<seq<MessageRow>>)
    ensures (r, u) !in db.members ==> reply == Fail(403)
    ensures (r, u) in db.members ==>
      reply.Ok? && exists s :: IsListing(s, RoomMessageRows(db.State(), r), OldestFirst) && reply.value == Window(s, 0, 100)
  {
    if (r, u) !in db.members {
      return Fail(403);
    }
    var s := SortSet(RoomMessageRows(db.State(), r), OldestFirst);
    reply := Ok(Window(s, 0, 100));
  }

  // ---------------------------------------------------------------------------
  // PUT /rooms/:roomId
  // ---------------------------------------------------------------------------

  const Managers: set<Role> := {Admin, Moderator}

  /** The room after the update: the name changes only to a non-empty value,
      the description whenever the field is present (null clears it). */
  function Renamed(room: Room, name: Option<string>, description: Field<Option<string>>): (room2: Room)
    ensures Truthy(name) ==> room2.name == name.value
    ensures !Truthy(name) ==> room2.name == room.name
    ensures description.Given? ==> room2.description == description.value
    ensures description.Undefined? ==> room2.description == room.description
    ensures room2 == room.(name := room2.name, description := room2.description)
  {
    var named := if Truthy(name) then room.(name := name.value) else room;
    if description.Given? then named.(description := description.value) else named
  }

  /** An update that names neither field leaves the room as it was. */
  lemma RenamedNothing(room: Room, name: Option<string>)
    requires !Truthy(name)
    ensures Renamed(room, name, Undefined) == room
  {
  }

  method UpdateRoom(db: Db, u: UserId, r: RoomId, name: Option<string>, description: Field<Option<string>>)
    returns (reply: Reply<()>)
    requires db.Valid()
    modifies db
    ensures db.Valid()
    ensures !HasRoleIn(old(db.State()), r, u, Managers) ==> reply == Fail(403) && db.State() == old(db.State())
    ensures HasRoleIn(old(db.State()), r, u, Managers) && !Truthy(name) && description.Undefined? ==>
      reply == Fail(400) && db.State() == old(db.State())
    ensures HasRoleIn(old(db.State()), r, u, Managers) && (Truthy(name) || description.Given?) ==>
      reply == Ok(()) && db.State() == old(db.State()).(rooms := old(db.rooms)[r := Renamed(old(db.rooms)[r], name, description)])
  {
    if !((r, u) in db.members && db.members[(r, u)].role in Managers) {
      return Fail(403);
    }
    var room := db.rooms[r];
    var fields := 0;
    if Truthy(name) {
      room := room.(name := name.value);
      fields := fields + 1;
    }
    if description.Given? {
      room := room.(description := description.value);
      fields := fields + 1;
    }
    if fields == 0 {
      return Fail(400);
    }
    db.UpdateRoom(r, room);
    reply := Ok(());
  }

  // ---------------------------------------------------------------------------
  // POST /rooms/:roomId/join and /leave
  // ---------------------------------------------------------------------------

  datatype Joining = AlreadyMember | JoinedRoom(id: RoomId, name: string)

  /** The REST join lets a user in when the room exists and is public, or
      when the user already belongs to it. */
  predicate RestJoinAdmits(t: Tables, r: RoomId, u: UserId) {
    r in t.rooms && ((r, u) in t.members || !t.rooms[r].isPrivate)
  }

  method JoinViaRest(db: Db, u: UserId, r: RoomId, now: int) returns (reply: Reply<Joining>)
    requires db.Valid()
    modifies db
    ensures db.Valid()
    ensures reply.Ok? <==> RestJoinAdmits(old(db.State()), r, u)
    ensures r !in old(db.rooms) ==> reply == Fail(404) && db.State() == old(db.State())
    ensures r in old(db.rooms) && (r, u) in old(db.members) ==> reply == Ok(AlreadyMember) && db.State() == old(db.State())
    ensures r in old(db.rooms) && (r, u) !in old(db.members) && old(db.rooms)[r].isPrivate ==>
      reply == Fail(403) && db.State() == old(db.State())
    ensures r in old(db.rooms) && (r, u) !in old(db.members) && !old(db.rooms)[r].isPrivate ==>
      && reply == Ok(JoinedRoom(r, old(db.rooms)[r].name))
      && db.State() == old(db.State()).(members := old(db.members)[(r, u) := Membership(Member, now, now)])
  {
    if r !in db.rooms {
      return Fail(404);
    }
    var room := db.rooms[r];
    if (r, u) in db.members {
      return Ok(AlreadyMember);
    }
    if room.isPrivate {
      return Fail(403);
    }
    db.InsertMember(r, u, Member, now);
    reply := Ok(JoinedRoom(r, room.name));
  }

  /** The two join paths disagree for the creator of a private room who is no
      longer a member: the socket join readmits the creator as admin, the REST
      join refuses. */
  lemma CreatorJoinPathsDisagree(t: Tables, r: RoomId, u: UserId, now: int)
    requires r in t.rooms && t.rooms[r].isPrivate && t.rooms[r].createdBy == u && (r, u) !in t.members
    ensures !RestJoinAdmits(t, r, u)
    ensures (r, u) in SocketHandlers.Joined(t, r, u, now).members
    ensures SocketHandlers.Joined(t, r, u, now).members[(r, u)].role == Admin
  {
  }

  /** The tables after a member leaves: the row goes, a system message naming
      `actor` (the interpolated `req.username`) comes. */
  function Left(t: Tables, r: RoomId, u: UserId, actor: Option<string>, now: int): (t2: Tables)
    ensures (r, u) !in t2.members
    ensures forall k :: k != (r, u) ==> (k in t2.members <==> k in t.members)
    ensures forall k :: k in t2.members ==> t2.members[k] == t.members[k]
    ensures t2.messages == t.messages[t.nextMessageId := PlainMessage(r, u, Interpolate(actor) + " left the room", System, now)]
    ensures t2 == t.(members := t2.members, messages := t2.messages, nextMessageId := t.nextMessageId + 1)
  {
    t.(members := t.members - {(r, u)},
       messages := t.messages[t.nextMessageId := PlainMessage(r, u, Interpolate(actor) + " left the room", System, now)],
       nextMessageId := t.nextMessageId + 1)
  }

  /** Joining a public room over REST and leaving it again restores the
      membership table; only the "left the room" message remains. */
  lemma JoinThenLeave(t: Tables, r: RoomId, u: UserId, actor: Option<string>, now: int, later: int)
    requires r in t.rooms && !t.rooms[r].isPrivate && (r, u) !in t.members
    ensures Left(t.(members := t.members[(r, u) := Membership(Member, now, now)]), r, u, actor, later).members == t.members
  {
  }

  method LeaveViaRest(db: Db, u: UserId, r: RoomId, now: int) returns (reply: Reply<()>)
    requires db.Valid()
    modifies db
    ensures db.Valid()
    ensures (r, u) !in old(db.members) ==> reply == Fail(400) && db.State() == old(db.State())
    ensures (r, u) in old(db.members) ==> reply == Ok(()) && db.State() == Left(old(db.State()), r, u, RequestUsername, now)
  {
    if (r, u) !in db.members {
      return Fail(400);
    }
    db.DeleteMember(r, u);
    var _ := db.InsertMessage(PlainMessage(r, u, Interpolate(RequestUsername) + " left the room", System, now));
    reply := Ok(());
  }

  /** As written, the "created the room" and "left the room" messages open
      with `UndefinedText`, whoever the requester is. */
  lemma RouteMessagesSayUndefined(t: Tables, u: UserId, r: RoomId, name: string, description: Option<string>,
                                  kind: Option<string>, memberIds: seq<UserId>, now: int)
    requires WellFormed(t) && !Repeats(memberIds, u)
    ensures Created(t, u, RequestUsername, name, description, kind, memberIds, now).value
              .messages[t.nextMessageId].content == UndefinedText + " created the room"
    ensures Left(t, r, u, RequestUsername, now).messages[t.nextMessageId].content == UndefinedText + " left the room"
  {
  }

  /** With the name the token carries (`req.user.username`, set at
      server/middleware/auth.ts:19) passed as `actor`, the messages name the
      user who acted, and two users with different names leave different messages. */
  lemma RouteMessagesNameActor(t: Tables, u: UserId, r: RoomId, claimed: string, other: string,
                               name: string, description: Option<string>, kind: Option<string>,
                               memberIds: seq<UserId>, now: int)
    requires WellFormed(t) && !Repeats(memberIds, u)
    ensures Created(t, u, Some(claimed), name, description, kind, memberIds, now).value
              .messages[t.nextMessageId].content == claimed + " created the room"
    ensures Left(t, r, u, Some(claimed), now).messages[t.nextMessageId].content == claimed + " left the room"
    ensures claimed != other ==>
      Left(t, r, u, Some(claimed), now).messages[t.nextMessageId].content
        != Left(t, r, u, Some(other), now).messages[t.nextMessageId].content
  {
    if claimed != other {
      SameSuffixDistinct(claimed, other, " left the room");
    }
  }

  lemma SameSuffixDistinct(a: string, b: string, suffix: string)
    requires a != b
    ensures a + suffix != b + suffix
  {
    if |a| == |b| {
      var i :| 0 <= i < |a| && a[i] != b[i];
      assert (a + suffix)[i] == a[i] && (b + suffix)[i] == b[i];
    } else {
      assert |a + suffix| != |b + suffix|;
    }
  }

  // ---------------------------------------------------------------------------
  // POST /rooms/:roomId/members, DELETE /rooms/:roomId/members/:userId
  // ---------------------------------------------------------------------------

  /** The ids the add-members loop inserts, in order: those not yet in the
      room, each once. */
  function Newcomers(present: set<UserId>, ids: seq<UserId>): seq<UserId>
    decreases |ids|
  {
    if ids == [] then []
    else
      assert ids == [ids[0]] + ids[1..];
      if ids[0] in present then Newcomers(present, ids[1..])
      else [ids[0]] + Newcomers(present + {ids[0]}, ids[1..])
  }

  /** Exactly the listed ids not yet present are added. */
  lemma {:induction false} NewcomersAreAbsentIds(present: set<UserId>, ids: seq<UserId>, v: UserId)
    ensures v in Newcomers(present, ids) <==> v in ids && v !in present
    decreases |ids|
  {
    if ids != [] {
      var rest := ids[1..];
      assert ids == [ids[0]] + rest;
      if ids[0] in present {
        NewcomersAreAbsentIds(present, rest, v);
      } else {
        NewcomersAreAbsentIds(present + {ids[0]}, rest, v);
      }
    }
  }

  predicate Distinct(s: seq<UserId>) {
    forall i, j :: 0 <= i < j < |s| ==> s[i] != s[j]
  }

  lemma DistinctCons(x: UserId, s: seq<UserId>)
    requires x !in s && Distinct(s)
    ensures Distinct([x] + s)
  {
    var xs := [x] + s;
    forall i, j | 0 <= i < j < |xs| ensures xs[i] != xs[j] {
      assert xs[j] == s[j - 1];
      if i == 0 {
        assert s[j - 1] in s;
      } else {
        assert xs[i] == s[i - 1];
      }
    }
  }

  /** No id is added twice, however often it is listed. */
  lemma {:induction false} NewcomersDistinct(present: set<UserId>, ids: seq<UserId>)
    ensures Distinct(Newcomers(present, ids))
    decreases |ids|
  {
    if ids != [] {
      var rest := ids[1..];
      if ids[0] in present {
        NewcomersDistinct(present, rest);
        assert Newcomers(present, ids) == Newcomers(present, rest);
      } else {
        NewcomersDistinct(present + {ids[0]}, rest);
        NewcomersAreAbsentIds(present + {ids[0]}, rest, ids[0]);
        var tail := Newcomers(present + {ids[0]}, rest);
        DistinctCons(ids[0], tail);
        assert Newcomers(present, ids) == [ids[0]] + tail;
      }
    }
  }

  /** Adding the same ids again adds nobody. */
  lemma NewcomersAgain(present: set<UserId>, ids: seq<UserId>)
    ensures Newcomers(present + (set v | v in Newcomers(present, ids)), ids) == []
  {
    var again := Newcomers(present + (set v | v in Newcomers(present, ids)), ids);
    forall v ensures v !in again {
      NewcomersAreAbsentIds(present, ids, v);
      NewcomersAreAbsentIds(present + (set v | v in Newcomers(present, ids)), ids, v);
    }
    NothingIn(again);
  }

  lemma NothingIn<T>(s: seq<T>)
    requires forall x :: x !in s
    ensures s == []
  {
    if s != [] {
      FirstIn(s);
      assert false;
    }
  }

  lemma FirstIn<T>(s: seq<T>)
    requires s != []
    ensures s[0] in s
  {
  }

  /** The ids already in room `r`. */
  function InRoom(t: Tables, r: RoomId): (s: set<UserId>)
    ensures forall v :: v in s <==> (r, v) in t.members
  {
    set k | k in t.members && k.0 == r :: k.1
  }

  /** The membership table with a member row for each id of `added`. */
  function Admitted(m: map<(RoomId, UserId), Membership>, r: RoomId, added: seq<UserId>, now: int)
    : (m2: map<(RoomId, UserId), Membership>)
    ensures forall k: (RoomId, UserId) :: k in m2 <==> k in m || (k.0 == r && k.1 in added)
    ensures forall k :: k in m && !(k.0 == r && k.1 in added) ==> m2[k] == m[k]
    ensures forall v :: v in added ==> m2[(r, v)] == Membership(Member, now, now)
  {
    if added == [] then m
    else
      var last := added[|added| - 1];
      assert added == added[..|added| - 1] + [last];
      Admitted(m, r, added[..|added| - 1], now)[(r, last) := Membership(Member, now, now)]
  }

  /** The insert loop of the add-members route: one member row per id not
      yet in the room. */
  method InsertNewcomers(db: Db, r: RoomId, ids: seq<UserId>, now: int) returns (added: seq<UserId>)
    requires db.Valid() && r in db.rooms
    modifies db
    ensures db.Valid()
    ensures added == Newcomers(InRoom(old(db.State()), r), ids)
    ensures db.State() == old(db.State()).(members := Admitted(old(db.members), r, added, now))
  {
    ghost var t := db.State();
    ghost var present := InRoom(t, r);
    ghost var seen: set<UserId> := {};
    added := [];
    var i := 0;
    assert present + seen == present && ids[i..] == ids;
    while i < |ids|
      invariant 0 <= i <= |ids|
      invariant forall w :: w in seen <==> w in added
      invariant added + Newcomers(present + seen, ids[i..]) == Newcomers(present, ids)
      invariant db.Valid()
      invariant db.State() == t.(members := Admitted(t.members, r, added, now))
    {
      var v := ids[i];
      assert ids[i..] == [v] + ids[i + 1..];
      assert (r, v) in db.members <==> v in present + seen;
      NewcomersLoopStep(present + seen, added, v, ids[i + 1..], Newcomers(present, ids));
      if (r, v) !in db.members {
        db.InsertMember(r, v, Member, now);
        AdmittedStep(t.members, r, added, v, now);
        assert present + (seen + {v}) == present + seen + {v};
        added := added + [v];
        seen := seen + {v};
      }
      i := i + 1;
    }
    assert ids[i..] == [];
  }

  /** One iteration of the add-members loop keeps the ids still to come
      accounted for. */
  lemma NewcomersLoopStep(present: set<UserId>, added: seq<UserId>, v: UserId, rest: seq<UserId>, all: seq<UserId>)
    requires added + Newcomers(present, [v] + rest) == all
    ensures v in present ==> added + Newcomers(present, rest) == all
    ensures v !in present ==> (added + [v]) + Newcomers(present + {v}, rest) == all
  {
    assert ([v] + rest)[1..] == rest;
    if v !in present {
      var tail := Newcomers(present + {v}, rest);
      assert Newcomers(present, [v] + rest) == [v] + tail;
      assert (added + [v]) + tail == added + ([v] + tail);
    }
  }

  lemma AdmittedStep(m: map<(RoomId, UserId), Membership>, r: RoomId, added: seq<UserId>, v: UserId, now: int)
    ensures Admitted(m, r, added + [v], now) == Admitted(m, r, added, now)[(r, v) := Membership(Member, now, now)]
  {
    assert (added + [v])[..|added|] == added;
  }

  const AddedSuffix: string := " member(s) to the room"

  method AddMembers(db: Db, u: UserId, r: RoomId, ids: seq<UserId>, now: int)
    returns (reply: Reply<seq<UserId>>)
    requires db.Valid()
    modifies db
    ensures db.Valid()
    ensures !HasRoleIn(old(db.State()), r, u, Managers) ==> reply == Fail(403) && db.State() == old(db.State())
    ensures HasRoleIn(old(db.State()), r, u, Managers) ==>
      var added := Newcomers(InRoom(old(db.State()), r), ids);
      var t1 := old(db.State()).(members := Admitted(old(db.members), r, added, now));
      && reply == Ok(added)
      && (added == [] ==> db.State() == t1)
      && (added != [] ==> db.State() == t1.(
            messages := t1.messages[t1.nextMessageId :=
              PlainMessage(r, u, UndefinedText + " added " + NatToString(|added|) + AddedSuffix, System, now)],
            nextMessageId := t1.nextMessageId + 1))
  {
    if !((r, u) in db.members && db.members[(r, u)].role in Managers) {
      return Fail(403);
    }
    var added := InsertNewcomers(db, r, ids, now);
    if |added| > 0 {
      var _ := db.InsertMessage(PlainMessage(r, u, Interpolate(RequestUsername) + " added " + NatToString(|added|) + AddedSuffix, System, now));
    }
    reply := Ok(added);
  }

  /** Adding members never changes an existing membership row. */
  lemma AddMembersKeepsRoles(t: Tables, r: RoomId, ids: seq<UserId>, now: int, k: (RoomId, UserId))
    requires k in t.members
    ensures k in Admitted(t.members, r, Newcomers(InRoom(t, r), ids), now)
    ensures Admitted(t.members, r, Newcomers(InRoom(t, r), ids), now)[k] == t.members[k]
  {
    NewcomersAreAbsentIds(InRoom(t, r), ids, k.1);
  }


  /** The name the removal message uses: the user's name when it is non-empty. */
  function RemovedName(t: Tables, v: UserId): (s: string)
    ensures s != []
    ensures v in t.users && t.users[v].username != "" ==> s == t.users[v].username
    ensures !(v in t.users && t.users[v].username != "") ==> s == "a member"
  {
    if v in t.users && t.users[v].username != "" then t.users[v].username else "a member"
  }

  method RemoveMember(db: Db, u: UserId, r: RoomId, target: UserId, now: int)
    returns (reply: Reply<()>)
    requires db.Valid()
    modifies db
    ensures db.Valid()
    ensures var t := old(db.State());
      if !HasRoleIn(t, r, u, {Admin}) then reply == Fail(403) && db.State() == t
      else if target == u then reply == Fail(400) && db.State() == t
      else if (r, target) !in t.members then reply == Fail(404) && db.State() == t
      else
        && reply == Ok(())
        && db.State() == t.(members := t.members - {(r, target)},
             messages := t.messages[t.nextMessageId :=
               PlainMessage(r, u, UndefinedText + " removed " + RemovedName(t, target) + " from the room", System, now)],
             nextMessageId := t.nextMessageId + 1)
  {
    if !((r, u) in db.members && db.members[(r, u)].role == Admin) {
      return Fail(403);
    }
    if target == u {
      return Fail(400);
    }
    if (r, target) !in db.members {
      // The DELETE affects no row.
      return Fail(404);
    }
    db.DeleteMember(r, target);
    var name := RemovedName(db.State(), target);
    var _ := db.InsertMessage(PlainMessage(r, u, Interpolate(RequestUsername) + " removed " + name + " from the room", System, now));
    reply := Ok(());
  }
}

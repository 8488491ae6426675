/** The messages REST router (server/routes/messages.ts): paged history,
    search, file upload, unread counts and read receipts. Every route acts for
    the authenticated user `u`. */
module MessageRoutes {
  import opened Base
  import opened Ordering
  import opened Store
  import opened Hub
  import opened Attachments
  import SocketHandlers

  // ---------------------------------------------------------------------------
  // GET /messages/room/:roomId
  // ---------------------------------------------------------------------------

  /** A history row: the message, its author's name and how many receipts it has. */
  datatype HistoryRow = HistoryRow(id: MessageId, message: Message, username: string, readCount: nat)

  function ReadCount(t: Tables, id: MessageId): nat {
    |set k | k in t.receipts && k.0 == id|
  }

  /** The room's messages that are not deleted and whose author has a users row. */
  function HistoryRows(t: Tables, r: RoomId): set<HistoryRow> {
    set id | id in t.messages && t.messages[id].roomId == r && !t.messages[id].isDeleted
                && t.messages[id].userId in t.users ::
      HistoryRow(id, t.messages[id], t.users[t.messages[id].userId].username, ReadCount(t, id))
  }

  /** `COUNT(*)` of the room's messages that are not deleted; this count has
      no join with users. */
  function Total(t: Tables, r: RoomId): nat {
    |set id | id in t.messages && t.messages[id].roomId == r && !t.messages[id].isDeleted|
  }

  /** `ORDER BY m.created_at DESC`. */
  predicate LatestFirst(a: HistoryRow, b: HistoryRow) {
    a.message.createdAt >= b.message.createdAt
  }

  /** The order the page is returned in, after `messages.reverse()`. */
  predicate EarliestFirst(a: HistoryRow, b: HistoryRow) {
    a.message.createdAt <= b.message.createdAt
  }

  lemma LatestFirstIsPreorder()
    ensures TotalPreorder(LatestFirst)
  {
  }

  /** `Math.ceil(total / limit)` for a positive limit. */
  function CeilDiv(total: nat, limit: nat): (c: nat)
    requires limit > 0
    ensures c * limit >= total
    ensures total > 0 ==> (c - 1) * limit < total
    ensures total == 0 ==> c == 0
  {
    var c := (total + limit - 1) / limit;
    assert c * limit + (total + limit - 1) % limit == total + limit - 1;
    c
  }

  /** Page `page` (from 1) holds rows exactly when it is one of the
      `totalPages` pages. */
  lemma PageWithinTotal(total: nat, limit: nat, page: int)
    requires limit > 0 && page >= 1
    ensures (page - 1) * limit < total <==> page <= CeilDiv(total, limit)
  {
    var c := CeilDiv(total, limit);
    if page <= c {
      MulLe(page - 1, c - 1, limit);
    } else {
      MulLe(c, page - 1, limit);
    }
  }

  lemma MulLe(a: int, b: int, k: nat)
    requires a <= b
    ensures a * k <= b * k
  {
    var d := b - a;
    assert b * k == a * k + d * k;
  }

  datatype Pagination = Pagination(page: int, limit: int, total: nat, totalPages: Option<nat>)

  datatype HistoryPage = HistoryPage(messages: seq<HistoryRow>, pagination: Pagination)

  /** `page` and `limit` are the parsed query values, None when absent; a
      negative LIMIT or OFFSET makes the query fail. `totalPages` is None
      where JavaScript's division by a zero limit gives no number. */
  method History(db: Db, u: UserId, r: RoomId, page: Option<int>, limit: Option<int>)
    returns (reply: Reply<HistoryPage>)
    ensures (r, u) !in db.members ==> reply == Fail(403)
    ensures var p, l := page.GetOr(1), limit.GetOr(50);
      (r, u) in db.members ==>
        if l < 0 || (p - 1) * l < 0 then reply == Fail(500)
        else
          && reply.Ok?
          && reply.value.pagination == Pagination(p, l, Total(db.State(), r),
               if l == 0 then None else Some(CeilDiv(Total(db.State(), r), l)))
          && exists s :: IsListing(s, HistoryRows(db.State(), r), LatestFirst)
                         && reply.value.messages == Reverse(Window(s, (p - 1) * l, l))
  {
    var p, l := page.GetOr(1), limit.GetOr(50);
    var offset := (p - 1) * l;
    if (r, u) !in db.members {
      return Fail(403);
    }
    if l < 0 || offset < 0 {
      return Fail(500);
    }
    LatestFirstIsPreorder();
    var s := SortSet(HistoryRows(db.State(), r), LatestFirst);
    var total := Total(db.State(), r);
    var pages := if l == 0 then None else Some(CeilDiv(total, l));
    reply := Ok(HistoryPage(Reverse(Window(s, offset, l)), Pagination(p, l, total, pages)));
  }

  /** A page comes out earliest first. */
  lemma PageEarliestFirst(s: seq<HistoryRow>, offset: nat, limit: nat)
    requires SortedBy(s, LatestFirst)
    ensures SortedBy(Reverse(Window(s, offset, limit)), EarliestFirst)
  {
    var w := Window(s, offset, limit);
    assert SortedBy(w, LatestFirst) by {
      forall i, j | 0 <= i < j < |w| ensures LatestFirst(w[i], w[j]) {
        assert w[i] == s[offset + i] && w[j] == s[offset + j];
      }
    }
    var rw := Reverse(w);
    forall i, j | 0 <= i < j < |rw| ensures EarliestFirst(rw[i], rw[j]) {
      assert rw[i] == w[|w| - 1 - i] && rw[j] == w[|w| - 1 - j];
      assert LatestFirst(w[|w| - 1 - j], w[|w| - 1 - i]);
    }
  }

  // ---------------------------------------------------------------------------
  // GET /messages/search
  // ---------------------------------------------------------------------------

  datatype SearchRow = SearchRow(id: MessageId, message: Message, username: string, roomName: string)

  /** Messages in the rooms `u` belongs to, not deleted, whose content
      contains `q`, optionally restricted to one room. */
  function SearchRows(t: Tables, u: UserId, q: string, room: Option<RoomId>): set<SearchRow> {
    set id | id in t.messages && t.messages[id].userId in t.users && t.messages[id].roomId in t.rooms
             && (t.messages[id].roomId, u) in t.members
             && Contains(t.messages[id].content, q) && !t.messages[id].isDeleted
             && (room.Some? ==> t.messages[id].roomId == room.value) ::
      SearchRow(id, t.messages[id], t.users[t.messages[id].userId].username, t.rooms[t.messages[id].roomId].name)
  }

  predicate LatestHitFirst(a: SearchRow, b: SearchRow) {
    a.message.createdAt >= b.message.createdAt
  }

  const SearchLimit: nat := 50

  method Search(db: Db, u: UserId, q: Option<string>, room: Option<RoomId>) returns (reply: Reply<seq<SearchRow>>)
    ensures !Truthy(q) ==> reply == Fail(400)
    ensures Truthy(q) ==>
      && reply.Ok?
      && exists s :: IsListing(s, SearchRows(db.State(), u, q.value, room), LatestHitFirst)
                     && reply.value == Window(s, 0, SearchLimit)
  {
    if !Truthy(q) {
      return Fail(400);
    }
    var s := SortSet(SearchRows(db.State(), u, q.value, room), LatestHitFirst);
    reply := Ok(Window(s, 0, SearchLimit));
  }

  /** Search never shows a message from a room the user is not in, nor a deleted one. */
  lemma SearchStaysInOwnRooms(t: Tables, u: UserId, q: string, room: Option<RoomId>, row: SearchRow)
    requires row in SearchRows(t, u, q, room)
    ensures (row.message.roomId, u) in t.members && !row.message.isDeleted
    ensures Contains(row.message.content, q)
    ensures room.Some? ==> row.message.roomId == room.value
  {
  }

  // ---------------------------------------------------------------------------
  // POST /messages/upload
  // ---------------------------------------------------------------------------

  /** The files under the upload directory, by stored name. */
  class UploadDir {
    var files: set<string>

    constructor (files: set<string>)
      ensures this.files == files
    {
      this.files := files;
    }

    /** `fs.writeFileSync` (also multer's disk storage). */
    method Write(name: string)
      modifies this
      ensures files == old(files) + {name}
    {
      files := files + {name};
    }

    /** `fs.unlinkSync`. */
    method Unlink(name: string)
      modifies this
      ensures files == old(files) - {name}
    {
      files := files - {name};
    }
  }

  /** The part multer receives: the raw name, the name decoded from latin-1
      to UTF-8, the declared MIME type and the size in bytes. */
  datatype UploadedFile = UploadedFile(rawName: string, name: string, mimetype: string, size: nat)

  const UrlPrefix: string := "/uploads/messages/"

  /** The attachment the message records: stored name, URL, display name,
      size and type. */
  datatype Attachment = Attachment(stored: string, url: string, name: string, size: nat, kind: MessageKind)

  /** The HEIC step ran and the converter produced `converted.value` bytes. */
  predicate Converts(f: UploadedFile, converted: Option<nat>) {
    IsHeicFile(f.mimetype, f.name) && converted.Some?
  }

  /** As written, a converted upload whose stored name lacks the
      `.heic`/`.heif` suffix is written onto its own path and then unlinked. */
  predicate LosesFile(f: UploadedFile, stored: string, converted: Option<nat>) {
    Converts(f, converted) && !HasHeicSuffix(stored)
  }

  /** What the upload records for `f`, stored as `stored`, when the HEIC
      conversion (if attempted) yields `converted` bytes or fails (None).
      The stored name is rewritten with the route's own regular expression. */
  function Attached(f: UploadedFile, stored: string, converted: Option<nat>): (a: Attachment)
    ensures a.url == UrlPrefix + a.stored
    ensures a.kind == Image <==> IsImageFile(f.mimetype, a.name)
    ensures a.kind == Image || a.kind == File
    ensures Converts(f, converted) ==>
      && a.stored == JpgName(stored) && a.name == JpgName(f.name) && a.size == converted.value
      && (HasHeicSuffix(stored) ==> EndsWith(a.stored, ".jpg") && a.stored != stored)
      && (!HasHeicSuffix(stored) ==> a.stored == stored)
    ensures !Converts(f, converted) ==>
      a.stored == stored && a.name == f.name && a.size == f.size
  {
    if Converts(f, converted) then
      var s, name := JpgName(stored), JpgName(f.name);
      Attachment(s, UrlPrefix + s, name, converted.value, if IsImageFile(f.mimetype, name) then Image else File)
    else
      Attachment(stored, UrlPrefix + stored, f.name, f.size, if IsImageFile(f.mimetype, f.name) then Image else File)
  }

  /** The upload directory after the HEIC step: on a successful conversion
      the JPEG is written under the rewritten name and the stored part is
      then unlinked. The recorded file is there unless the rewrite left the
      name unchanged. */
  function AfterHeicStep(files: set<string>, f: UploadedFile, stored: string, converted: Option<nat>): (r: set<string>)
    requires stored in files
    ensures stored in r <==> !Converts(f, converted)
    ensures Attached(f, stored, converted).stored in r <==> !LosesFile(f, stored, converted)
    ensures r - {stored, JpgName(stored)} == files - {stored, JpgName(stored)}
  {
    if Converts(f, converted) then FilesAfterConversion(files, stored, JpgName(stored)) else files
  }

  /** A converted HEIC upload is always recorded as an image: the MIME type or
      extension that made it HEIC also makes it an image (for a name without
      '/', as a browser sends it). */
  lemma ConvertedIsImage(f: UploadedFile, stored: string, n: nat)
    requires NoSlash(f.name) && IsHeicFile(f.mimetype, f.name)
    ensures Attached(f, stored, Some(n)).kind == Image
  {
    if f.mimetype != "image/heic" && f.mimetype != "image/heif" {
      HeicNameKeepsImage(f.mimetype, f.name);
    }
  }

  lemma ExtNameOfEmpty()
    ensures ExtName("") == ""
  {
    assert DropTrailingSlashes("") == "";
    assert LastIndexOf("", '/') == -1;
    assert LastPart("") == "";
    assert LastIndexOf("", '.') == -1;
  }

  /** A name with a `.heic`/`.heif` extension is still an image once the
      suffix is rewritten to `.jpg`. */
  lemma HeicNameKeepsImage(mimetype: string, name: string)
    requires NoSlash(name)
    requires ToLower(ExtName(name)) == ".heic" || ToLower(ExtName(name)) == ".heif"
    ensures IsImageFile(mimetype, JpgName(name))
  {
    HeicExtensionAtEnd(name);
    assert HasHeicSuffix(name);
    var stem := name[..|name| - 5];
    var jpg := JpgName(name);
    assert jpg == stem + ".jpg";
    assert NoSlash(stem) by {
      forall j | 0 <= j < |stem| ensures stem[j] != '/' {
        assert stem[j] == name[j];
      }
    }
    JpgExtension(stem);
    JpgIsImageExtension();
    assert ToLower(ExtName(jpg)) in ImageExtensions;
  }

  lemma JpgIsImageExtension()
    ensures ToLower(".jpg") in ImageExtensions
  {
    assert ToLower(".jpg") == ".jpg";
    assert ImageExtensions[0] == ".jpg";
  }

  /** A `.heic`/`.heif` extension is the last five characters, after a
      non-empty stem. */
  lemma HeicExtensionAtEnd(name: string)
    requires NoSlash(name)
    requires ToLower(ExtName(name)) == ".heic" || ToLower(ExtName(name)) == ".heif"
    ensures |name| > 5 && name[|name| - 5..] == ExtName(name)
  {
    assert |ExtName(name)| == 5;
    ExtensionIsSuffix(name);
  }

  /** A non-empty extension of a one-component name is a proper suffix of it. */
  lemma ExtensionIsSuffix(name: string)
    requires NoSlash(name) && ExtName(name) != []
    ensures |ExtName(name)| < |name| && ExtName(name) == name[|name| - |ExtName(name)|..]
  {
    if name == [] {
      ExtNameOfEmpty();
    } else {
      ExtNameOfPlainName(name);
    }
  }

  /** For a one-component name the extension starts at its last '.'. */
  lemma ExtNameOfPlainName(name: string)
    requires NoSlash(name) && name != []
    ensures var d := LastIndexOf(name, '.');
      ExtName(name) == if d <= 0 || name == ".." then "" else name[d..]
  {
    LastPartOfPlainName(name);
  }

  /** A one-component stem followed by ".jpg" has the extension ".jpg". */
  lemma JpgExtension(stem: string)
    requires |stem| > 0 && NoSlash(stem)
    ensures ExtName(stem + ".jpg") == ".jpg"
  {
    var p := stem + ".jpg";
    assert NoSlash(p) by {
      forall j | 0 <= j < |p| ensures p[j] != '/' {
        if j < |stem| { assert p[j] == stem[j]; }
      }
    }
    ExtNameAt(p, |stem|);
  }

  /** The message row an upload inserts. */
  function UploadMessage(r: RoomId, u: UserId, content: Option<string>, a: Attachment, now: int): (m: Message)
    ensures m.roomId == r && m.userId == u && m.kind == a.kind && m.createdAt == now
    ensures m.content == (if Truthy(content) then content.value else "")
    ensures m.fileUrl == Some(a.url) && m.fileName == Some(a.name) && m.fileSize == Some(a.size)
  {
    Message(r, u, if Truthy(content) then content.value else "", a.kind, Some(a.url), Some(a.name), Some(a.size),
            false, false, false, now)
  }

  /** The HEIC step of the upload and the reassignments of `fileName`,
      `fileUrl` and `fileSize` around it: on a successful conversion the JPEG
      is written under the rewritten stored name and the stored original is
      unlinked, so the recorded file survives unless the rewrite changed nothing. */
  method Convert(dir: UploadDir, f: UploadedFile, stored: string, converted: Option<nat>) returns (a: Attachment)
    requires stored in dir.files
    modifies dir
    ensures a == Attached(f, stored, converted)
    ensures dir.files == AfterHeicStep(old(dir.files), f, stored, converted)
  {
    var fileName := f.name;
    var target := stored;
    var fileSize := f.size;
    if IsHeicFile(f.mimetype, fileName) && converted.Some? {
      var jpgName := JpgName(stored);
      dir.Write(jpgName);
      dir.Unlink(stored);
      target := jpgName;
      fileName := JpgName(fileName);
      fileSize := converted.value;
    }
    var fileUrl := UrlPrefix + target;
    var kind := if IsImageFile(f.mimetype, fileName) then Image else File;
    a := Attachment(target, fileUrl, fileName, fileSize, kind);
  }

  /** A URL under the upload prefix names exactly one stored file. */
  lemma UrlNamesOne(s: string, s': string)
    requires UrlPrefix + s == UrlPrefix + s'
    ensures s == s'
  {
    assert s == (UrlPrefix + s)[|UrlPrefix|..];
    assert s' == (UrlPrefix + s')[|UrlPrefix|..];
  }

  /** Some file of the upload directory is served at `url`. */
  predicate Served(files: set<string>, url: Option<string>) {
    exists s :: s in files && url == Some(UrlPrefix + s)
  }

  lemma ServedExactly(files: set<string>, s: string)
    ensures Served(files, Some(UrlPrefix + s)) <==> s in files
  {
    if Served(files, Some(UrlPrefix + s)) {
      var s' :| s' in files && Some(UrlPrefix + s) == Some(UrlPrefix + s');
      UrlNamesOne(s, s');
    }
  }

  /** What an upload leaves behind: the reply, the tables and the upload directory. */
  datatype UploadOutcome = UploadOutcome(reply: Reply<MessageId>, tables: Tables, files: set<string>)

  /** POST /messages/upload on values: multer has already written the part
      as `StoredName(prefix, f.rawName)` when the handler looks at the body.
      An accepted upload's URL names a file that exists, except when the
      conversion writes onto the stored path and then unlinks it. */
  function Uploaded(t: Tables, files: set<string>, u: UserId, file: Option<UploadedFile>, roomId: Option<RoomId>,
                    content: Option<string>, prefix: string, converted: Option<nat>, now: int): (o: UploadOutcome)
    ensures o.reply.Ok? <==> file.Some? && roomId.Some? && IsMember(t, roomId.value, u)
    ensures !o.reply.Ok? ==> o.tables == t
    ensures o.reply.Ok? ==>
      && o.reply.value == t.nextMessageId && o.reply.value in o.tables.messages
      && (Served(o.files, o.tables.messages[o.reply.value].fileUrl) <==>
            !LosesFile(file.value, StoredName(prefix, file.value.rawName), converted))
    ensures WellFormed(t) ==> WellFormed(o.tables)
  {
    if file.None? then UploadOutcome(Fail(400), t, files)
    else
      var stored := StoredName(prefix, file.value.rawName);
      var written := files + {stored};
      if roomId.None? then UploadOutcome(Fail(400), t, written)
      else if (roomId.value, u) !in t.members then UploadOutcome(Fail(403), t, written - {stored})
      else
        var a := Attached(file.value, stored, converted);
        var files' := AfterHeicStep(written, file.value, stored, converted);
        var t' := SocketHandlers.Sent(t, UploadMessage(roomId.value, u, content, a, now), now);
        assert t'.messages[t.nextMessageId].fileUrl == Some(UrlPrefix + a.stored);
        ServedExactly(files', a.stored);
        UploadOutcome(Ok(t.nextMessageId), t', files')
  }

  /** What the upload directory keeps of the stored part: a missing room id
      leaves it behind, a refused upload removes it, a converted HEIC upload
      removes it and keeps the JPEG only when the stored name had the suffix,
      and any other accepted upload keeps it. */
  lemma UploadedFiles(t: Tables, files: set<string>, u: UserId, f: UploadedFile, roomId: Option<RoomId>,
                      content: Option<string>, prefix: string, converted: Option<nat>, now: int)
    ensures var o := Uploaded(t, files, u, Some(f), roomId, content, prefix, converted, now);
      var stored := StoredName(prefix, f.rawName);
      && (roomId.None? ==> stored in o.files)
      && (o.reply == Fail(403) ==> stored !in o.files)
      && (o.reply.Ok? && Converts(f, converted) ==>
            stored !in o.files && (JpgName(stored) in o.files <==> HasHeicSuffix(stored)))
      && (o.reply.Ok? && !Converts(f, converted) ==> stored in o.files)
  {
    var stored := StoredName(prefix, f.rawName);
    if roomId.Some? && (roomId.value, u) in t.members && Converts(f, converted) {
      assert Attached(f, stored, converted).stored == JpgName(stored);
    }
  }

  /** The lost upload end to end: a member sends a file whose name has no
      extension (say "IMG_0001") as image/heic, the conversion succeeds, the
      upload is accepted, and the URL it records names no stored file. */
  lemma SuffixlessHeicUploadLost(t: Tables, files: set<string>, u: UserId, r: RoomId, f: UploadedFile,
                                 content: Option<string>, prefix: string, n: nat, now: int)
    requires (r, u) in t.members
    requires f.mimetype == "image/heic" && ExtName(f.rawName) == ""
    requires |prefix| > 0 && '0' <= prefix[|prefix| - 1] <= '9'
    ensures var o := Uploaded(t, files, u, Some(f), Some(r), content, prefix, Some(n), now);
      o.reply.Ok? && !Served(o.files, o.tables.messages[o.reply.value].fileUrl)
  {
    ConvertedFileLost(prefix, f.rawName, files);
    assert IsHeicFile(f.mimetype, f.name);
  }

  /** POST /messages/upload. `converted` is what the HEIC converter yields,
      None when it fails. The handler's `io` is the one the application
      registers, null when none is. */
  method Upload(db: Db, io: Io?, dir: UploadDir, u: UserId, file: Option<UploadedFile>, roomId: Option<RoomId>,
                content: Option<string>, prefix: string, converted: Option<nat>, now: int)
    returns (reply: Reply<MessageId>)
    requires db.Valid()
    modifies db, io, dir
    ensures db.Valid()
    ensures var o := Uploaded(old(db.State()), old(dir.files), u, file, roomId, content, prefix, converted, now);
      reply == o.reply && db.State() == o.tables && dir.files == o.files
    ensures io != null ==> io.sockets == old(io.sockets)
    ensures io != null && reply.Ok? ==>
      && roomId.Some? && reply.value in db.messages
      && io.outbox == old(io.outbox) + [Delivery(ToChannel(RoomChannel(roomId.value)), InChannel(io.sockets, RoomChannel(roomId.value)),
                                             NewMessage(reply.value, db.messages[reply.value], Username(db.State(), u)))]
    ensures io != null && !reply.Ok? ==> io.outbox == old(io.outbox)
  {
    if file.None? {
      return Fail(400);
    }
    reply := Receive(db, io, dir, u, file.value, roomId, content, prefix, converted, now);
  }

  /** The upload once multer has a file: it is stored before the body is looked at. */
  method Receive(db: Db, io: Io?, dir: UploadDir, u: UserId, f: UploadedFile, roomId: Option<RoomId>,
                 content: Option<string>, prefix: string, converted: Option<nat>, now: int)
    returns (reply: Reply<MessageId>)
    requires db.Valid()
    modifies db, io, dir
    ensures db.Valid()
    ensures var o := Uploaded(old(db.State()), old(dir.files), u, Some(f), roomId, content, prefix, converted, now);
      reply == o.reply && db.State() == o.tables && dir.files == o.files
    ensures io != null ==> io.sockets == old(io.sockets)
    ensures io != null && reply.Ok? ==>
      && roomId.Some? && reply.value in db.messages
      && io.outbox == old(io.outbox) + [Delivery(ToChannel(RoomChannel(roomId.value)), InChannel(io.sockets, RoomChannel(roomId.value)),
                                             NewMessage(reply.value, db.messages[reply.value], Username(db.State(), u)))]
    ensures io != null && !reply.Ok? ==> io.outbox == old(io.outbox)
  {
    var stored := StoredName(prefix, f.rawName);
    dir.Write(stored);
    if roomId.None? {
      return Fail(400);
    }
    reply := Admit(db, io, dir, u, f, roomId.value, content, stored, converted, now);
  }

  /** The upload once the room is known: members go on to `Accept`, anyone
      else gets 403 and the stored file is unlinked. */
  method Admit(db: Db, io: Io?, dir: UploadDir, u: UserId, f: UploadedFile, r: RoomId,
               content: Option<string>, stored: string, converted: Option<nat>, now: int)
    returns (reply: Reply<MessageId>)
    requires db.Valid() && stored in dir.files
    modifies db, io, dir
    ensures db.Valid()
    ensures (r, u) !in old(db.members) ==>
      reply == Fail(403) && db.State() == old(db.State()) && dir.files == old(dir.files) - {stored}
    ensures (r, u) in old(db.members) ==>
      var a := Attached(f, stored, converted);
      && reply == Ok(old(db.nextMessageId))
      && db.State() == SocketHandlers.Sent(old(db.State()), UploadMessage(r, u, content, a, now), now)
      && dir.files == AfterHeicStep(old(dir.files), f, stored, converted)
    ensures io != null ==> io.sockets == old(io.sockets)
    ensures io != null && reply.Ok? ==>
      && reply.value in db.messages
      && io.outbox == old(io.outbox) + [Delivery(ToChannel(RoomChannel(r)), InChannel(io.sockets, RoomChannel(r)),
                                             NewMessage(reply.value, db.messages[reply.value], Username(db.State(), u)))]
    ensures io != null && !reply.Ok? ==> io.outbox == old(io.outbox)
  {
    if (r, u) !in db.members {
      dir.Unlink(stored);
      return Fail(403);
    }
    var id := Accept(db, io, dir, u, f, r, content, stored, converted, now);
    reply := Ok(id);
  }

  /** The upload once the checks have passed: convert, record, broadcast. */
  method Accept(db: Db, io: Io?, dir: UploadDir, u: UserId, f: UploadedFile, r: RoomId,
                content: Option<string>, stored: string, converted: Option<nat>, now: int)
    returns (id: MessageId)
    requires db.Valid() && stored in dir.files
    modifies db, io, dir
    ensures db.Valid()
    ensures var a := Attached(f, stored, converted);
      && id == old(db.nextMessageId)
      && db.State() == SocketHandlers.Sent(old(db.State()), UploadMessage(r, u, content, a, now), now)
      && dir.files == AfterHeicStep(old(dir.files), f, stored, converted)
    ensures io != null ==> io.sockets == old(io.sockets)
    ensures io != null ==>
      io.outbox == old(io.outbox) + [Delivery(ToChannel(RoomChannel(r)), InChannel(io.sockets, RoomChannel(r)),
                                             NewMessage(id, db.messages[id], Username(db.State(), u)))]
  {
    var a := Convert(dir, f, stored, converted);
    id := Record(db, io, r, u, UploadMessage(r, u, content, a, now), now);
  }

  /** The upload's database and broadcast steps: insert the message, bump the
      room, and send `new-message` to the room's channel when there is a server. */
  method Record(db: Db, io: Io?, r: RoomId, u: UserId, m: Message, now: int) returns (id: MessageId)
    requires db.Valid()
    modifies db, io
    ensures db.Valid()
    requires m.roomId == r
    ensures id == old(db.nextMessageId)
    ensures db.State() == SocketHandlers.Sent(old(db.State()), m, now)
    ensures io != null ==> io.sockets == old(io.sockets)
    ensures io != null ==>
      io.outbox == old(io.outbox) + [Delivery(ToChannel(RoomChannel(r)), InChannel(io.sockets, RoomChannel(r)),
                                             NewMessage(id, m, Username(db.State(), u)))]
  {
    id := db.InsertMessage(m);
    var author := Username(db.State(), u);
    db.TouchRoom(r, now);
    if io != null {
      io.EmitChannel(RoomChannel(r), NewMessage(id, m, author));
    }
  }

  // ---------------------------------------------------------------------------
  // GET /messages/unread
  // ---------------------------------------------------------------------------

  /** The messages of room `r` created after `u`'s last read, by other authors
      (deleted and system messages included). */
  function UnreadIn(t: Tables, u: UserId, r: RoomId): set<MessageId>
    requires (r, u) in t.members
  {
    set id | id in t.messages && t.messages[id].roomId == r && t.messages[id].userId != u
             && t.messages[id].createdAt > t.members[(r, u)].lastReadAt
  }

  datatype UnreadRow = UnreadRow(roomName: string, count: nat)

  /** The grouped unread counts: the inner join drops rooms with nothing unread. */
  function UnreadCounts(t: Tables, u: UserId): (counts: map<RoomId, UnreadRow>)
    ensures forall r :: r in counts <==> r in t.rooms && (r, u) in t.members && UnreadIn(t, u, r) != {}
    ensures forall r :: r in counts ==> counts[r].roomName == t.rooms[r].name && counts[r].count == |UnreadIn(t, u, r)|
  {
    map r | r in t.rooms && (r, u) in t.members && UnreadIn(t, u, r) != {} ::
      UnreadRow(t.rooms[r].name, |UnreadIn(t, u, r)|)
  }

  /** Every listed count is at least one, and one's own messages never count. */
  lemma UnreadCountsPositive(t: Tables, u: UserId, r: RoomId)
    requires r in UnreadCounts(t, u)
    ensures UnreadCounts(t, u)[r].count >= 1
    ensures forall id :: id in UnreadIn(t, u, r) ==> t.messages[id].userId != u
  {
    var s := UnreadIn(t, u, r);
    assert s != {};
  }

  // ---------------------------------------------------------------------------
  // POST /messages/room/:roomId/read
  // ---------------------------------------------------------------------------

  /** The receipts after `INSERT ... SELECT ... WHERE NOT EXISTS`: one new row,
      stamped `now`, for each message of room `r` by another author that `u`
      has no receipt for; existing receipts keep their time. */
  function ReceiptsAfterRead(t: Tables, u: UserId, r: RoomId, now: int): (m: map<(MessageId, UserId), int>)
    ensures forall k: (MessageId, UserId) :: k in m <==>
      k in t.receipts || (k.1 == u && k.0 in t.messages && t.messages[k.0].roomId == r && t.messages[k.0].userId != u)
    ensures forall k :: k in t.receipts ==> m[k] == t.receipts[k]
    ensures forall k :: k in m && k !in t.receipts ==> m[k] == now
  {
    var newKeys := set id | id in t.messages && t.messages[id].roomId == r && t.messages[id].userId != u :: (id, u);
    assert forall k: (MessageId, UserId) :: k in newKeys <==>
      (k.1 == u && k.0 in t.messages && t.messages[k.0].roomId == r && t.messages[k.0].userId != u) by {
      forall k: (MessageId, UserId) | k.1 == u && k.0 in t.messages && t.messages[k.0].roomId == r && t.messages[k.0].userId != u
        ensures k in newKeys
      {
        var id := k.0;
        assert k == (id, u);
        assert (id, u) in newKeys;
      }
    }
    map k | k in t.receipts.Keys + newKeys :: if k in t.receipts then t.receipts[k] else now
  }

  /** The membership table after `UPDATE room_members SET last_read_at`; no row, no change. */
  function ReadUpTo(members: map<(RoomId, UserId), Membership>, r: RoomId, u: UserId, now: int)
    : (m: map<(RoomId, UserId), Membership>)
    ensures m.Keys == members.Keys
    ensures (r, u) in members ==> m[(r, u)] == members[(r, u)].(lastReadAt := now)
    ensures forall k :: k in members && k != (r, u) ==> m[k] == members[k]
  {
    if (r, u) in members then members[(r, u) := members[(r, u)].(lastReadAt := now)] else members
  }

  function MarkedRead(t: Tables, u: UserId, r: RoomId, now: int): Tables {
    t.(members := ReadUpTo(t.members, r, u, now), receipts := ReceiptsAfterRead(t, u, r, now))
  }

  /** Marking a room read again adds no receipt and changes none. */
  lemma MarkReadAgainAddsNothing(t: Tables, u: UserId, r: RoomId, now: int, later: int)
    ensures MarkedRead(MarkedRead(t, u, r, now), u, r, later).receipts == MarkedRead(t, u, r, now).receipts
  {
  }

  /** Once a member marks a room read at a time no message of the room is
      newer than, the room has nothing unread for that member. */
  lemma MarkReadClearsUnread(t: Tables, u: UserId, r: RoomId, now: int)
    requires (r, u) in t.members
    requires forall id :: id in t.messages && t.messages[id].roomId == r ==> t.messages[id].createdAt <= now
    ensures r !in UnreadCounts(MarkedRead(t, u, r, now), u)
  {
    var t2 := MarkedRead(t, u, r, now);
    assert forall id :: id !in UnreadIn(t2, u, r);
  }

  /** No membership check: anyone may mark any room read, which inserts
      receipts even for a room they do not belong to. */
  method MarkRoomRead(db: Db, u: UserId, r: RoomId, now: int)
    requires db.Valid()
    modifies db
    ensures db.Valid()
    ensures db.State() == MarkedRead(old(db.State()), u, r, now)
  {
    db.SetLastRead(r, u, now);
    db.SetReceipts(ReceiptsAfterRead(db.State(), u, r, now));
  }

  // ---------------------------------------------------------------------------
  // GET /messages/:messageId/reads
  // ---------------------------------------------------------------------------

  datatype ReadRow = ReadRow(userId: UserId, username: string, readAt: int)

  function ReadRows(t: Tables, id: MessageId): set<ReadRow> {
    set k | k in t.receipts && k.0 == id && k.1 in t.users :: ReadRow(k.1, t.users[k.1].username, t.receipts[k])
  }

  predicate EarliestReadFirst(a: ReadRow, b: ReadRow) {
    a.readAt <= b.readAt
  }

  /** Only a member of the message's room may see who read it. */
  method ReadList(db: Db, u: UserId, id: MessageId) returns (reply: Reply<seq<ReadRow>>)
    ensures !(id in db.messages && (db.messages[id].roomId, u) in db.members) ==> reply == Fail(403)
    ensures id in db.messages && (db.messages[id].roomId, u) in db.members ==>
      reply.Ok? && IsListing(reply.value, ReadRows(db.State(), id), EarliestReadFirst)
  {
    if !(id in db.messages && (db.messages[id].roomId, u) in db.members) {
      return Fail(403);
    }
    var rows := SortSet(ReadRows(db.State(), id), EarliestReadFirst);
    reply := Ok(rows);
  }
}

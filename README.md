# Group chat: rooms, messages and the composer, in Dafny

This project models the rule-bearing core of a group-chat server and its
message composer:

- the Socket.IO event handlers (handshake, connection auto-subscribe,
  `join-room`, `send-message`, `typing`, `edit-message`, `delete-message`,
  `recall-message`, `mark-read`, `leave-room`, `disconnect`);
- the rooms REST router (list, create, details, messages, update, join, leave,
  add members, remove member);
- the messages REST router (paged history, search, upload with the HEIC
  rename, unread counts, mark-room-read, read list) with the `isImageFile` and
  `isHeicFile` classifiers and Node's posix `path.extname`;
- the client's `MessageInput` component: the typing flag, submit, and the
  attachment selection with its 20 MB per-file and 50 MB total caps.

The database tables are the value `Store.Tables` and the mutable `Store.Db`.
Each table is a map keyed as the table's unique key. The Socket.IO server is
`Hub.Io`: the connected sockets, the channels each one is in, and an outbox of
deliveries. Each delivery records how it was addressed (sender only, channel
except sender, whole channel) and the sockets it reached. Every handler is one
atomic step, a method that `modifies` the tables and the server. Its effect is
specified by pure transitions (`SocketHandlers.Joined`, `Sent`, `Edited`,
`Recalled`, `Hidden`, `RoomRoutes.Created`, `Left`, `MessageRoutes.MarkedRead`,
`Uploaded`, ...), and the lemmas are stated about those transitions. The clock is an
integer number of milliseconds passed in as `now`. The authenticated user and
the token's claims are inputs. The rooms router's system messages interpolate
`req.username`, which the authentication middleware never sets
(server/middleware/auth.ts:17-22). The model keeps that property as
`RoomRoutes.RequestUsername`, always undefined, so those messages read
"undefined created the room" and so on, as the code does. A query's `ORDER BY` is modelled as "some
listing of exactly these rows, sorted by the ordering" (`Ordering.IsListing`),
because ties are left to the engine; `LIMIT`/`OFFSET` is `Ordering.Window`.

The composer is the class `MessageInput.Composer`, whose fields are the
component's state hooks. Its calls of the `onSendMessage` prop are logged in
order in `sent`. Its calls of `startTyping` and `stopTyping` are logged in
`typingCalls`. The component takes those two from `useSocket()`
(src/components/MessageInput.tsx:36), but the socket context holds only
`socket` and `connected` (src/providers/SocketProvider.tsx:7-10, 78). So each
logged typing call is a call of `undefined`, which throws a TypeError; no
`typing` event ever leaves the composer (see "## Left out").

Schema facts the code relies on but does not show are assumed as follows:
- `room_members` has a unique key on (room, user);
- a member row inserted without a role gets `member`;
- `last_read_at` starts at the insertion time;
- `user_deleted_messages` and `message_reads` are keyed by their (user, message) pair;
- `rooms.is_private` defaults to false, since no route sets it;
- `room_members.user_id` has no foreign key to `users`, so any id can be
  added as a member and only a duplicate key makes an insert fail;
- `message_reads.read_at` defaults to the insertion time, since the
  mark-read insert gives no time.

## Model

| member | source | states |
|---|---|---|
| Base.Trim | src/components/MessageInput.tsx:77-80 | `String.prototype.trim`: the result is a middle slice of the text with only white space before and after it, it neither starts nor ends with white space, and it is empty exactly when the text is all white space |
| Ordering.SortSet | server/routes/rooms.ts:26 | a result set comes back as a listing of exactly its rows, each once, sorted by the requested total preorder |
| Ordering.Window | server/routes/messages.ts:94 | `LIMIT l OFFSET o` keeps the rows from position `o` on, at most `l` of them, in order |
| Ordering.Reverse | server/routes/messages.ts:105 | `reverse()` puts the last row first, and so on |
| Attachments.ExtName | server/routes/messages.ts:48 | `path.extname` is empty or starts with '.', and contains no '/' and no further '.' |
| Attachments.ImageByExtension | server/routes/messages.ts:45-51 | for a MIME type outside the six image types, `isImageFile` holds exactly when the lower-cased extension is one of the seven listed |
| Attachments.HeicIsImage | server/routes/messages.ts:45-56 | every file `isHeicFile` accepts is also accepted by `isImageFile` |
| Attachments.DotFileNeedsMime | server/routes/messages.ts:53-56 | a dot-file such as ".heic" has no extension, so it is HEIC or an image only through its MIME type |
| Attachments.StoredName | server/routes/messages.ts:31-35 | multer stores a part under the given prefix followed by the original extension, and nothing else |
| Attachments.JpgName | server/routes/messages.ts:196 | the `.heic`/`.heif` suffix, in any case, becomes `.jpg` and the stem is kept; a name without the suffix is unchanged |
| Attachments.ConvertedFileLost | server/routes/messages.ts:196-202 | as written, a HEIC upload whose stored name has no suffix is converted onto its own name and then unlinked, so its recorded file is gone |
| Attachments.ConvertedName | server/routes/messages.ts:196 | the corrected rename always yields a different name ending in ".jpg", and agrees with the written rename when the suffix is there |
| Attachments.ConvertedFileKept | server/routes/messages.ts:199-202 | with the corrected rename the converted file survives the unlink of the original |
| Store.OfflineMembers | server/socket/socketHandlers.ts:175-180 | exactly the room's members with a users row saying offline, the sender excluded |
| Store.RoomsOf | server/socket/socketHandlers.ts:353-356 | exactly the rooms the user has a membership row in |
| Store.Touched | server/socket/socketHandlers.ts:169-172 | `updated_at` of that room alone becomes `now`; a missing room changes nothing |
| Store.WithStatus | server/socket/socketHandlers.ts:41-44 | that user's status and `last_seen` change and no other row does; a missing user changes nothing |
| Store.Db.Commit | server/routes/rooms.ts:86 | the commit replaces every table with the transaction's view at once |
| Store.Db.InsertMessage | server/socket/socketHandlers.ts:151-155 | the row gets the next, unused id, and nothing else changes |
| Store.Db.UpdateRoom | server/routes/rooms.ts:258-261 | only that room's row changes |
| Store.Db.InsertMember | server/routes/rooms.ts:298-301 | exactly one membership row is added, with `last_read_at` at the insertion time |
| Store.Db.DeleteMember | server/routes/rooms.ts:342-345 | exactly that membership row goes |
| Store.Db.TouchRoom | server/routes/messages.ts:246-249 | the tables become `Touched` |
| Store.Db.UpdateMessage | server/socket/socketHandlers.ts:222-225 | only that message row changes |
| Store.Db.HideMessage | server/socket/socketHandlers.ts:256-261 | the (user, message) hide entry is upserted at `now` |
| Store.Db.MarkReceipt | server/socket/socketHandlers.ts:319-324 | the (message, user) receipt is upserted at `now` |
| Store.Db.SetLastRead | server/routes/messages.ts:302-305 | only that member's `last_read_at` changes; with no row, nothing changes |
| Store.Db.SetReceipts | server/routes/messages.ts:308-317 | the receipts table is replaced, and nothing else changes |
| Store.Db.Notify | server/socket/socketHandlers.ts:183-187 | exactly one notification is appended |
| Store.Db.SetStatus | server/socket/socketHandlers.ts:41-44 | the users table becomes `WithStatus` |
| Hub.Io.Connect | server/socket/socketHandlers.ts:46 | an admitted socket joins the server in no channel |
| Hub.Io.Disconnect | server/socket/socketHandlers.ts:344 | a closed socket is gone, and with it its channels |
| Hub.Io.Join | server/socket/socketHandlers.ts:121 | `socket.join` adds exactly that channel to that socket |
| Hub.Io.Leave | server/socket/socketHandlers.ts:334 | `socket.leave` removes exactly that channel from that socket |
| Hub.Io.EmitToSender | server/socket/socketHandlers.ts:116 | `socket.emit` reaches the sending socket alone |
| Hub.Io.EmitExcept | server/socket/socketHandlers.ts:124-128 | `socket.to(ch).emit` reaches every socket in the channel but the sender |
| Hub.Io.EmitChannel | server/socket/socketHandlers.ts:166 | `io.to(ch).emit` reaches every socket in the channel, the sender included |
| SocketHandlers.JoinRole | server/socket/socketHandlers.ts:99-119 | the creator gets admin, anyone else gets member in a public room and nothing in a private one; never moderator |
| SocketHandlers.Joined | server/socket/socketHandlers.ts:99-119 | a membership row is inserted only when none exists and the room admits the user; every other row and table is unchanged |
| SocketHandlers.JoinIdempotent | server/socket/socketHandlers.ts:99-113 | joining a second time changes nothing |
| SocketHandlers.Posted | server/socket/socketHandlers.ts:137-155 | the inserted row carries the sender, room, content and time; the type defaults to text, and an empty file URL is stored as NULL |
| SocketHandlers.Sent | server/socket/socketHandlers.ts:151-172 | exactly one message is added under the next id, the room's `updated_at` becomes `now`, and every other room and field is unchanged |
| SocketHandlers.Edited | server/socket/socketHandlers.ts:222-225 | only that message changes: new content and the edited flag |
| SocketHandlers.EditRevivesRecalled | server/socket/socketHandlers.ts:211-225 | edit checks no recalled flag: a recalled message gets content back and stays recalled |
| SocketHandlers.RecallWindowEdge | server/socket/socketHandlers.ts:288-295 | recall is still allowed at exactly 120000 ms and refused at 120001 ms |
| SocketHandlers.Recalled | server/socket/socketHandlers.ts:298-301 | only that message changes: the recalled flag is set and the content emptied |
| SocketHandlers.RecallIdempotent | server/socket/socketHandlers.ts:276-301 | with no already-recalled check, a second recall changes nothing |
| SocketHandlers.Hidden | server/socket/socketHandlers.ts:256-261 | the (user, message) pair joins the hide set and no other table changes |
| SocketHandlers.DeleteIdempotent | server/socket/socketHandlers.ts:256-261 | deleting twice hides the same pairs as deleting once, and no message row changes |
| SocketHandlers.LeaveChannel | server/socket/socketHandlers.ts:331-334 | a payload with `roomId` names that room's channel; a bare number names `room-undefined` |
| SocketHandlers.AfterLeave | server/socket/socketHandlers.ts:334 | the socket leaves exactly the payload's channel |
| SocketHandlers.LeaveAsSentKeepsSubscription | src/components/ChatArea.tsx:97 | as written, the client's bare-number payload leaves the socket subscribed to the room it meant to leave |
| SocketHandlers.ClientLeavePayloadFixed | server/socket/socketHandlers.ts:331-332 | the corrected payload `{ roomId }` names the room's own channel |
| SocketHandlers.LeaveFixedUnsubscribes | server/socket/socketHandlers.ts:331-334 | with the corrected payload the socket leaves exactly that room's channel |
| SocketHandlers.Handshake | server/socket/socketHandlers.ts:28-50 | a socket without valid claims is refused with nothing changed; otherwise its user is marked online and it is connected in no channel |
| SocketHandlers.MemberRooms | server/socket/socketHandlers.ts:55-60 | exactly the existing rooms the user has a membership row in |
| SocketHandlers.OnConnection | server/socket/socketHandlers.ts:52-69 | the socket is added to the channel of every room its user belongs to, and nothing else changes |
| SocketHandlers.JoinRoom | server/socket/socketHandlers.ts:72-134 | a missing room or a refused private room emits an error to the sender alone and changes no subscription; otherwise the socket is subscribed and the rest of the channel gets `user-joined`; the tables follow `Joined` |
| SocketHandlers.NotifyAll | server/socket/socketHandlers.ts:182-188 | exactly one notification per listed user is appended, and nothing else changes |
| SocketHandlers.SendMessage | server/socket/socketHandlers.ts:136-193 | a non-member gets an error and nothing changes; a member's message is inserted once, broadcast to the whole channel with the sender included, bumps the room, and notifies each offline member but the sender once |
| SocketHandlers.Typing | server/socket/socketHandlers.ts:195-204 | with no membership check, `user-typing` goes to the rest of the channel, and nothing else changes |
| SocketHandlers.EditMessage | server/socket/socketHandlers.ts:206-238 | only the author's edit is stored and broadcast to the message's own room; anyone else gets an error and nothing changes |
| SocketHandlers.DeleteMessage | server/socket/socketHandlers.ts:241-269 | an existing message is hidden from the requester alone and confirmed to the sender only; a missing one gives an error |
| SocketHandlers.RecallMessage | server/socket/socketHandlers.ts:272-312 | a non-author or a late recall gets an error and nothing changes; otherwise the message is recalled and `message-recalled` goes to the room the payload names |
| SocketHandlers.MarkRead | server/socket/socketHandlers.ts:315-328 | the receipt for (message, user) is upserted at `now`, and nothing else changes |
| SocketHandlers.LeaveRoom | server/socket/socketHandlers.ts:331-341 | the socket leaves the payload's channel and the rest of that channel gets `user-left` |
| SocketHandlers.AnnounceToRooms | server/socket/socketHandlers.ts:358-363 | exactly one `user-offline` per room of the user, each to that room's channel |
| SocketHandlers.Disconnect | server/socket/socketHandlers.ts:344-367 | the user is marked offline even while another socket of theirs stays connected, and every room they belong to hears it once |
| RoomRoutes.NewestFirstIsPreorder | server/routes/rooms.ts:26 | the room-list ordering is a total preorder |
| RoomRoutes.ListRooms | server/routes/rooms.ts:8-42 | every room is listed once, newest update first, with `member` set exactly when the requester has a membership row |
| RoomRoutes.AddInitial | server/routes/rooms.ts:71-78 | the member loop adds every listed id but the creator as member and keeps all existing rows |
| RoomRoutes.AddInitialFailsOnClash | server/routes/rooms.ts:71-78 | the member loop fails exactly when an id other than the creator's is already a member or repeats an earlier id |
| RoomRoutes.FreshRoomClashIsRepeat | server/routes/rooms.ts:62-78 | in the new room the only clash possible is a repeated id |
| RoomRoutes.Created | server/routes/rooms.ts:53-109 | the create transaction rolls back exactly on a repeated member id; otherwise it adds the room (public, its description only when truthy, type `group` by default, created and updated at `now`), the creator as admin, each other id as member and one "created the room" message opening with the interpolated `req.username`, and changes nothing else |
| RoomRoutes.RunCreate | server/routes/rooms.ts:53-86 | the step-by-step transaction, with the duplicate-key rollback inside the member loop, computes `Created` |
| RoomRoutes.Announcements | server/routes/rooms.ts:89-98 | one `room-created` per listed id, in order, each to that user's channel; the route's event has no `createdBy`, because `req.username` is undefined |
| RoomRoutes.AnnouncementsReachNobody | server/routes/rooms.ts:92 | while no socket is in any `user-<id>` channel, which no handler joins, every `room-created` reaches nobody |
| RoomRoutes.AnnounceCreated | server/routes/rooms.ts:88-98 | the outbox grows by exactly the announcements |
| RoomRoutes.CreateRoom | server/routes/rooms.ts:45-114 | no name gives 400 and a rollback gives 500, with nothing changed in either case; a commit gives 201 with the new id, the tables of `Created` with `req.username` undefined, and announcements without a creator |
| RoomRoutes.RoleThenNameIsPreorder | server/routes/rooms.ts:157 | the member-list ordering is a total preorder |
| RoomRoutes.AdminsThenModerators | server/routes/rooms.ts:157 | in the member list no admin follows a non-admin, and no moderator follows a plain member |
| RoomRoutes.RoomDetails | server/routes/rooms.ts:117-169 | a non-member gets 403 even for a missing room; a member gets 404 for a missing room, else the room, its creator's name and its members ordered by role, then name |
| RoomRoutes.RoomMessages | server/routes/rooms.ts:172-209 | a non-member gets 403; a member gets the first 100 of the room's messages, oldest first |
| RoomRoutes.Renamed | server/routes/rooms.ts:243-250 | the name changes only to a truthy value, the description whenever the field is present; nothing else changes |
| RoomRoutes.RenamedNothing | server/routes/rooms.ts:243-254 | an update naming neither field leaves the room as it was |
| RoomRoutes.UpdateRoom | server/routes/rooms.ts:212-268 | only an admin or moderator may update (else 403); with neither field present it gives 400; in both cases nothing changes; otherwise the room becomes `Renamed` |
| RoomRoutes.JoinViaRest | server/routes/rooms.ts:270-324 | a missing room gives 404 and a member gets success with no change; a private room gives 403; otherwise exactly one member row is added; success holds exactly when the room exists and is public or already joined |
| RoomRoutes.CreatorJoinPathsDisagree | server/routes/rooms.ts:290-296 | the creator of a private room who has left it is refused by the REST join but readmitted as admin by the socket join |
| RoomRoutes.Left | server/routes/rooms.ts:341-351 | the member's row goes while every other row keeps its values, one "left the room" system message opening with the interpolated `req.username` comes, and nothing else changes |
| RoomRoutes.JoinThenLeave | server/routes/rooms.ts:298-345 | joining a public room over REST and leaving it restores the membership table |
| RoomRoutes.RouteMessagesSayUndefined | server/routes/rooms.ts:83 | as written, the "created the room" and "left the room" messages open with "undefined" whoever the requester is |
| RoomRoutes.RouteMessagesNameActor | server/routes/rooms.ts:350 | with the token's name interpolated instead, the messages open with that name, and two different names give different messages |
| RoomRoutes.LeaveViaRest | server/routes/rooms.ts:328-358 | a non-member gets 400 with nothing changed; otherwise the tables become `Left` with `req.username` undefined |
| RoomRoutes.NewcomersAreAbsentIds | server/routes/rooms.ts:378-392 | an id is added exactly when it is listed and was not yet in the room |
| RoomRoutes.NewcomersDistinct | server/routes/rooms.ts:378-392 | no id is added twice, however often it is listed |
| RoomRoutes.NewcomersAgain | server/routes/rooms.ts:378-392 | adding the same ids again adds nobody |
| RoomRoutes.Admitted | server/routes/rooms.ts:385-389 | each added id gets a member row, and every other row is kept |
| RoomRoutes.InsertNewcomers | server/routes/rooms.ts:376-392 | the loop adds exactly the newcomers, in input order, and returns them as `addedUsers` |
| RoomRoutes.AddMembers | server/routes/rooms.ts:361-410 | only an admin or moderator may add (else 403, nothing changed); the reply lists exactly the ids added, and an "undefined added N member(s) to the room" message is written only when at least one was added |
| RoomRoutes.AddMembersKeepsRoles | server/routes/rooms.ts:380-389 | adding members never changes an existing membership row |
| RoomRoutes.RemovedName | server/routes/rooms.ts:443-450 | the message names the removed user when the name is non-empty, else "a member" |
| RoomRoutes.RemoveMember | server/routes/rooms.ts:413-458 | a non-admin gets 403, removing oneself 400 and an absent target 404, with nothing changed in each case; otherwise exactly that row is deleted and one "undefined removed X from the room" message is added |
| MessageRoutes.CeilDiv | server/routes/messages.ts:110 | `Math.ceil(total / limit)`: the least count of pages of `limit` rows that holds `total` rows |
| MessageRoutes.PageWithinTotal | server/routes/messages.ts:64-110 | page `p` holds rows exactly when `p <= totalPages` |
| MessageRoutes.History | server/routes/messages.ts:61-117 | a non-member gets 403; a negative limit or offset fails; otherwise the page holds the rows after skipping `(page-1)*limit` newest, at most `limit` of them, and `totalPages` is the ceiling of total over limit (no number for a zero limit) |
| MessageRoutes.PageEarliestFirst | server/routes/messages.ts:93-105 | a page comes out oldest first |
| MessageRoutes.Search | server/routes/messages.ts:120-159 | an empty query gives 400; otherwise the first 50 matches, latest first |
| MessageRoutes.SearchStaysInOwnRooms | server/routes/messages.ts:137-148 | every hit is in one of the user's rooms, not deleted, contains the query, and is in the requested room when one is named |
| MessageRoutes.UploadDir.Write | server/routes/messages.ts:199 | the written name is in the directory afterwards, and nothing else is added |
| MessageRoutes.UploadDir.Unlink | server/routes/messages.ts:182 | the unlinked name is gone, and nothing else is removed |
| MessageRoutes.Attached | server/routes/messages.ts:185-217 | after a successful HEIC conversion the stored name and display name are rewritten by the route's `.heic`/`.heif`-to-`.jpg` replacement (so a stored name without the suffix stays the same) and the size is the JPEG's; otherwise all three are the original's; the type is image exactly when `isImageFile` holds for the final name |
| MessageRoutes.ConvertedIsImage | server/routes/messages.ts:189-217 | a converted HEIC upload is always recorded as an image |
| MessageRoutes.HeicNameKeepsImage | server/routes/messages.ts:206-217 | a `.heic`/`.heif` name is still an image name once rewritten to `.jpg` |
| MessageRoutes.UploadMessage | server/routes/messages.ts:219-223 | the inserted row records the attachment's URL, name, size and type, and empty content when none is given |
| MessageRoutes.AfterHeicStep | server/routes/messages.ts:196-202 | after the HEIC step the stored part is gone exactly when the conversion succeeded, the recorded file is there exactly when the conversion did not write onto the stored path, and no other file changes |
| MessageRoutes.Convert | server/routes/messages.ts:185-214 | the attachment is `Attached`, and the directory becomes `AfterHeicStep`: a successful conversion writes the JPEG under the rewritten name and then unlinks the original; otherwise the directory is unchanged |
| MessageRoutes.Uploaded | server/routes/messages.ts:163-271 | the upload succeeds exactly when a file, a room id and membership are all there; a refusal changes no table; a success inserts one message under the next id, whose URL names a stored file exactly when the upload is not a converted HEIC file with a suffix-less stored name |
| MessageRoutes.UploadedFiles | server/routes/messages.ts:165-207 | a missing room id leaves the stored file behind, a non-member's is unlinked, a converted HEIC upload loses the stored file and keeps the JPEG exactly when the stored name had the suffix, and any other accepted upload keeps the stored file |
| MessageRoutes.SuffixlessHeicUploadLost | server/routes/messages.ts:189-206 | a member's upload of an extension-less file sent as `image/heic`, converted successfully, is accepted with a URL that names no stored file |
| MessageRoutes.Upload | server/routes/messages.ts:163-271 | the handler's reply, tables and upload directory are those of `Uploaded`; a success broadcasts `new-message` to the room when a server is registered |
| MessageRoutes.Receive | server/routes/messages.ts:165-173 | once a file is there it is stored, and a missing room id gives 400 and leaves it behind |
| MessageRoutes.Admit | server/routes/messages.ts:175-184 | a non-member gets 403, the stored file is unlinked and no message is inserted |
| MessageRoutes.Accept | server/routes/messages.ts:185-255 | an accepted upload converts with the route's rename, then inserts one message recording the attachment under the next id and broadcasts it |
| MessageRoutes.Record | server/routes/messages.ts:219-255 | one message is inserted under the next id, the room is bumped, and `new-message` goes to the room's channel |
| MessageRoutes.UnreadCounts | server/routes/messages.ts:274-294 | a room is listed exactly when the user is a member and it has unread messages; its count is the number of other authors' messages newer than the last read |
| MessageRoutes.UnreadCountsPositive | server/routes/messages.ts:283-285 | every listed count is at least one, and one's own messages never count |
| MessageRoutes.ReceiptsAfterRead | server/routes/messages.ts:308-317 | one receipt at `now` is added for each of the room's messages by another author that has none; existing receipts keep their time |
| MessageRoutes.ReadUpTo | server/routes/messages.ts:302-305 | only that member's `last_read_at` changes; with no row, nothing changes |
| MessageRoutes.MarkReadAgainAddsNothing | server/routes/messages.ts:308-317 | marking a room read again adds no receipt and changes none |
| MessageRoutes.MarkReadClearsUnread | server/routes/messages.ts:283-305 | after marking a room read at a time no message of it is newer than, the room has nothing unread |
| MessageRoutes.MarkRoomRead | server/routes/messages.ts:297-324 | with no membership check, the tables become `MarkedRead` |
| MessageRoutes.ReadList | server/routes/messages.ts:327-362 | only a member of the message's room may see its readers (else 403), who are listed earliest read first |
| MessageInput.Files | src/components/MessageInput.tsx:75 | the files of the selection, in order |
| MessageInput.TotalSizeAppend | src/components/MessageInput.tsx:242-244 | `getTotalSize` of two selections in sequence is the sum of their totals |
| MessageInput.LastDotSegment | src/components/MessageInput.tsx:165 | `split('.').pop()` is the suffix after the last '.', or the whole name when it has none |
| MessageInput.SubmitImageNeedsPreview | src/components/MessageInput.tsx:76-167 | every file the submit test calls an image was flagged `isConverting` when selected |
| MessageInput.BareHeicNameDiffers | src/components/MessageInput.tsx:76-166 | the two HEIC tests differ: a file named "heic" is flagged for a preview but not sent as an image |
| MessageInput.AcceptedWithinCaps | src/components/MessageInput.tsx:153-175 | a selection accepts at most 20 MB per file and, added to what was already selected, at most 50 MB in all |
| MessageInput.AcceptedIsSmallPrefix | src/components/MessageInput.tsx:153-175 | a selection keeps the files of at most 20 MB from some prefix of the input, in input order, and stops only at a file that would break the 50 MB cap |
| MessageInput.Marked | src/components/MessageInput.tsx:165-174 | each accepted file starts without a preview, with `isConverting` set exactly when its type is `image/` or its last dot-segment is heic/heif |
| MessageInput.MarkedFiles | src/components/MessageInput.tsx:169-174 | the entries keep their files in order |
| MessageInput.Settle | src/components/MessageInput.tsx:198-213 | exactly the entries with the same name and size stop converting and, on success, take the preview URL; the others are unchanged |
| MessageInput.SettleIdempotent | src/components/MessageInput.tsx:198-213 | settling the same outcome twice is settling it once |
| MessageInput.RemoveAt | src/components/MessageInput.tsx:225 | exactly the entry at the index is removed, and the others keep their order |
| MessageInput.RemoveAtTotal | src/components/MessageInput.tsx:219-244 | removing an entry takes exactly its size off the total |
| MessageInput.SelectAccepted | src/components/MessageInput.tsx:148-175 | the selection loop yields exactly the marked accepted files |
| MessageInput.Composer.constructor | src/components/MessageInput.tsx:29-32 | empty text, not typing, menu closed, nothing selected, nothing sent |
| MessageInput.Composer.HandleTyping | src/components/MessageInput.tsx:96-100 | the flag is set, and a `startTyping` call is made, only on the switch from not typing (a call of `undefined` as written) |
| MessageInput.Composer.HandleStopTyping | src/components/MessageInput.tsx:111-120 | the flag is cleared, and a `stopTyping` call is made, only while typing (a call of `undefined` as written) |
| MessageInput.Composer.HandleChange | src/components/MessageInput.tsx:122-125 | the text is replaced and typing starts |
| MessageInput.Composer.HandleSubmit | src/components/MessageInput.tsx:71-86 | with files, the trimmed text goes out as `image` when any file is an image, else as `file`, and the selection and text are cleared; without files only non-blank text goes out; nothing is sent exactly when the button is disabled; typing stops |
| MessageInput.Composer.HandleFileSelect | src/components/MessageInput.tsx:142-181 | the accepted files are appended after the existing selection, and the caps are kept |
| MessageInput.Composer.PreviewSettled | src/components/MessageInput.tsx:198-213 | the selection becomes `Settle` of itself, and nothing else changes |
| MessageInput.Composer.HandleRemoveFile | src/components/MessageInput.tsx:219-227 | exactly that entry goes, and the total drops by its size |
| MessageInput.Composer.HandleClearFiles | src/components/MessageInput.tsx:229-234 | the selection is emptied, and nothing else changes |

## Left out

- SQL failures, and the `catch` blocks that answer them with status 500 or an
  `error` event ("Failed to join room", "Failed to edit message", ...), are not
  modelled. Neither is the upload's unlink of the stored file on such a failure.
- Concurrency: every handler runs as one atomic step, so the interleaving of
  awaits between handlers is not modelled.
- JWT verification and `authenticateToken`: the token's claims (or their
  absence) and the authenticated user id are inputs.
- The HEIC converters (`heic-convert`, `heic2any`) and `URL.createObjectURL` are
  foreign calls. The server's conversion is the input `converted` (the JPEG's
  size, or None when it fails). The client's preview outcome is the
  `Preview` input of `PreviewSettled`.
- The latin-1 to UTF-8 re-decoding of the original file name is not
  modelled. The upload takes both the raw name and the decoded one as inputs.
- multer's own 20 MB limit, which refuses a larger part before the handler runs, is not modelled.
- `parseInt` of `page` and `limit`: the parsed values are inputs, and a
  non-numeric query string (NaN) is not modelled.
- RoomRoutes.RoomDetails: `ORDER BY u.username ASC` is read as code-point order
  (`RoomRoutes.RoleThenName`). MySQL's default collation compares names
  without regard to case or accents, so members of the same role whose names
  differ that way may come in another order.
- MessageInput.Composer.HandleTyping and HandleStopTyping: as written,
  `startTyping` and `stopTyping` are undefined (see the description above).
  So each logged call throws a TypeError after the state update before it,
  and no `typing` event is sent. The throw itself is not modelled: the model
  applies the state updates queued before it, and the timer work after it is
  left out anyway. In `handleSubmit` the throw comes after the send, so
  `HandleSubmit`'s effects are as stated.
- MessageRoutes.Search: the query is read as a plain substring, so the `%` and `_`
  wildcards of `LIKE` inside it and case-insensitive collation are not modelled.
- MessageRoutes.Upload: the reply carries the new message id, not the whole
  `newMessage` object. The broadcast carries the stored row rather than that
  object, so `avatar` and the ISO `created_at` string are not modelled.
- SocketHandlers.EditMessage: `editedAt` is the handler's clock `now`.
- The room update route's extra `SELECT` of 50 messages, whose result is
  unused, is not modelled.
- The message the upload broadcasts goes through `req.app.get('io')`, but
  server/index.ts only sets `req.io`. So `Upload` takes a possibly null
  server and states both cases.
- Rows come back from a loop in the engine's order (`Base.Pick`). Which
  notification or `user-offline` delivery comes first is therefore left open,
  and only the set of them is stated.
- The composer's 2-second typing timer (`setTimeout` calling
  `handleStopTyping` through a stale closure) is not modelled.
- The `alert` calls in `handleFileSelect` and the reset of the file input are not modelled.
- `revokeObjectURL` is not modelled.
- The editing effect, `handleCancelEdit`, the click-outside menu effect and the
  unused `isConverting` state hook are not modelled.
- `handleKeyDown` only calls `handleSubmit` on Enter, so it is not modelled separately.
- `formatFileSize` and `formatTime` use floating point and locale formatting, so they are not modelled.
- The authentication and profile routes are not modelled.
- Rendering, providers and the other components are not modelled. The one exception is the
  `leave-room` payload of src/components/ChatArea.tsx:97, used by the finding below.
- Ids, sizes and times are unbounded integers. MySQL's second-resolution
  `NOW()` is read as the same millisecond clock as `Date.now()`.

## Findings

| source | as written | input that shows it | evidently intended | confidence | as-written member | corrected member |
|---|---|---|---|---|---|---|
| server/routes/messages.ts:196-202 | the JPEG's name is the stored name with a trailing `.heic`/`.heif` replaced by `.jpg`. A HEIC upload whose stored name lacks that suffix is written back onto its own path, then unlinked | a file named "IMG_0001" sent as `image/heic`: its extension is empty, its stored name is `<time>-<n>`, and the recorded URL names a deleted file | the converted file is kept under a distinct name ending in `.jpg` | not executed | MessageRoutes.SuffixlessHeicUploadLost | Attachments.ConvertedName |
| src/components/ChatArea.tsx:97 | the chat area emits `leave-room` with the bare room number, while the handler reads a `roomId` field (server/socket/socketHandlers.ts:331-332). The socket leaves `room-undefined` and stays in the room | leaving room 7 sends `7`; `room-7` is still subscribed afterwards | the payload is `{ roomId }` and the socket leaves `room-7` | not executed | SocketHandlers.LeaveAsSentKeepsSubscription | SocketHandlers.ClientLeavePayloadFixed |
| server/routes/rooms.ts:83 | the system messages and the `room-created` event read `req.username` (also at lines 95, 350, 398 and 450). The authentication middleware sets only `req.user` and `req.userId` (server/middleware/auth.ts:17-22), so the text is "undefined" | any authenticated request that creates, leaves, adds to or removes from a room: the message reads "undefined created the room" | the requester's name from the token, `req.user.username` | not executed | RoomRoutes.RouteMessagesSayUndefined | RoomRoutes.RouteMessagesNameActor |

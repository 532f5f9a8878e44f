/**
 * One-to-one chat: storing messages, listing rooms (with per-room unread counts), paging a
 * room's history, reporting a message, read receipts with a per-side last-read pointer, and
 * hiding a room for one side.
 */
module ChatService {
  import opened Wrappers
  import opened Http
  import opened Query
  import opened Sorting
  import opened Db
  import opened UserService

  // ---------------------------------------------------------------- rooms and sides

  /** Which of a room's two participants a user is. */
  datatype Side = A | B

  /** The caller's side in a room: A is checked first, so a user on both sides acts as A. */
  function SideOf(room: ChatRoom, userId: int): (s: Option<Side>)
    ensures s == Some(A) <==> room.userAId == userId
    ensures s == Some(B) <==> room.userAId != userId && room.userBId == userId
  {
    if room.userAId == userId then Some(A)
    else if room.userBId == userId then Some(B)
    else None
  }

  function HiddenFor(room: ChatRoom, side: Side): bool {
    match side
    case A => room.isHiddenForUserA
    case B => room.isHiddenForUserB
  }

  /** The room with one side's hidden flag set to `hidden`; every other field kept. */
  function WithHidden(room: ChatRoom, side: Side, hidden: bool): (r: ChatRoom)
    ensures HiddenFor(r, side) == hidden
    ensures HiddenFor(r, if side == A then B else A) == HiddenFor(room, if side == A then B else A)
    ensures r.id == room.id && r.userAId == room.userAId && r.userBId == room.userBId
    ensures r.lastReadMessageIdByA == room.lastReadMessageIdByA && r.lastReadMessageIdByB == room.lastReadMessageIdByB
    ensures r.createdAt == room.createdAt
  {
    match side
    case A => room.(isHiddenForUserA := hidden)
    case B => room.(isHiddenForUserB := hidden)
  }

  /** Replacing a room by one with the same id and participants keeps the table's constraints. */
  lemma ReplaceRoomKeepsKeys(rooms: seq<ChatRoom>, i: int, room: ChatRoom)
    requires Increasing(rooms, RoomKey) && RoomsKeyedByPair(rooms) && 0 <= i < |rooms|
    requires room.id == rooms[i].id && room.userAId == rooms[i].userAId && room.userBId == rooms[i].userBId
    ensures Increasing(rooms[i := room], RoomKey) && RoomsKeyedByPair(rooms[i := room])
  {
    var after := rooms[i := room];
    assert forall k :: 0 <= k < |rooms| ==>
      after[k].id == rooms[k].id && after[k].userAId == rooms[k].userAId && after[k].userBId == rooms[k].userBId;
  }

  // ---------------------------------------------------------------- messages

  /** The uploaded file as the request carries it. */
  datatype UploadedFile = UploadedFile(buffer: seq<bv8>, originalName: string, mimetype: string, size: nat)

  /** What uploadAttachment returns. */
  datatype AttachmentInfo = AttachmentInfo(fileUrl: string, fileType: string, fileName: string, size: nat)

  /**
   * uploadAttachment: stores the file with `upload` (the blob store, returning the file's URL)
   * and describes it; no file is a plain error.
   */
  function UploadAttachment(file: Option<UploadedFile>, upload: (seq<bv8>, string) -> string): (r: Result<AttachmentInfo>)
    ensures r.Err? <==> file.None?
    ensures r.Err? ==> r.kind == Plain
    ensures r.Ok? ==> r.value == AttachmentInfo(upload(file.value.buffer, file.value.originalName),
                                                 file.value.mimetype, file.value.originalName, file.value.size)
  {
    match file
    case None => Fail(Plain)
    case Some(f) => Ok(AttachmentInfo(upload(f.buffer, f.originalName), f.mimetype, f.originalName, f.size))
  }

  /** The message fields a client sends. */
  datatype MessageRequest = MessageRequest(
    roomId: int, senderId: int, content: Option<string>, fileUrl: Option<string>, fileType: Option<string>)

  /** `value || null`: an absent or empty string is stored as null. */
  function OrNull(value: Option<string>): (r: Option<string>)
    ensures r.Some? <==> value.Some? && value.value != ""
    ensures r.Some? ==> r == value
  {
    if value.Some? && value.value != "" then value else None
  }

  /**
   * saveMessage: stores a message.  File URL and type come from the request (empty becomes
   * null), unless a file is attached, in which case it is uploaded and its URL and MIME type
   * are stored instead.  The message starts unread.  The message is connected to its room and
   * its sender, so an unknown room or sender makes the insert fail and nothing is stored.
   */
  method SaveMessage(db: Database, data: MessageRequest, file: Option<UploadedFile>,
                     upload: (seq<bv8>, string) -> string, now: int) returns (r: Result<Message>)
    requires db.Valid()
    modifies db`messages
    ensures db.Valid()
    ensures r.Err? <==> !RoomExists(db.chatRooms, data.roomId) || !UserExists(db.users, data.senderId)
    ensures r.Err? ==> r == Err(Plain, 500) && db.messages == old(db.messages)
    ensures r.Ok? ==> db.messages == old(db.messages) + [r.value]
    ensures r.Ok? ==>
      var m := r.value;
      && m.id == NextId(old(db.messages), MessageKey) && m.roomId == data.roomId && m.senderId == data.senderId
      && m.content == data.content && !m.isRead && m.createdAt == now
      && (file.None? ==> m.fileUrl == OrNull(data.fileUrl) && m.fileType == OrNull(data.fileType))
      && (file.Some? ==>
            m.fileUrl == Some(upload(file.value.buffer, file.value.originalName)) && m.fileType == Some(file.value.mimetype))
  {
    var fileUrl := OrNull(data.fileUrl);
    var fileType := OrNull(data.fileType);
    if file.Some? {
      fileUrl := Some(upload(file.value.buffer, file.value.originalName));
      fileType := Some(file.value.mimetype);
    }
    var room := FindFirst(db.chatRooms, (c: ChatRoom) => c.id == data.roomId);
    var sender := FindUser(db.users, data.senderId);
    if room.None? || sender.None? {
      return Fail(Plain);
    }
    var m := Message(NextId(db.messages, MessageKey), data.roomId, data.senderId, data.content, fileUrl, fileType, false, now);
    AppendKeepsIncreasing(db.messages, m, MessageKey);
    db.messages := db.messages + [m];
    r := Ok(m);
  }

  // ---------------------------------------------------------------- room listings

  function NewestRoomFirst(r: ChatRoom): int { -r.createdAt }

  predicate IsParticipant(room: ChatRoom, userId: int) {
    room.userAId == userId || room.userBId == userId
  }

  /** The caller takes part in the room and has not hidden it. */
  predicate VisibleTo(room: ChatRoom, userId: int) {
    || (room.userAId == userId && !room.isHiddenForUserA)
    || (room.userBId == userId && !room.isHiddenForUserB)
  }

  /** getUserChatRooms: every room the user takes part in, hidden or not, newest first. */
  function GetUserChatRooms(rooms: seq<ChatRoom>, userId: int): (r: seq<ChatRoom>)
    ensures forall k :: 0 <= k < |r| - 1 ==> r[k].createdAt >= r[k + 1].createdAt
    ensures forall k :: 0 <= k < |r| ==> r[k] in rooms && IsParticipant(r[k], userId)
    ensures forall j :: 0 <= j < |rooms| && IsParticipant(rooms[j], userId) ==> rooms[j] in r
  {
    var r := FindMany(rooms, (c: ChatRoom) => IsParticipant(c, userId), NewestRoomFirst);
    assert forall k :: 0 <= k < |r| - 1 ==> NewestRoomFirst(r[k]) <= NewestRoomFirst(r[k + 1]);
    r
  }

  /** The rooms the caller takes part in and has not hidden, newest first. */
  function VisibleRooms(rooms: seq<ChatRoom>, userId: int): (r: seq<ChatRoom>)
    ensures forall k :: 0 <= k < |r| - 1 ==> r[k].createdAt >= r[k + 1].createdAt
    ensures forall k :: 0 <= k < |r| ==> r[k] in rooms && VisibleTo(r[k], userId)
    ensures forall j :: 0 <= j < |rooms| && VisibleTo(rooms[j], userId) ==> rooms[j] in r
  {
    var r := FindMany(rooms, (c: ChatRoom) => VisibleTo(c, userId), NewestRoomFirst);
    assert forall k :: 0 <= k < |r| - 1 ==> NewestRoomFirst(r[k]) <= NewestRoomFirst(r[k + 1]);
    r
  }

  /** The messages in a room the caller has not read and did not send. */
  function UnreadCount(messages: seq<Message>, roomId: int, userId: int): (r: nat)
    ensures r <= |messages|
    ensures r == 0 <==>
      forall i :: 0 <= i < |messages| ==> !(messages[i].roomId == roomId && !messages[i].isRead && messages[i].senderId != userId)
  {
    CountZero(messages, (m: Message) => m.roomId == roomId && !m.isRead && m.senderId != userId);
    Count(messages, (m: Message) => m.roomId == roomId && !m.isRead && m.senderId != userId)
  }

  /** One row of the grouped count: a room and its number of unread messages. */
  datatype UnreadGroup = UnreadGroup(roomId: int, count: nat)

  /**
   * The grouped count the database returns: one group per listed room whose `count` is
   * positive (a room with nothing to count has no group).
   */
  function GroupBy(roomIds: seq<int>, messages: seq<Message>, userId: int): (g: seq<UnreadGroup>)
    ensures forall j :: 0 <= j < |g| ==> g[j].count == UnreadCount(messages, g[j].roomId, userId) && g[j].count > 0
    ensures forall j :: 0 <= j < |g| ==> g[j].roomId in roomIds
    ensures forall k :: 0 <= k < |roomIds| && UnreadCount(messages, roomIds[k], userId) > 0 ==>
              exists j :: 0 <= j < |g| && g[j].roomId == roomIds[k]
  {
    var ids := Filter(roomIds, (id: int) => UnreadCount(messages, id, userId) > 0);
    var g := seq(|ids|, j requires 0 <= j < |ids| => UnreadGroup(ids[j], UnreadCount(messages, ids[j], userId)));
    assert forall k :: 0 <= k < |roomIds| && UnreadCount(messages, roomIds[k], userId) > 0 ==>
             exists j :: 0 <= j < |g| && g[j].roomId == roomIds[k] by {
      forall k | 0 <= k < |roomIds| && UnreadCount(messages, roomIds[k], userId) > 0
        ensures exists j :: 0 <= j < |g| && g[j].roomId == roomIds[k]
      {
        assert roomIds[k] in ids;
        var j :| 0 <= j < |ids| && ids[j] == roomIds[k];
        assert g[j].roomId == roomIds[k];
      }
    }
    g
  }

  /** The map the groups are read into, one `set` per group in order. */
  method ToMap(groups: seq<UnreadGroup>) returns (m: map<int, nat>)
    ensures forall j :: 0 <= j < |groups| ==> groups[j].roomId in m
    ensures forall id :: id in m ==> exists j :: 0 <= j < |groups| && groups[j] == UnreadGroup(id, m[id])
  {
    m := map[];
    var i := 0;
    while i < |groups|
      invariant 0 <= i <= |groups|
      invariant forall id :: id in m ==> exists j :: 0 <= j < i && groups[j] == UnreadGroup(id, m[id])
      invariant forall j :: 0 <= j < i ==> groups[j].roomId in m
    {
      m := m[groups[i].roomId := groups[i].count];
      i := i + 1;
    }
  }

  /** `map.get(id) ?? 0`. */
  function Lookup(m: map<int, nat>, id: int): nat {
    if id in m then m[id] else 0
  }

  /** Reading a listed room's count back from the map gives its count, 0 included. */
  lemma GroupedLookup(roomIds: seq<int>, messages: seq<Message>, userId: int, groups: seq<UnreadGroup>, m: map<int, nat>, k: int)
    requires groups == GroupBy(roomIds, messages, userId)
    requires forall j :: 0 <= j < |groups| ==> groups[j].roomId in m
    requires forall id :: id in m ==> exists j :: 0 <= j < |groups| && groups[j] == UnreadGroup(id, m[id])
    requires 0 <= k < |roomIds|
    ensures Lookup(m, roomIds[k]) == UnreadCount(messages, roomIds[k], userId)
  {
    var id := roomIds[k];
    if UnreadCount(messages, id, userId) > 0 {
      var j :| 0 <= j < |groups| && groups[j].roomId == id;
      assert id in m;
    }
    if id in m {
      var j :| 0 <= j < |groups| && groups[j] == UnreadGroup(id, m[id]);
    }
  }

  /** Every listed room reads its own count back from the map. */
  lemma GroupedLookupAll(rooms: seq<ChatRoom>, roomIds: seq<int>, messages: seq<Message>, userId: int, groups: seq<UnreadGroup>, m: map<int, nat>)
    requires |roomIds| == |rooms| && forall k :: 0 <= k < |rooms| ==> roomIds[k] == rooms[k].id
    requires groups == GroupBy(roomIds, messages, userId)
    requires forall j :: 0 <= j < |groups| ==> groups[j].roomId in m
    requires forall id :: id in m ==> exists j :: 0 <= j < |groups| && groups[j] == UnreadGroup(id, m[id])
    ensures forall k :: 0 <= k < |rooms| ==> Lookup(m, rooms[k].id) == UnreadCount(messages, rooms[k].id, userId)
  {
    forall k | 0 <= k < |rooms| ensures Lookup(m, rooms[k].id) == UnreadCount(messages, rooms[k].id, userId) {
      GroupedLookup(roomIds, messages, userId, groups, m, k);
    }
  }

  /** A listed room together with its unread count. */
  datatype RoomWithUnread = RoomWithUnread(room: ChatRoom, unreadCount: nat)

  /** The ids of the listed rooms, in order. */
  function RoomIds(rooms: seq<ChatRoom>): (ids: seq<int>)
    ensures |ids| == |rooms| && forall k :: 0 <= k < |rooms| ==> ids[k] == rooms[k].id
  {
    seq(|rooms|, k requires 0 <= k < |rooms| => rooms[k].id)
  }

  /** Each listed room paired with the count the map holds for it. */
  function AttachCounts(rooms: seq<ChatRoom>, m: map<int, nat>): (r: seq<RoomWithUnread>)
    ensures |r| == |rooms| && forall k :: 0 <= k < |r| ==> r[k] == RoomWithUnread(rooms[k], Lookup(m, rooms[k].id))
  {
    seq(|rooms|, k requires 0 <= k < |rooms| => RoomWithUnread(rooms[k], Lookup(m, rooms[k].id)))
  }

  /**
   * getUserChatRoomsWithUnread: the rooms visible to the caller, newest first, each with the
   * number of messages in it the caller has not read and did not send (0 when there are none).
   * The counts are read from the grouped query into a map, and a room without a group gets 0.
   */
  method GetUserChatRoomsWithUnread(db: Database, userId: int) returns (r: seq<RoomWithUnread>)
    ensures forall k :: 0 <= k < |r| ==> r[k].room in db.chatRooms && VisibleTo(r[k].room, userId)
    ensures forall j :: 0 <= j < |db.chatRooms| && VisibleTo(db.chatRooms[j], userId) ==>
              exists k :: 0 <= k < |r| && r[k].room == db.chatRooms[j]
    ensures forall k :: 0 <= k < |r| - 1 ==> r[k].room.createdAt >= r[k + 1].room.createdAt
    ensures forall k :: 0 <= k < |r| ==> r[k].unreadCount == UnreadCount(db.messages, r[k].room.id, userId)
    ensures |r| == |VisibleRooms(db.chatRooms, userId)|
    ensures forall k :: 0 <= k < |r| ==> r[k].room == VisibleRooms(db.chatRooms, userId)[k]
  {
    var rooms := VisibleRooms(db.chatRooms, userId);
    if |rooms| == 0 {
      return [];
    }
    var roomIds := RoomIds(rooms);
    var groups := GroupBy(roomIds, db.messages, userId);
    var unreadMap := ToMap(groups);
    GroupedLookupAll(rooms, roomIds, db.messages, userId, groups, unreadMap);
    r := AttachCounts(rooms, unreadMap);
  }

  function OldestMessageFirst(m: Message): int { m.createdAt }

  /** A room's whole history: exactly its messages, oldest first. */
  function RoomHistory(messages: seq<Message>, roomId: int): (r: seq<Message>)
    ensures forall k :: 0 <= k < |r| ==> r[k] in messages && r[k].roomId == roomId
    ensures forall j :: 0 <= j < |messages| && messages[j].roomId == roomId ==> messages[j] in r
    ensures forall k :: 0 <= k < |r| - 1 ==> r[k].createdAt <= r[k + 1].createdAt
    ensures multiset(r) == multiset(Filter(messages, (m: Message) => m.roomId == roomId))
  {
    FindMany(messages, (m: Message) => m.roomId == roomId, OldestMessageFirst)
  }

  /**
   * getMessagesDetail: a page of a room's history, oldest first, skipping `skip` messages and
   * taking at most `take` (20 and 0 by default).  The page is the run of the history that
   * starts `skip` messages in, as long as `take` or as what is left.
   */
  function GetMessagesDetail(messages: seq<Message>, roomId: int, take: Option<nat>, skip: Option<nat>): (r: seq<Message>)
    ensures var history := RoomHistory(messages, roomId);
      && (forall k :: 0 <= k < |r| ==> skip.GetOr(0) + k < |history| && r[k] == history[skip.GetOr(0) + k])
      && |r| == (if skip.GetOr(0) >= |history| then 0
                 else if skip.GetOr(0) + take.GetOr(20) <= |history| then take.GetOr(20)
                 else |history| - skip.GetOr(0))
    ensures forall k :: 0 <= k < |r| ==> r[k] in messages && r[k].roomId == roomId
    ensures forall k :: 0 <= k < |r| - 1 ==> r[k].createdAt <= r[k + 1].createdAt
  {
    var history := RoomHistory(messages, roomId);
    Page(history, skip.GetOr(0), take.GetOr(20))
  }

  // ---------------------------------------------------------------- reporting

  /** The sender of the first message row with that id, if there is one. */
  function MessageSender(messages: seq<Message>, messageId: int): (r: Option<int>)
    ensures r.None? <==> forall i :: 0 <= i < |messages| ==> messages[i].id != messageId
    ensures r.Some? ==> exists i :: 0 <= i < |messages| && messages[i].id == messageId && messages[i].senderId == r.value
  {
    match FindFirst(messages, (m: Message) => m.id == messageId)
    case None => None
    case Some(k) => Some(messages[k].senderId)
  }

  /** Message ids are a primary key, so in a valid table every row with that id has this sender. */
  lemma MessageSenderUnique(messages: seq<Message>, messageId: int, i: int)
    requires Increasing(messages, MessageKey)
    requires 0 <= i < |messages| && messages[i].id == messageId
    ensures MessageSender(messages, messageId) == Some(messages[i].senderId)
  {
    KeyUnique(messages, MessageKey, i);
  }

  /** The report row a message report stores: no free text, no comment, no question. */
  function MessageReportRow(reports: seq<Report>, reporterId: int, messageId: int, reason: ReportReason): Report {
    Report(NextId(reports, ReportKey), reporterId, reason, None, None, Some(messageId), None)
  }

  /**
   * reportMessage as a function of the tables it reads: a missing message is NotFound and the
   * caller's own message BadRequest, both writing nothing.  Then the sender is reported and the
   * row stored, as `ReportThenStore` says.
   */
  function ReportMessageEffect(users: seq<User>, reports: seq<Report>, messages: seq<Message>, questions: seq<Question>,
                               reporterId: int, messageId: int, reason: ReportReason): (e: ReportEffect)
    requires Increasing(users, UserKey)
    ensures MessageSender(messages, messageId).None? ==> e == ReportEffect(Err(NotFound, 404), users, reports)
    ensures MessageSender(messages, messageId) == Some(reporterId) ==> e == ReportEffect(Err(BadRequest, 400), users, reports)
    ensures MessageSender(messages, messageId).Some? && MessageSender(messages, messageId).value != reporterId ==>
      e == ReportThenStore(users, reports, questions, MessageSender(messages, messageId).value,
                           MessageReportRow(reports, reporterId, messageId, reason))
  {
    match MessageSender(messages, messageId)
    case None => ReportEffect(Fail(NotFound), users, reports)
    case Some(sender) =>
      if sender == reporterId then ReportEffect(Fail(BadRequest), users, reports)
      else ReportThenStore(users, reports, questions, sender, MessageReportRow(reports, reporterId, messageId, reason))
  }

  /** reportMessage: the result and the two tables follow `ReportMessageEffect`. */
  method ReportMessage(db: Database, reporterId: int, messageId: int, reason: ReportReason) returns (r: Result<Report>)
    requires db.Valid()
    modifies db`users, db`reports
    ensures db.Valid()
    ensures var e := ReportMessageEffect(old(db.users), old(db.reports), db.messages, db.questions, reporterId, messageId, reason);
      r == e.result && db.users == e.users && db.reports == e.reports
  {
    var sender := MessageSender(db.messages, messageId);
    if sender.None? {
      return Fail(NotFound);
    }
    if sender.value == reporterId {
      return Fail(BadRequest);
    }
    r := StoreReport(db, sender.value, MessageReportRow(db.reports, reporterId, messageId, reason));
  }

  // ---------------------------------------------------------------- read receipts

  /** The messages table after marking the rows `selected` picks as read. */
  function MarkRead(messages: seq<Message>, selected: Message -> bool): (r: seq<Message>)
    ensures |r| == |messages|
    ensures forall k :: 0 <= k < |r| ==> r[k].isRead == (messages[k].isRead || selected(messages[k]))
    ensures forall k :: 0 <= k < |r| ==> r[k] == messages[k].(isRead := r[k].isRead)
  {
    seq(|messages|, k requires 0 <= k < |messages| =>
      if selected(messages[k]) then messages[k].(isRead := true) else messages[k])
  }

  lemma MarkReadKeepsKeys(messages: seq<Message>, selected: Message -> bool)
    requires Increasing(messages, MessageKey)
    ensures Increasing(MarkRead(messages, selected), MessageKey)
  {
    var r := MarkRead(messages, selected);
    assert forall k :: 0 <= k < |r| ==> r[k].id == messages[k].id;
  }

  /** The messages markMessagesAsRead touches: listed, and not sent by the caller. */
  predicate ListedFromOthers(m: Message, userId: int, messageIds: seq<int>) {
    m.id in messageIds && m.senderId != userId
  }

  /**
   * markMessagesAsRead: an empty list changes nothing and counts 0; otherwise every listed
   * message not sent by the caller is marked read, and the count is how many rows matched.
   */
  method MarkMessagesAsRead(db: Database, userId: int, messageIds: seq<int>) returns (count: nat)
    requires db.Valid()
    modifies db`messages
    ensures db.Valid()
    ensures messageIds == [] ==> count == 0 && db.messages == old(db.messages)
    ensures messageIds != [] ==>
      db.messages == MarkRead(old(db.messages), (m: Message) => ListedFromOthers(m, userId, messageIds))
        && count == Count(old(db.messages), (m: Message) => ListedFromOthers(m, userId, messageIds))
  {
    if |messageIds| == 0 {
      return 0;
    }
    var selected := (m: Message) => ListedFromOthers(m, userId, messageIds);
    count := Count(db.messages, selected);
    MarkReadKeepsKeys(db.messages, selected);
    db.messages := MarkRead(db.messages, selected);
  }

  /** The caller's own messages are never marked read by either read-marking call. */
  lemma OwnMessagesUntouched(messages: seq<Message>, userId: int, roomId: Option<int>, messageIds: seq<int>, k: int)
    requires 0 <= k < |messages| && messages[k].senderId == userId
    ensures MarkRead(messages, (m: Message) => ListedFromOthers(m, userId, messageIds)
                                              && (roomId.None? || m.roomId == roomId.value))[k] == messages[k]
  {
  }

  /** `Math.max(...ids)` on a non-empty list. */
  function Max(ids: seq<int>): (m: int)
    requires |ids| > 0
    ensures m in ids
    ensures forall k :: 0 <= k < |ids| ==> ids[k] <= m
  {
    if |ids| == 1 then ids[0]
    else
      var rest := Max(ids[1..]);
      assert forall k :: 1 <= k < |ids| ==> ids[k] == ids[1..][k - 1];
      if ids[0] > rest then ids[0] else rest
  }

  /**
   * The new last-read pointer: the larger of the stored pointer (0 when null) and the largest
   * listed id.  It is the least value that is at least both.
   */
  function AdvancePointer(stored: Option<int>, messageIds: seq<int>): (p: int)
    requires |messageIds| > 0
    ensures p >= stored.GetOr(0)
    ensures forall k :: 0 <= k < |messageIds| ==> messageIds[k] <= p
    ensures p == stored.GetOr(0) || p in messageIds
  {
    var maxId := Max(messageIds);
    var keep := stored.GetOr(0);
    if keep > maxId then keep else maxId
  }

  function LastRead(room: ChatRoom, side: Side): Option<int> {
    match side
    case A => room.lastReadMessageIdByA
    case B => room.lastReadMessageIdByB
  }

  /** The room with one side's last-read pointer replaced; every other field kept. */
  function WithLastRead(room: ChatRoom, side: Side, p: int): (r: ChatRoom)
    ensures LastRead(r, side) == Some(p)
    ensures LastRead(r, if side == A then B else A) == LastRead(room, if side == A then B else A)
    ensures r.id == room.id && r.userAId == room.userAId && r.userBId == room.userBId
    ensures r.isHiddenForUserA == room.isHiddenForUserA && r.isHiddenForUserB == room.isHiddenForUserB
    ensures r.createdAt == room.createdAt
  {
    match side
    case A => room.(lastReadMessageIdByA := Some(p))
    case B => room.(lastReadMessageIdByB := Some(p))
  }

  /** What markMessagesAsReadInRoom returns. */
  datatype ReadResult = ReadResult(count: nat, lastReadMessageId: Option<int>)

  /**
   * markMessagesAsReadInRoom.  An empty list returns (0, null) and changes nothing.  A missing
   * room is NotFound and a non-participant BadRequest, with nothing changed.  Otherwise the
   * listed messages of that room not sent by the caller are marked read, and the caller's
   * pointer advances (the other side's pointer is unchanged).
   */
  method MarkMessagesAsReadInRoom(db: Database, roomId: int, userId: int, messageIds: seq<int>) returns (r: Result<ReadResult>)
    requires db.Valid()
    modifies db`messages, db`chatRooms
    ensures db.Valid()
    ensures r.Err? ==> db.messages == old(db.messages) && db.chatRooms == old(db.chatRooms)
    ensures messageIds == [] ==>
      r == Ok(ReadResult(0, None)) && db.messages == old(db.messages) && db.chatRooms == old(db.chatRooms)
    ensures (messageIds != [] && forall i :: 0 <= i < |old(db.chatRooms)| ==> old(db.chatRooms)[i].id != roomId)
      ==> r == Err(NotFound, 404)
    ensures (messageIds != [] && exists i :: FirstRoomWithId(old(db.chatRooms), roomId, i)
                                   && SideOf(old(db.chatRooms)[i], userId).None?)
      ==> r == Err(BadRequest, 400)
    ensures (messageIds != [] && exists i :: FirstRoomWithId(old(db.chatRooms), roomId, i)
                                   && SideOf(old(db.chatRooms)[i], userId).Some?)
      ==> r.Ok?
    ensures messageIds != [] && r.Ok? ==>
      exists i, side :: 0 <= i < |old(db.chatRooms)| && old(db.chatRooms)[i].id == roomId
        && SideOf(old(db.chatRooms)[i], userId) == Some(side)
        && var p := AdvancePointer(LastRead(old(db.chatRooms)[i], side), messageIds);
        && db.chatRooms == old(db.chatRooms)[i := WithLastRead(old(db.chatRooms)[i], side, p)]
        && r.value.lastReadMessageId == Some(p)
    ensures messageIds != [] && r.Ok? ==>
      var selected := (m: Message) => ListedFromOthers(m, userId, messageIds) && m.roomId == roomId;
      db.messages == MarkRead(old(db.messages), selected) && r.value.count == Count(old(db.messages), selected)
    ensures messageIds != [] && r.Err? ==>
      r == Err(NotFound, 404)
        || (r == Err(BadRequest, 400)
            && exists i :: 0 <= i < |old(db.chatRooms)| && old(db.chatRooms)[i].id == roomId
                 && SideOf(old(db.chatRooms)[i], userId).None?)
  {
    if |messageIds| == 0 {
      return Ok(ReadResult(0, None));
    }
    var found := FindFirst(db.chatRooms, (c: ChatRoom) => c.id == roomId);
    if found.None? {
      return Fail(NotFound);
    }
    var i := found.value;
    assert FirstRoomWithId(db.chatRooms, roomId, i);
    assert forall j :: FirstRoomWithId(db.chatRooms, roomId, j) ==> j == i;
    var room := db.chatRooms[i];
    var side := SideOf(room, userId);
    if side.None? {
      return Fail(BadRequest);
    }
    var selected := (m: Message) => ListedFromOthers(m, userId, messageIds) && m.roomId == roomId;
    var count := Count(db.messages, selected);
    MarkReadKeepsKeys(db.messages, selected);
    db.messages := MarkRead(db.messages, selected);
    var p := AdvancePointer(LastRead(room, side.value), messageIds);
    ReplaceRoomKeepsKeys(db.chatRooms, i, WithLastRead(room, side.value, p));
    db.chatRooms := db.chatRooms[i := WithLastRead(room, side.value, p)];
    r := Ok(ReadResult(count, Some(p)));
  }

  // ---------------------------------------------------------------- hiding a room

  /** What leaveRoom and unhideRoom return: the room, the caller's side, and whether nothing changed. */
  datatype HideOutcome = HideOutcome(roomId: int, side: Side, already: bool)

  /** A rooms table after an operation, with what the operation returned. */
  datatype RoomChange = RoomChange(outcome: HideOutcome, rooms: seq<ChatRoom>)

  /** Row `i` is the first room with that id. */
  ghost predicate FirstRoomWithId(rooms: seq<ChatRoom>, roomId: int, i: int) {
    0 <= i < |rooms| && rooms[i].id == roomId && forall j :: 0 <= j < i ==> rooms[j].id != roomId
  }

  /**
   * Set the caller's hidden flag in a room to `hidden`: NotFound for a missing room, BadRequest
   * for a non-participant; `already` when the flag had that value, in which case nothing
   * changes.  leaveRoom is `hidden == true`, unhideRoom `hidden == false`.
   */
  function SetHidden(rooms: seq<ChatRoom>, userId: int, roomId: int, hidden: bool): (r: Result<RoomChange>)
    ensures r.Err? <==>
      || (forall i :: 0 <= i < |rooms| ==> rooms[i].id != roomId)
      || (exists i :: FirstRoomWithId(rooms, roomId, i) && SideOf(rooms[i], userId).None?)
    ensures (forall i :: 0 <= i < |rooms| ==> rooms[i].id != roomId) ==> r == Err(NotFound, 404)
    ensures (exists i :: FirstRoomWithId(rooms, roomId, i) && SideOf(rooms[i], userId).None?) ==> r == Err(BadRequest, 400)
    ensures r.Err? ==> r == Err(NotFound, 404) || r == Err(BadRequest, 400)
    ensures r.Ok? ==>
      exists i :: FirstRoomWithId(rooms, roomId, i)
        && SideOf(rooms[i], userId) == Some(r.value.outcome.side)
        && r.value.outcome == HideOutcome(roomId, r.value.outcome.side, HiddenFor(rooms[i], r.value.outcome.side) == hidden)
        && r.value.rooms == rooms[i := WithHidden(rooms[i], r.value.outcome.side, hidden)]
  {
    match FindFirst(rooms, (c: ChatRoom) => c.id == roomId)
    case None => Fail(NotFound)
    case Some(i) =>
      var room := rooms[i];
      match SideOf(room, userId)
      case None => Fail(BadRequest)
      case Some(side) =>
        if HiddenFor(room, side) == hidden then
          assert rooms[i := WithHidden(room, side, hidden)] == rooms by {
            assert WithHidden(room, side, hidden) == room;
          }
          Ok(RoomChange(HideOutcome(roomId, side, true), rooms))
        else
          Ok(RoomChange(HideOutcome(roomId, side, false), rooms[i := WithHidden(room, side, hidden)]))
  }

  /** leaveRoom. */
  method LeaveRoom(db: Database, userId: int, roomId: int) returns (r: Result<HideOutcome>)
    requires db.Valid()
    modifies db`chatRooms
    ensures db.Valid()
    ensures var change := SetHidden(old(db.chatRooms), userId, roomId, true);
      && (change.Err? ==> r == Err(change.kind, change.bodyStatus) && db.chatRooms == old(db.chatRooms))
      && (change.Ok? ==> r == Ok(change.value.outcome) && db.chatRooms == change.value.rooms)
  {
    r := ApplySetHidden(db, userId, roomId, true);
  }

  /** unhideRoom. */
  method UnhideRoom(db: Database, userId: int, roomId: int) returns (r: Result<HideOutcome>)
    requires db.Valid()
    modifies db`chatRooms
    ensures db.Valid()
    ensures var change := SetHidden(old(db.chatRooms), userId, roomId, false);
      && (change.Err? ==> r == Err(change.kind, change.bodyStatus) && db.chatRooms == old(db.chatRooms))
      && (change.Ok? ==> r == Ok(change.value.outcome) && db.chatRooms == change.value.rooms)
  {
    r := ApplySetHidden(db, userId, roomId, false);
  }

  method ApplySetHidden(db: Database, userId: int, roomId: int, hidden: bool) returns (r: Result<HideOutcome>)
    requires db.Valid()
    modifies db`chatRooms
    ensures db.Valid()
    ensures var change := SetHidden(old(db.chatRooms), userId, roomId, hidden);
      && (change.Err? ==> r == Err(change.kind, change.bodyStatus) && db.chatRooms == old(db.chatRooms))
      && (change.Ok? ==> r == Ok(change.value.outcome) && db.chatRooms == change.value.rooms)
  {
    var found := FindFirst(db.chatRooms, (c: ChatRoom) => c.id == roomId);
    if found.None? {
      return Fail(NotFound);
    }
    var i := found.value;
    var room := db.chatRooms[i];
    var side := SideOf(room, userId);
    if side.None? {
      return Fail(BadRequest);
    }
    if HiddenFor(room, side.value) == hidden {
      return Ok(HideOutcome(roomId, side.value, true));
    }
    ReplaceRoomKeepsKeys(db.chatRooms, i, WithHidden(room, side.value, hidden));
    db.chatRooms := db.chatRooms[i := WithHidden(room, side.value, hidden)];
    r := Ok(HideOutcome(roomId, side.value, false));
  }

  /** Leaving (or unhiding) twice: the second call reports `already` and changes nothing. */
  lemma SetHiddenIdempotent(rooms: seq<ChatRoom>, userId: int, roomId: int, hidden: bool)
    requires SetHidden(rooms, userId, roomId, hidden).Ok?
    ensures var first := SetHidden(rooms, userId, roomId, hidden).value;
      SetHidden(first.rooms, userId, roomId, hidden) == Ok(RoomChange(first.outcome.(already := true), first.rooms))
  {
    var first := SetHidden(rooms, userId, roomId, hidden).value;
    var i := FindFirst(rooms, (c: ChatRoom) => c.id == roomId).value;
    assert first.rooms[i].id == roomId;
    assert forall j :: 0 <= j < i ==> first.rooms[j] == rooms[j];
    assert FindFirst(first.rooms, (c: ChatRoom) => c.id == roomId) == Some(i);
  }

  /** Unhiding undoes leaving: from a visible room, leave then unhide restores the table. */
  lemma LeaveThenUnhide(rooms: seq<ChatRoom>, userId: int, roomId: int)
    requires SetHidden(rooms, userId, roomId, true).Ok?
    requires !SetHidden(rooms, userId, roomId, true).value.outcome.already
    ensures var left := SetHidden(rooms, userId, roomId, true).value;
      SetHidden(left.rooms, userId, roomId, false) == Ok(RoomChange(left.outcome, rooms))
  {
    var left := SetHidden(rooms, userId, roomId, true).value;
    var i := FindFirst(rooms, (c: ChatRoom) => c.id == roomId).value;
    assert left.rooms[i].id == roomId;
    assert forall j :: 0 <= j < i ==> left.rooms[j] == rooms[j];
    assert FindFirst(left.rooms, (c: ChatRoom) => c.id == roomId) == Some(i);
    var side := left.outcome.side;
    assert WithHidden(WithHidden(rooms[i], side, true), side, false) == rooms[i];
    assert left.rooms[i := rooms[i]] == rooms;
  }
}

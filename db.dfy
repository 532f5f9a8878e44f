/**
 * The database tables the services read and write.  Each table is a sequence of rows in
 * insertion order; `Database` holds them all, as the one client object every service shares.
 * Rows are never physically removed except comment likes (accounts, questions and comments are
 * soft-deleted by a flag).
 */
module Db {
  import opened Wrappers
  import opened Query

  datatype User = User(
    id: int,
    userEmail: string,
    userName: string,
    birthday: string,
    passwordHash: string,
    refreshToken: string,   // "" means no live session
    isMentor: bool,
    mentorCode: Option<string>,
    reportCount: int,
    isBlocked: bool,
    isDeleted: bool)

  datatype Question = Question(
    id: int, userId: int, title: string, content: string, category: string,
    isDeleted: bool, createdAt: int)

  datatype Attachment = Attachment(id: int, questionId: int, url: string)

  datatype Comment = Comment(
    id: int, userId: int, questionId: int, parentId: Option<int>, content: string,
    deleted: bool, createdAt: int)

  datatype CommentLike = CommentLike(userId: int, commentId: int)

  datatype ReportReason = Offensive | Sexual | Ad | Etc

  datatype Report = Report(
    id: int, reporterId: int, reason: ReportReason, etcReason: Option<string>,
    commentId: Option<int>, messageId: Option<int>, questionId: Option<int>)

  datatype ChatRoom = ChatRoom(
    id: int, userAId: int, userBId: int,
    isHiddenForUserA: bool, isHiddenForUserB: bool,
    lastReadMessageIdByA: Option<int>, lastReadMessageIdByB: Option<int>,
    createdAt: int)

  datatype Message = Message(
    id: int, roomId: int, senderId: int, content: Option<string>,
    fileUrl: Option<string>, fileType: Option<string>, isRead: bool, createdAt: int)

  datatype PairingToken = PairingToken(token: string, ownerId: int, expiresAt: int, usedAt: Option<int>)

  /** A government family-programme listing, as the crawler produces it. */
  datatype GovProgram = GovProgram(
    borough: Option<string>, title: Option<string>, image: Option<string>, url: string,
    programPeriod: Option<string>, applicationPeriod: Option<string>, target: Option<string>,
    personnel: Option<string>, programDetail: Option<string>, location: Option<string>)

  /** A Korean-language programme listing, as the crawler produces it. */
  datatype KoProgram = KoProgram(
    borough: string, title: string, image: string, applicationPeriod: Option<string>,
    programPeriod: Option<string>, location: string, url: string)

  function UserKey(u: User): int { u.id }
  function QuestionKey(q: Question): int { q.id }

  /** `user.findUnique({ where: { id } })`: the row of the account with that id, if any. */
  function FindUser(users: seq<User>, id: int): (r: Option<nat>)
    ensures r.None? <==> forall i :: 0 <= i < |users| ==> users[i].id != id
    ensures r.Some? ==> r.value < |users| && users[r.value].id == id
  {
    FindFirst(users, (u: User) => u.id == id)
  }
  /** A row with that id exists: what a foreign key to the users table needs. */
  ghost predicate UserExists(users: seq<User>, id: int) {
    exists i :: 0 <= i < |users| && users[i].id == id
  }

  /** A question row with that id exists, deleted or not. */
  ghost predicate QuestionExists(questions: seq<Question>, id: int) {
    exists i :: 0 <= i < |questions| && questions[i].id == id
  }

  /** A chat room with that id exists. */
  ghost predicate RoomExists(rooms: seq<ChatRoom>, id: int) {
    exists i :: 0 <= i < |rooms| && rooms[i].id == id
  }

  function AttachmentKey(a: Attachment): int { a.id }
  function CommentKey(c: Comment): int { c.id }
  function ReportKey(r: Report): int { r.id }
  function RoomKey(r: ChatRoom): int { r.id }
  function MessageKey(m: Message): int { m.id }

  /** The id an autoincrement column gives the next row: one past the last. */
  function NextId<T>(rows: seq<T>, key: T -> int): (n: int)
    ensures forall i :: 0 <= i < |rows| && Increasing(rows, key) ==> key(rows[i]) < n
  {
    if |rows| == 0 then 1 else key(rows[|rows| - 1]) + 1
  }

  lemma AppendKeepsIncreasing<T>(rows: seq<T>, x: T, key: T -> int)
    requires Increasing(rows, key)
    requires key(x) == NextId(rows, key)
    ensures Increasing(rows + [x], key)
  {
  }

  /** Email is a unique column. */
  ghost predicate EmailsUnique(users: seq<User>) {
    forall i, j :: 0 <= i < j < |users| ==> users[i].userEmail != users[j].userEmail
  }

  /** Token is a unique column. */
  ghost predicate TokensUnique(tokens: seq<PairingToken>) {
    forall i, j :: 0 <= i < j < |tokens| ==> tokens[i].token != tokens[j].token
  }

  /** (userId, commentId) is a unique pair. */
  ghost predicate LikesUnique(likes: seq<CommentLike>) {
    forall i, j :: 0 <= i < j < |likes| ==> likes[i] != likes[j]
  }

  /**
   * Every room stores its two participants as (smaller id, larger id), and no two rooms have the
   * same pair: there is at most one room per unordered pair of users.
   */
  ghost predicate RoomsKeyedByPair(rooms: seq<ChatRoom>) {
    && (forall i :: 0 <= i < |rooms| ==> rooms[i].userAId <= rooms[i].userBId)
    && (forall i, j :: 0 <= i < j < |rooms| ==>
          (rooms[i].userAId, rooms[i].userBId) != (rooms[j].userAId, rooms[j].userBId))
  }

  class Database {
    var users: seq<User>
    var questions: seq<Question>
    var attachments: seq<Attachment>
    var comments: seq<Comment>
    var commentLikes: seq<CommentLike>
    var reports: seq<Report>
    var chatRooms: seq<ChatRoom>
    var messages: seq<Message>
    var pairingTokens: seq<PairingToken>
    var govPro: seq<GovProgram>
    var koPro: seq<KoProgram>

    /** The schema's constraints: autoincrement ids, unique columns, one room per pair. */
    ghost predicate Valid()
      reads this
    {
      && UsersValid() && PostsValid() && LikesValid() && ReportsValid()
      && RoomsValid() && MessagesValid() && TokensValid()
    }

    /** Users: increasing ids, unique e-mail addresses. */
    ghost predicate UsersValid()
      reads this`users
    {
      Increasing(users, UserKey) && EmailsUnique(users)
    }

    /** Questions, attachments and comments: increasing ids. */
    ghost predicate PostsValid()
      reads this`questions, this`attachments, this`comments
    {
      Increasing(questions, QuestionKey) && Increasing(attachments, AttachmentKey) && Increasing(comments, CommentKey)
    }

    /** Likes: one per (user, comment) pair. */
    ghost predicate LikesValid()
      reads this`commentLikes
    {
      LikesUnique(commentLikes)
    }

    /** Reports: increasing ids. */
    ghost predicate ReportsValid()
      reads this`reports
    {
      Increasing(reports, ReportKey)
    }

    /** Chat rooms: increasing ids, one room per pair. */
    ghost predicate RoomsValid()
      reads this`chatRooms
    {
      Increasing(chatRooms, RoomKey) && RoomsKeyedByPair(chatRooms)
    }

    /** Messages: increasing ids. */
    ghost predicate MessagesValid()
      reads this`messages
    {
      Increasing(messages, MessageKey)
    }

    /** Pairing tokens: unique token strings. */
    ghost predicate TokensValid()
      reads this`pairingTokens
    {
      TokensUnique(pairingTokens)
    }

    /** Writes the users table; the caller has shown the new rows keep ids and e-mails unique. */
    method SetUsers(rows: seq<User>)
      requires Valid() && Increasing(rows, UserKey) && EmailsUnique(rows)
      modifies this`users
      ensures Valid() && users == rows
    {
      users := rows;
    }

    constructor ()
      ensures Valid()
      ensures users == [] && questions == [] && attachments == [] && comments == []
      ensures commentLikes == [] && reports == [] && chatRooms == [] && messages == []
      ensures pairingTokens == [] && govPro == [] && koPro == []
    {
      users, questions, attachments, comments := [], [], [], [];
      commentLikes, reports, chatRooms, messages := [], [], [], [];
      pairingTokens, govPro, koPro := [], [], [];
    }
  }
}

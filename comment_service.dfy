/**
 * Comments on questions: writing comments and replies, the two listings, reporting a comment
 * (which counts against its author) and soft deletion by the author.
 */
module CommentService {
  import opened Wrappers
  import opened Http
  import opened Query
  import opened Sorting
  import opened Db
  import opened UserService

  /** A report request: the reason, free text for `Etc`, and optionally the question it is under. */
  datatype ReportRequest = ReportRequest(reason: ReportReason, etcReason: Option<string>, questionId: Option<int>)

  /** `!dto.etcReason`: no text, or empty text. */
  predicate NoEtcText(etcReason: Option<string>) {
    etcReason.None? || etcReason.value == ""
  }

  /** Reason `Etc` with no text to go with it. */
  predicate EtcWithoutText(dto: ReportRequest) {
    dto.reason == Etc && NoEtcText(dto.etcReason)
  }

  /** The author of the comment with that id, if it exists (deleted comments included). */
  function CommentAuthor(comments: seq<Comment>, commentId: int): (r: Option<int>)
    ensures r.None? <==> forall i :: 0 <= i < |comments| ==> comments[i].id != commentId
    ensures r.Some? ==> exists i :: 0 <= i < |comments| && comments[i].id == commentId && comments[i].userId == r.value
  {
    match FindFirst(comments, (c: Comment) => c.id == commentId)
    case None => None
    case Some(i) => Some(comments[i].userId)
  }

  /** This reporter already has a report on this comment. */
  ghost predicate AlreadyReported(reports: seq<Report>, commentId: int, reporterId: int) {
    exists i :: 0 <= i < |reports| && reports[i].commentId == Some(commentId) && reports[i].reporterId == reporterId
  }

  /**
   * createComment: a new top-level comment.  The comment is connected to its author and its
   * question, so an unknown author or question makes the insert fail and nothing is written.
   * `now` is the insertion time.
   */
  method CreateComment(db: Database, userId: int, questionId: int, content: string, now: int) returns (r: Result<Comment>)
    requires db.Valid()
    modifies db`comments
    ensures db.Valid()
    ensures r.Err? <==> !UserExists(db.users, userId) || !QuestionExists(db.questions, questionId)
    ensures r.Err? ==> r == Err(Plain, 500) && db.comments == old(db.comments)
    ensures r.Ok? ==>
      && r.value == Comment(NextId(old(db.comments), CommentKey), userId, questionId, None, content, false, now)
      && db.comments == old(db.comments) + [r.value]
  {
    var author := FindUser(db.users, userId);
    var question := FindFirst(db.questions, (q: Question) => q.id == questionId);
    if author.None? || question.None? {
      return Fail(Plain);
    }
    var c := Comment(NextId(db.comments, CommentKey), userId, questionId, None, content, false, now);
    AppendKeepsIncreasing(db.comments, c, CommentKey);
    db.comments := db.comments + [c];
    r := Ok(c);
  }

  /**
   * createReplyComment: a reply records its parent and is placed under the parent's question.  A
   * missing parent is a plain error; so is an unknown author, whose foreign key makes the insert
   * fail.  Either way nothing is written.
   */
  method CreateReplyComment(db: Database, userId: int, parentId: int, content: string, now: int)
    returns (r: Result<Comment>)
    requires db.Valid()
    modifies db`comments
    ensures db.Valid()
    ensures r.Err? <==>
      || (forall i :: 0 <= i < |old(db.comments)| ==> old(db.comments)[i].id != parentId)
      || !UserExists(db.users, userId)
    ensures r.Err? ==> r == Err(Plain, 500) && db.comments == old(db.comments)
    ensures r.Ok? ==> db.comments == old(db.comments) + [r.value]
    ensures r.Ok? ==>
      r.value.id == NextId(old(db.comments), CommentKey) && r.value.userId == userId
        && r.value.content == content && !r.value.deleted && r.value.createdAt == now
    ensures r.Ok? ==>
      r.value.parentId == Some(parentId)
        && exists i :: 0 <= i < |old(db.comments)| && old(db.comments)[i].id == parentId
             && r.value.questionId == old(db.comments)[i].questionId
  {
    var found := FindFirst(db.comments, (c: Comment) => c.id == parentId);
    if found.None? {
      return Fail(Plain);
    }
    var parent := db.comments[found.value];
    if FindUser(db.users, userId).None? {
      return Fail(Plain);
    }
    var c := Comment(NextId(db.comments, CommentKey), userId, parent.questionId, Some(parentId), content, false, now);
    AppendKeepsIncreasing(db.comments, c, CommentKey);
    db.comments := db.comments + [c];
    r := Ok(c);
  }

  /** getCommentsByQuestion: every comment under the question, deleted ones included, by ascending id. */
  function GetCommentsByQuestion(comments: seq<Comment>, questionId: int): (r: seq<Comment>)
    ensures SortedBy(r, CommentKey)
    ensures forall k :: 0 <= k < |r| ==> r[k] in comments && r[k].questionId == questionId
    ensures forall j :: 0 <= j < |comments| && comments[j].questionId == questionId ==> comments[j] in r
    ensures multiset(r) == multiset(Filter(comments, (c: Comment) => c.questionId == questionId))
  {
    FindMany(comments, (c: Comment) => c.questionId == questionId, CommentKey)
  }

  function NewestFirst(c: Comment): int { -c.createdAt }

  /** getMyComments: every comment the user wrote, newest first. */
  function GetMyComments(comments: seq<Comment>, userId: int): (r: seq<Comment>)
    ensures forall k :: 0 <= k < |r| - 1 ==> r[k].createdAt >= r[k + 1].createdAt
    ensures forall k :: 0 <= k < |r| ==> r[k] in comments && r[k].userId == userId
    ensures forall j :: 0 <= j < |comments| && comments[j].userId == userId ==> comments[j] in r
    ensures multiset(r) == multiset(Filter(comments, (c: Comment) => c.userId == userId))
  {
    var r := FindMany(comments, (c: Comment) => c.userId == userId, NewestFirst);
    assert forall k :: 0 <= k < |r| - 1 ==> NewestFirst(r[k]) <= NewestFirst(r[k + 1]);
    r
  }

  /** The report row a comment report stores. */
  function CommentReportRow(reports: seq<Report>, commentId: int, dto: ReportRequest, reporterId: int): Report {
    Report(NextId(reports, ReportKey), reporterId, dto.reason, dto.etcReason, Some(commentId), None, dto.questionId)
  }

  /**
   * reportComment as a function of the tables it reads.  The checks run in this order and each
   * failure writes nothing: a repeat report by the same reporter (BadRequest), `Etc` without
   * text (BadRequest), a missing comment (NotFound).  Then the comment's author is reported and
   * the row stored, as `ReportThenStore` says.
   */
  function ReportCommentEffect(users: seq<User>, reports: seq<Report>, comments: seq<Comment>, questions: seq<Question>,
                               commentId: int, dto: ReportRequest, reporterId: int): (e: ReportEffect)
    requires Increasing(users, UserKey)
    ensures AlreadyReported(reports, commentId, reporterId) ==> e == ReportEffect(Err(BadRequest, 400), users, reports)
    ensures !AlreadyReported(reports, commentId, reporterId) && EtcWithoutText(dto) ==>
      e == ReportEffect(Err(BadRequest, 400), users, reports)
    ensures !AlreadyReported(reports, commentId, reporterId) && !EtcWithoutText(dto) && CommentAuthor(comments, commentId).None? ==>
      e == ReportEffect(Err(NotFound, 404), users, reports)
    ensures !AlreadyReported(reports, commentId, reporterId) && !EtcWithoutText(dto) && CommentAuthor(comments, commentId).Some? ==>
      e == ReportThenStore(users, reports, questions, CommentAuthor(comments, commentId).value,
                           CommentReportRow(reports, commentId, dto, reporterId))
  {
    if FindFirst(reports, (p: Report) => p.commentId == Some(commentId) && p.reporterId == reporterId).Some? then
      ReportEffect(Fail(BadRequest), users, reports)
    else if EtcWithoutText(dto) then
      ReportEffect(Fail(BadRequest), users, reports)
    else match CommentAuthor(comments, commentId)
      case None => ReportEffect(Fail(NotFound), users, reports)
      case Some(author) => ReportThenStore(users, reports, questions, author, CommentReportRow(reports, commentId, dto, reporterId))
  }

  /** reportComment: the result and the two tables follow `ReportCommentEffect`. */
  method ReportComment(db: Database, commentId: int, dto: ReportRequest, reporterId: int) returns (r: Result<Report>)
    requires db.Valid()
    modifies db`users, db`reports
    ensures db.Valid()
    ensures var e := ReportCommentEffect(old(db.users), old(db.reports), db.comments, db.questions, commentId, dto, reporterId);
      r == e.result && db.users == e.users && db.reports == e.reports
  {
    var existing := FindFirst(db.reports, (p: Report) => p.commentId == Some(commentId) && p.reporterId == reporterId);
    if existing.Some? {
      return Fail(BadRequest);
    }
    if EtcWithoutText(dto) {
      return Fail(BadRequest);
    }
    var author := CommentAuthor(db.comments, commentId);
    if author.None? {
      return Fail(NotFound);
    }
    var row := CommentReportRow(db.reports, commentId, dto, reporterId);
    r := StoreReport(db, author.value, row);
  }

  /**
   * The increment and the insert are two separate writes.  When the insert fails, no report row
   * records the attempt, so the same reporter can send the same report again, and every repeat
   * raises the author's count once more.
   */
  lemma FailedReportRepeats(users: seq<User>, reports: seq<Report>, comments: seq<Comment>, questions: seq<Question>,
                            commentId: int, dto: ReportRequest, reporterId: int)
    requires Increasing(users, UserKey) && EmailsUnique(users)
    requires !AlreadyReported(reports, commentId, reporterId) && !EtcWithoutText(dto)
    requires CommentAuthor(comments, commentId).Some? && UserExists(users, CommentAuthor(comments, commentId).value)
    requires ReportInsertFails(users, questions, CommentReportRow(reports, commentId, dto, reporterId))
    ensures var author := CommentAuthor(comments, commentId).value;
      var first := ReportCommentEffect(users, reports, comments, questions, commentId, dto, reporterId);
      && first == ReportEffect(Err(Plain, 500), ReportAuthor(users, author), reports)
      && Increasing(first.users, UserKey)
      && ReportCommentEffect(first.users, reports, comments, questions, commentId, dto, reporterId)
           == ReportEffect(Err(Plain, 500), ReportAuthor(first.users, author), reports)
  {
    var author := CommentAuthor(comments, commentId).value;
    var row := CommentReportRow(reports, commentId, dto, reporterId);
    ReportAuthorKeepsKeys(users, author);
    ReportAuthorKeepsAccounts(users, author, author);
    ReportAuthorKeepsAccounts(users, author, row.reporterId);
  }

  /**
   * Once a report of a comment has been stored, the same reporter's next report of that comment
   * is refused as a repeat, and neither table changes.
   */
  lemma SecondReportRefused(users: seq<User>, reports: seq<Report>, comments: seq<Comment>, questions: seq<Question>,
                            commentId: int, dto: ReportRequest, reporterId: int)
    requires Increasing(users, UserKey) && EmailsUnique(users)
    requires ReportCommentEffect(users, reports, comments, questions, commentId, dto, reporterId).result.Ok?
    ensures var first := ReportCommentEffect(users, reports, comments, questions, commentId, dto, reporterId);
      && Increasing(first.users, UserKey)
      && ReportCommentEffect(first.users, first.reports, comments, questions, commentId, dto, reporterId)
           == ReportEffect(Err(BadRequest, 400), first.users, first.reports)
  {
    var author := CommentAuthor(comments, commentId).value;
    var row := CommentReportRow(reports, commentId, dto, reporterId);
    ReportAuthorKeepsKeys(users, author);
    assert (reports + [row])[|reports|] == row;
  }

  /**
   * deleteComment: soft deletion by the author.  A missing comment or another user's comment is
   * a plain error; otherwise only that comment's `deleted` flag changes and the row stays.
   */
  method DeleteComment(db: Database, id: int, userId: int) returns (r: Result<Comment>)
    requires db.Valid()
    modifies db`comments
    ensures db.Valid()
    ensures r.Err? <==> CommentAuthor(old(db.comments), id) != Some(userId)
    ensures r.Err? ==> r.kind == Plain && db.comments == old(db.comments)
    ensures r.Ok? ==>
      exists i :: 0 <= i < |old(db.comments)| && old(db.comments)[i].id == id
        && r.value == old(db.comments)[i].(deleted := true)
        && db.comments == old(db.comments)[i := r.value]
  {
    var found := FindFirst(db.comments, (c: Comment) => c.id == id);
    if found.None? || db.comments[found.value].userId != userId {
      return Fail(Plain);
    }
    var i := found.value;
    var updated := db.comments[i].(deleted := true);
    assert forall k :: 0 <= k < |db.comments| ==> db.comments[i := updated][k].id == db.comments[k].id;
    db.comments := db.comments[i := updated];
    r := Ok(updated);
  }
}

/**
 * The question board: posting a question with its image attachments, the list and detail
 * projections, and soft deletion by the author.  A question's answers are the comment rows that
 * carry its id.
 */
module QuestionService {
  import opened Wrappers
  import opened Http
  import opened Query
  import opened Sorting
  import opened Db

  /** The validated body of a new question. */
  datatype QuestionRequest = QuestionRequest(title: string, content: string, category: string)

  /** What createQuestion returns: the row together with its attachments. */
  datatype CreatedQuestion = CreatedQuestion(question: Question, attachments: seq<Attachment>)

  /** One attachment row per url, in the order given, with consecutive ids from `firstId`. */
  function NewAttachments(urls: seq<string>, firstId: int, questionId: int): (r: seq<Attachment>)
    ensures |r| == |urls|
    ensures forall k :: 0 <= k < |r| ==> r[k].questionId == questionId && r[k].url == urls[k]
    ensures Increasing(r, AttachmentKey)
  {
    seq(|urls|, k requires 0 <= k < |urls| => Attachment(firstId + k, questionId, urls[k]))
  }

  /** `attachments.map(a => a.url)`. */
  function Urls(attachments: seq<Attachment>): (r: seq<string>)
    ensures |r| == |attachments|
    ensures forall k :: 0 <= k < |r| ==> r[k] == attachments[k].url
  {
    seq(|attachments|, k requires 0 <= k < |attachments| => attachments[k].url)
  }

  /** Reading the urls back from freshly made attachments gives the urls that were supplied. */
  lemma UrlsOfNewAttachments(urls: seq<string>, firstId: int, questionId: int)
    ensures Urls(NewAttachments(urls, firstId, questionId)) == urls
  {
  }

  /** A batch numbered from the next id keeps the attachment ids increasing. */
  lemma AppendBatchKeepsIncreasing(rows: seq<Attachment>, urls: seq<string>, questionId: int)
    requires Increasing(rows, AttachmentKey)
    ensures Increasing(rows + NewAttachments(urls, NextId(rows, AttachmentKey), questionId), AttachmentKey)
  {
    var batch := NewAttachments(urls, NextId(rows, AttachmentKey), questionId);
    var all := rows + batch;
    forall i, j | 0 <= i < j < |all| ensures all[i].id < all[j].id {
      if j >= |rows| && i < |rows| {
        assert all[i] == rows[i];
        assert all[j] == batch[j - |rows|];
      }
    }
  }

  /**
   * createQuestion: the question is connected to its author, so an unknown author makes the
   * insert fail and nothing is written.  Each supplied url becomes one attachment of the new
   * question; no list (or an empty one) gives none.  `now` is the insertion time.
   */
  method CreateQuestion(db: Database, dto: QuestionRequest, userId: int, imageUrls: Option<seq<string>>, now: int)
    returns (r: Result<CreatedQuestion>)
    requires db.Valid()
    modifies db`questions, db`attachments
    ensures db.Valid()
    ensures r.Err? <==> !UserExists(db.users, userId)
    ensures r.Err? ==>
      r.kind == Plain && db.questions == old(db.questions) && db.attachments == old(db.attachments)
    ensures r.Ok? ==>
      var q := Question(NextId(old(db.questions), QuestionKey), userId, dto.title, dto.content, dto.category, false, now);
      var batch := NewAttachments(imageUrls.GetOr([]), NextId(old(db.attachments), AttachmentKey), q.id);
      && r.value == CreatedQuestion(q, batch)
      && db.questions == old(db.questions) + [q]
      && db.attachments == old(db.attachments) + batch
  {
    var author := FindFirst(db.users, (u: User) => u.id == userId);
    if author.None? {
      return Fail(Plain);
    }
    assert db.users[author.value].id == userId;
    var q := Question(NextId(db.questions, QuestionKey), userId, dto.title, dto.content, dto.category, false, now);
    var batch := NewAttachments(imageUrls.GetOr([]), NextId(db.attachments, AttachmentKey), q.id);
    AppendKeepsIncreasing(db.questions, q, QuestionKey);
    AppendBatchKeepsIncreasing(db.attachments, imageUrls.GetOr([]), q.id);
    db.questions := db.questions + [q];
    db.attachments := db.attachments + batch;
    r := Ok(CreatedQuestion(q, batch));
  }

  /** The answers of a question: the comments that carry its id. */
  function AnswerCount(comments: seq<Comment>, questionId: int): nat {
    Count(comments, (c: Comment) => c.questionId == questionId)
  }

  /** A list entry: category, title, content and the number of answers. */
  datatype QuestionSummary = QuestionSummary(category: string, title: string, content: string, answerCount: nat)

  /** The list filter: not deleted, and of the category when a non-empty one is given. */
  predicate Listed(q: Question, category: Option<string>) {
    !q.isDeleted && (category.None? || category.value == "" || q.category == category.value)
  }

  function NewestQuestionFirst(q: Question): int { -q.createdAt }

  /** The rows getQuestionList reads: the listed questions, newest first. */
  function ListedQuestions(questions: seq<Question>, category: Option<string>): (r: seq<Question>)
    ensures forall k :: 0 <= k < |r| - 1 ==> r[k].createdAt >= r[k + 1].createdAt
    ensures forall k :: 0 <= k < |r| ==> r[k] in questions && !r[k].isDeleted
    ensures forall k :: 0 <= k < |r| && category.Some? && category.value != "" ==> r[k].category == category.value
    ensures forall j :: 0 <= j < |questions| && Listed(questions[j], category) ==> questions[j] in r
    ensures multiset(r) == multiset(Filter(questions, (q: Question) => Listed(q, category)))
  {
    var r := FindMany(questions, (q: Question) => Listed(q, category), NewestQuestionFirst);
    assert forall k :: 0 <= k < |r| - 1 ==> NewestQuestionFirst(r[k]) <= NewestQuestionFirst(r[k + 1]);
    assert forall k :: 0 <= k < |r| ==> Listed(r[k], category) && r[k] in questions;
    r
  }

  /**
   * getQuestionList: one entry per listed question, newest first, each carrying that question's
   * number of answers.
   */
  function GetQuestionList(questions: seq<Question>, comments: seq<Comment>, category: Option<string>)
    : (r: seq<QuestionSummary>)
    ensures var rows := ListedQuestions(questions, category);
      && |r| == |rows|
      && forall k :: 0 <= k < |r| ==>
           && r[k].title == rows[k].title && r[k].content == rows[k].content
           && r[k].category == rows[k].category
           && r[k].answerCount == AnswerCount(comments, rows[k].id)
  {
    var rows := ListedQuestions(questions, category);
    seq(|rows|, k requires 0 <= k < |rows| =>
      QuestionSummary(rows[k].category, rows[k].title, rows[k].content, AnswerCount(comments, rows[k].id)))
  }

  /** The number of entries is the number of listed questions: nothing is dropped or repeated. */
  lemma GetQuestionListLength(questions: seq<Question>, comments: seq<Comment>, category: Option<string>)
    ensures |GetQuestionList(questions, comments, category)|
         == Count(questions, (q: Question) => Listed(q, category))
  {
    var rows := ListedQuestions(questions, category);
    assert |multiset(rows)| == |multiset(Filter(questions, (q: Question) => Listed(q, category)))|;
  }

  /** The detail view of a question. */
  datatype QuestionDetail = QuestionDetail(
    title: string, content: string, createdAt: int, userName: string,
    answerCount: nat, category: string, attachments: seq<string>)

  /** The attachments of a question, in stored order. */
  function AttachmentsOf(attachments: seq<Attachment>, questionId: int): seq<Attachment> {
    Filter(attachments, (a: Attachment) => a.questionId == questionId)
  }

  ghost predicate LiveQuestion(questions: seq<Question>, i: int, id: int) {
    0 <= i < |questions| && questions[i].id == id && !questions[i].isDeleted
  }

  /** Row `i` is the first non-deleted question with that id: the one `findFirst` returns. */
  ghost predicate FirstLive(questions: seq<Question>, id: int, i: int) {
    LiveQuestion(questions, i, id) && forall j :: 0 <= j < i ==> !LiveQuestion(questions, j, id)
  }

  /**
   * getQuestionDetail: NotFound unless a non-deleted question has that id.  The author's name
   * comes from the author row (a question whose author row is gone fails reading it).
   */
  function GetQuestionDetail(questions: seq<Question>, users: seq<User>, attachments: seq<Attachment>,
                             comments: seq<Comment>, id: int): (r: Result<QuestionDetail>)
    ensures r == Err(NotFound, 404) <==> forall i :: !LiveQuestion(questions, i, id)
    ensures r == Err(Plain, 500) <==> exists i :: FirstLive(questions, id, i) && !UserExists(users, questions[i].userId)
    ensures r.Err? ==> r == Err(NotFound, 404) || r == Err(Plain, 500)
    ensures r.Ok? ==>
      exists i :: FirstLive(questions, id, i)
        && r.value.title == questions[i].title && r.value.content == questions[i].content
        && r.value.createdAt == questions[i].createdAt && r.value.category == questions[i].category
        && FindUser(users, questions[i].userId).Some?
        && r.value.userName == users[FindUser(users, questions[i].userId).value].userName
    ensures r.Ok? ==>
      && r.value.attachments == Urls(AttachmentsOf(attachments, id))
      && r.value.answerCount == AnswerCount(comments, id)
  {
    match FindFirst(questions, (q: Question) => q.id == id && !q.isDeleted)
    case None => Fail(NotFound)
    case Some(i) =>
      var q := questions[i];
      assert FirstLive(questions, id, i);
      assert forall j :: FirstLive(questions, id, j) ==> j == i;
      match FindUser(users, q.userId)
      case None => Fail(Plain)
      case Some(a) =>
        Ok(QuestionDetail(q.title, q.content, q.createdAt, users[a].userName,
                          AnswerCount(comments, id), q.category, Urls(AttachmentsOf(attachments, id))))
  }

  /** The new batch is all the attachments the new question has. */
  lemma AttachmentsOfNewQuestion(attachments: seq<Attachment>, urls: seq<string>, questionId: int)
    requires forall k :: 0 <= k < |attachments| ==> attachments[k].questionId != questionId
    ensures var batch := NewAttachments(urls, NextId(attachments, AttachmentKey), questionId);
      AttachmentsOf(attachments + batch, questionId) == batch
  {
    var batch := NewAttachments(urls, NextId(attachments, AttachmentKey), questionId);
    var p := (a: Attachment) => a.questionId == questionId;
    FilterAppend(attachments, batch, p);
    CountZero(attachments, p);
    FilterAll(batch, p);
  }

  /** The appended question is the first live row with its id. */
  lemma NewQuestionFound(questions: seq<Question>, q: Question)
    requires Increasing(questions, QuestionKey)
    requires q.id == NextId(questions, QuestionKey) && !q.isDeleted
    ensures FindFirst(questions + [q], (r: Question) => r.id == q.id && !r.isDeleted) == Some(|questions|)
  {
    var all := questions + [q];
    assert all[|questions|] == q;
    forall i | 0 <= i < |questions| ensures all[i].id != q.id {
      assert all[i] == questions[i];
    }
  }

  /**
   * A question just posted reads back with the attachments' urls exactly as supplied (when no
   * stored attachment pointed at its id before).
   */
  lemma CreateThenDetail(questions: seq<Question>, users: seq<User>, attachments: seq<Attachment>,
                         comments: seq<Comment>, q: Question, urls: seq<string>)
    requires Increasing(questions, QuestionKey)
    requires q.id == NextId(questions, QuestionKey) && !q.isDeleted && UserExists(users, q.userId)
    requires forall k :: 0 <= k < |attachments| ==> attachments[k].questionId != q.id
    ensures var r := GetQuestionDetail(questions + [q], users,
                                       attachments + NewAttachments(urls, NextId(attachments, AttachmentKey), q.id),
                                       comments, q.id);
      r.Ok? && r.value.attachments == urls && r.value.title == q.title && r.value.content == q.content
  {
    var batch := NewAttachments(urls, NextId(attachments, AttachmentKey), q.id);
    AttachmentsOfNewQuestion(attachments, urls, q.id);
    NewQuestionFound(questions, q);
    UrlsOfNewAttachments(urls, NextId(attachments, AttachmentKey), q.id);
    var a := FindFirst(users, (u: User) => u.id == q.userId);
    assert a.Some?;
  }

  /**
   * deleteQuestion on the rows: an unknown or already-deleted question is NotFound, someone else's
   * question a plain error, and otherwise only that row's isDeleted becomes true.
   */
  function DeleteQuestionRows(questions: seq<Question>, id: int, userId: int): (r: Result<seq<Question>>)
    requires Increasing(questions, QuestionKey)
    ensures r == Err(NotFound, 404) <==> forall i :: !LiveQuestion(questions, i, id)
    ensures r.Err? ==> r.kind == NotFound || r.kind == Plain
    ensures r.Err? && r.kind == Plain ==>
      exists i :: LiveQuestion(questions, i, id) && questions[i].userId != userId
    ensures r.Ok? ==>
      exists i :: LiveQuestion(questions, i, id) && questions[i].userId == userId
        && r.value == questions[i := questions[i].(isDeleted := true)]
  {
    match FindFirst(questions, (q: Question) => q.id == id)
    case None => Fail(NotFound)
    case Some(i) =>
      KeyUnique(questions, QuestionKey, i);
      if questions[i].isDeleted then Fail(NotFound)
      else if questions[i].userId != userId then
        assert LiveQuestion(questions, i, id);
        Fail(Plain)
      else
        assert LiveQuestion(questions, i, id);
        Ok(questions[i := questions[i].(isDeleted := true)])
  }

  /** deleteQuestion. */
  method DeleteQuestion(db: Database, id: int, userId: int) returns (r: Result<()>)
    requires db.Valid()
    modifies db`questions
    ensures db.Valid()
    ensures var d := DeleteQuestionRows(old(db.questions), id, userId);
      && (d.Err? ==> r == Err(d.kind, d.bodyStatus) && db.questions == old(db.questions))
      && (d.Ok? ==> r == Ok(()) && db.questions == d.value)
  {
    var d := DeleteQuestionRows(db.questions, id, userId);
    if d.Err? {
      return Err(d.kind, d.bodyStatus);
    }
    assert forall k :: 0 <= k < |db.questions| ==> d.value[k].id == db.questions[k].id;
    db.questions := d.value;
    r := Ok(());
  }

  /** Deleting is once only: the same question deleted again, by anyone, is NotFound. */
  lemma DeleteTwiceNotFound(questions: seq<Question>, id: int, userId: int, anyone: int)
    requires Increasing(questions, QuestionKey)
    requires DeleteQuestionRows(questions, id, userId).Ok?
    ensures Increasing(DeleteQuestionRows(questions, id, userId).value, QuestionKey)
    ensures DeleteQuestionRows(DeleteQuestionRows(questions, id, userId).value, id, anyone) == Err(NotFound, 404)
  {
    var after := DeleteQuestionRows(questions, id, userId).value;
    var i :| LiveQuestion(questions, i, id) && after == questions[i := questions[i].(isDeleted := true)];
    KeyUnique(questions, QuestionKey, i);
    assert forall k :: 0 <= k < |after| ==> after[k].id == questions[k].id;
    forall k | 0 <= k < |after| ensures !LiveQuestion(after, k, id) {
      if k != i {
        assert after[k] == questions[k];
      }
    }
  }

  /** A deleted question is neither shown in detail nor listed. */
  lemma DeletedQuestionHidden(questions: seq<Question>, users: seq<User>, attachments: seq<Attachment>,
                              comments: seq<Comment>, id: int, userId: int, category: Option<string>)
    requires Increasing(questions, QuestionKey)
    requires DeleteQuestionRows(questions, id, userId).Ok?
    ensures var after := DeleteQuestionRows(questions, id, userId).value;
      && GetQuestionDetail(after, users, attachments, comments, id) == Err(NotFound, 404)
      && forall k :: 0 <= k < |ListedQuestions(after, category)| ==> ListedQuestions(after, category)[k].id != id
  {
    DeleteTwiceNotFound(questions, id, userId, userId);
    var after := DeleteQuestionRows(questions, id, userId).value;
    var rows := ListedQuestions(after, category);
    forall k | 0 <= k < |rows| ensures rows[k].id != id {
      var j :| 0 <= j < |after| && after[j] == rows[k];
      assert !LiveQuestion(after, j, id);
    }
  }
}

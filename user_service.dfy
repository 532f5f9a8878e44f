/**
 * The account lookups and the two account updates of the user service: storing the refresh
 * token, and blocking an account once it has been reported ten times.  Every lookup used for
 * authentication filters out soft-deleted accounts, and all but one filter out blocked ones.
 */
module UserService {
  import opened Wrappers
  import opened Http
  import opened Query
  import opened JsString
  import opened Db

  /** The report count at which an account is blocked. */
  const BlockThreshold := 10

  /** An account that is neither soft-deleted nor blocked. */
  predicate Active(u: User) {
    !u.isDeleted && !u.isBlocked
  }

  /** Row `i` is the active account with id `userId`. */
  ghost predicate ActiveRow(users: seq<User>, i: int, userId: int) {
    0 <= i < |users| && users[i].id == userId && Active(users[i])
  }

  /** The value updateRefreshToken stores: the token itself, or "" (no session) for null or "". */
  function StoredRefreshToken(token: Option<string>): (t: string)
    ensures t == "" <==> (token.None? || token.value == "")
    ensures t != "" ==> token == Some(t)
  {
    if token.Some? && token.value != "" then token.value else ""
  }

  /**
   * Stores a refresh token on an active account.  The update only matches a row that is neither
   * deleted nor blocked; on any other row the database client throws.
   */
  method UpdateRefreshToken(db: Database, userId: int, token: Option<string>) returns (r: Result<User>)
    requires db.Valid()
    modifies db`users
    ensures db.Valid()
    ensures r.Err? <==> forall i :: !ActiveRow(old(db.users), i, userId)
    ensures r.Err? ==> r.kind == Plain && db.users == old(db.users)
    ensures r.Ok? ==>
      exists i :: ActiveRow(old(db.users), i, userId)
        && db.users == old(db.users)[i := old(db.users)[i].(refreshToken := StoredRefreshToken(token))]
        && r.value == db.users[i]
  {
    var found := FindFirst(db.users, (u: User) => u.id == userId && Active(u));
    if found.None? {
      return Fail(Plain);
    }
    var i := found.value;
    assert ActiveRow(db.users, i, userId);
    var updated := db.users[i].(refreshToken := StoredRefreshToken(token));
    db.users := db.users[i := updated];
    r := Ok(updated);
  }

  /** The columns selected when refreshing a token. */
  datatype TokenRefreshView = TokenRefreshView(id: int, userEmail: string, refreshToken: string, userName: string)

  /** The columns selected for a profile read. */
  datatype UserInfo = UserInfo(id: int, userEmail: string, userName: string, birthday: string,
                               isMentor: bool, reportCount: int)

  /** The columns selected to validate a sign-in, including the blocked flag. */
  datatype ValidationView = ValidationView(id: int, userEmail: string, passwordHash: string,
                                           refreshToken: string, userName: string, isBlocked: bool)

  /** The columns selected to check or change a password. */
  datatype PasswordView = PasswordView(id: int, passwordHash: string)

  /** The account with that id, only if it is active. */
  function FindUserForTokenRefresh(users: seq<User>, userId: int): (r: Option<TokenRefreshView>)
    ensures r.None? <==> forall i :: !ActiveRow(users, i, userId)
    ensures r.Some? ==>
      exists i :: ActiveRow(users, i, userId) && r.value ==
        TokenRefreshView(users[i].id, users[i].userEmail, users[i].refreshToken, users[i].userName)
  {
    match FindFirst(users, (u: User) => u.id == userId && Active(u))
    case None => None
    case Some(i) =>
      assert ActiveRow(users, i, userId);
      Some(TokenRefreshView(users[i].id, users[i].userEmail, users[i].refreshToken, users[i].userName))
  }

  /** The profile of the account with that id, only if it is active. */
  function FindUserById(users: seq<User>, userId: int): (r: Option<UserInfo>)
    ensures r.None? <==> forall i :: !ActiveRow(users, i, userId)
    ensures r.Some? ==>
      exists i :: ActiveRow(users, i, userId) && r.value ==
        UserInfo(users[i].id, users[i].userEmail, users[i].userName, users[i].birthday,
        users[i].isMentor, users[i].reportCount)
  {
    match FindFirst(users, (u: User) => u.id == userId && Active(u))
    case None => None
    case Some(i) =>
      assert ActiveRow(users, i, userId);
      var u := users[i];
      Some(UserInfo(u.id, u.userEmail, u.userName, u.birthday, u.isMentor, u.reportCount))
  }

  /** The account with that email that is not deleted; a blocked account is returned, flagged. */
  function FindUserForValidation(users: seq<User>, email: string): (r: Option<ValidationView>)
    ensures r.None? <==> forall i :: 0 <= i < |users| ==> !(users[i].userEmail == email && !users[i].isDeleted)
    ensures r.Some? ==>
      exists i :: 0 <= i < |users| && users[i].userEmail == email && !users[i].isDeleted
        && r.value == ValidationView(users[i].id, users[i].userEmail, users[i].passwordHash,
        users[i].refreshToken, users[i].userName, users[i].isBlocked)
  {
    match FindFirst(users, (u: User) => u.userEmail == email && !u.isDeleted)
    case None => None
    case Some(i) =>
      var u := users[i];
      Some(ValidationView(u.id, u.userEmail, u.passwordHash, u.refreshToken, u.userName, u.isBlocked))
  }

  /** The id and password hash of the account with that id, only if it is active. */
  function FindUserForResetPassword(users: seq<User>, userId: int): (r: Option<PasswordView>)
    ensures r.None? <==> forall i :: !ActiveRow(users, i, userId)
    ensures r.Some? ==> exists i :: ActiveRow(users, i, userId) && r.value == PasswordView(users[i].id, users[i].passwordHash)
  {
    match FindFirst(users, (u: User) => u.id == userId && Active(u))
    case None => None
    case Some(i) =>
      assert ActiveRow(users, i, userId);
      Some(PasswordView(users[i].id, users[i].passwordHash))
  }

  /**
   * Sign-in: the active account with exactly that email, if `compare` (the password-hash
   * comparison) accepts the password against its stored hash.  No such account is a BadRequest
   * whose body says 404; a wrong password is Unauthorized (401).
   */
  function SignInWithEmail(users: seq<User>, email: string, password: string,
                           compare: (string, string) -> bool): (r: Result<User>)
    ensures r.Err? && r.kind == BadRequest <==>
              forall i :: 0 <= i < |users| ==> !(users[i].userEmail == email && Active(users[i]))
    ensures r.Err? && r.kind == BadRequest ==> r.bodyStatus == 404
    ensures r.Err? ==> r.kind == BadRequest || (r.kind == Unauthorized && r.bodyStatus == 401)
    ensures r.Ok? ==> (r.value in users && r.value.userEmail == email && Active(r.value)
              && compare(password, r.value.passwordHash))
    ensures r.Err? && r.kind == Unauthorized ==>
      exists i :: 0 <= i < |users| && users[i].userEmail == email
        && Active(users[i]) && !compare(password, users[i].passwordHash)
  {
    match FindFirst(users, (u: User) => u.userEmail == email && Active(u))
    case None => Err(BadRequest, 404)
    case Some(i) =>
      var user := users[i];
      var isEmailMatch := user.userEmail == email;
      var isPasswordMatch := compare(password, user.passwordHash);
      if !isPasswordMatch || !isEmailMatch then Err(Unauthorized, 401)
      else Ok(user)
  }

  /** The email as sign-up stores it and as the password-reset lookup searches it. */
  function NormalizeEmail(email: string): (r: string)
    ensures Trimmed(r) && AllLower(r)
    ensures |r| <= |email|
  {
    TrimResultTrimmed(ToLowerCase(email));
    LowerOfTrimmedLower(email);
    LowerCaseIsLower(Trim(ToLowerCase(email)));
    Trim(ToLowerCase(email))
  }

  /** The account a password reset is for: not deleted, with the normalised email; else NotFound. */
  function FindUserForPasswordReset(users: seq<User>, email: string): (r: Result<PasswordView>)
    ensures r.Err? <==> forall i :: 0 <= i < |users| ==>
              !(users[i].userEmail == NormalizeEmail(email) && !users[i].isDeleted)
    ensures r.Err? ==> r.kind == NotFound && r.bodyStatus == 404
    ensures r.Ok? ==>
      exists i :: 0 <= i < |users| && users[i].userEmail == NormalizeEmail(email)
        && !users[i].isDeleted && r.value == PasswordView(users[i].id, users[i].passwordHash)
  {
    var trimEmail := NormalizeEmail(email);
    match FindFirst(users, (u: User) => u.userEmail == trimEmail && !u.isDeleted)
    case None => Fail(NotFound)
    case Some(i) => Ok(PasswordView(users[i].id, users[i].passwordHash))
  }

  /** The blocked form of an account: blocked, with its session cleared. */
  function Blocked(u: User): User {
    u.(refreshToken := "", isBlocked := true)
  }

  /**
   * The users table after blockUser: the account with that id (deleted or not) is blocked and
   * its refresh token cleared when its report count is at least the threshold; every other
   * account, and every other column, is unchanged.
   */
  function Block(users: seq<User>, userId: int): (r: seq<User>)
    requires Increasing(users, UserKey)
    ensures |r| == |users|
    ensures forall i :: 0 <= i < |users| && users[i].id != userId ==> r[i] == users[i]
    ensures forall i :: 0 <= i < |users| && users[i].id == userId ==>
              r[i] == if users[i].reportCount >= BlockThreshold then Blocked(users[i]) else users[i]
  {
    match FindFirst(users, (u: User) => u.id == userId)
    case None => users
    case Some(i) =>
      assert forall j :: 0 <= j < |users| && j != i ==> users[j].id != userId by {
        forall j | 0 <= j < |users| && j != i ensures users[j].id != userId {
          if j < i { assert UserKey(users[j]) < UserKey(users[i]); }
          else { assert UserKey(users[i]) < UserKey(users[j]); }
        }
      }
      if users[i].reportCount >= BlockThreshold then users[i := Blocked(users[i])] else users
  }

  lemma BlockKeepsKeys(users: seq<User>, userId: int)
    requires Increasing(users, UserKey) && EmailsUnique(users)
    ensures Increasing(Block(users, userId), UserKey) && EmailsUnique(Block(users, userId))
  {
    var r := Block(users, userId);
    assert forall i :: 0 <= i < |users| ==> r[i].id == users[i].id && r[i].userEmail == users[i].userEmail;
  }

  /** Blocking twice leaves the same table as blocking once. */
  lemma BlockIdempotent(users: seq<User>, userId: int)
    requires Increasing(users, UserKey)
    ensures Increasing(Block(users, userId), UserKey)
    ensures Block(Block(users, userId), userId) == Block(users, userId)
  {
    var once := Block(users, userId);
    assert forall i :: 0 <= i < |users| ==> once[i].id == users[i].id;
    assert Increasing(once, UserKey);
    var twice := Block(once, userId);
    forall i | 0 <= i < |users| ensures twice[i] == once[i] {
      if users[i].id == userId && users[i].reportCount >= BlockThreshold {
        assert once[i] == Blocked(users[i]);
        assert twice[i] == Blocked(once[i]);
      }
    }
  }

  /** blockUser: looks the account up by id alone and blocks it at the threshold. */
  method BlockUser(db: Database, userId: int)
    requires db.Valid()
    modifies db`users
    ensures db.Valid()
    ensures db.users == Block(old(db.users), userId)
  {
    var found := FindFirst(db.users, (u: User) => u.id == userId);
    BlockKeepsKeys(db.users, userId);
    if found.Some? {
      var i := found.value;
      if db.users[i].reportCount >= BlockThreshold {
        db.users := db.users[i := Blocked(db.users[i])];
      }
    }
  }

  /** The users table after one report: that account's report count goes up by one. */
  function Increment(users: seq<User>, userId: int): (r: seq<User>)
    requires Increasing(users, UserKey)
    ensures |r| == |users|
    ensures forall i :: 0 <= i < |users| ==>
              r[i] == if users[i].id == userId then users[i].(reportCount := users[i].reportCount + 1) else users[i]
  {
    seq(|users|, i requires 0 <= i < |users| =>
      if users[i].id == userId then users[i].(reportCount := users[i].reportCount + 1) else users[i])
  }

  /**
   * Reporting an account (what the comment and message report paths do): the count goes up by
   * exactly one, and the account is then blocked, with its session cleared, exactly when the new
   * count reaches the threshold.  No other account changes.
   */
  function ReportAuthor(users: seq<User>, userId: int): (r: seq<User>)
    requires Increasing(users, UserKey)
    ensures |r| == |users|
    ensures forall i :: 0 <= i < |users| && users[i].id != userId ==> r[i] == users[i]
    ensures forall i :: 0 <= i < |users| && users[i].id == userId ==>
              r[i].reportCount == users[i].reportCount + 1 && r[i].id == userId
              && (r[i].isBlocked <==> users[i].isBlocked || r[i].reportCount >= BlockThreshold)
  {
    assert forall i :: 0 <= i < |users| ==> Increment(users, userId)[i].id == users[i].id;
    var bumped := Increment(users, userId);
    assert Increasing(bumped, UserKey);
    if exists i :: 0 <= i < |bumped| && bumped[i].id == userId && bumped[i].reportCount >= BlockThreshold
    then Block(bumped, userId) else bumped
  }

  lemma ReportAuthorEffect(users: seq<User>, userId: int, i: int)
    requires Increasing(users, UserKey)
    requires 0 <= i < |users|
    ensures |ReportAuthor(users, userId)| == |users|
    ensures users[i].id != userId ==> ReportAuthor(users, userId)[i] == users[i]
    ensures users[i].id == userId ==>
              var bumped := users[i].(reportCount := users[i].reportCount + 1);
              ReportAuthor(users, userId)[i] ==
                if bumped.reportCount >= BlockThreshold then Blocked(bumped) else bumped
  {
    var bumped := Increment(users, userId);
    assert forall k :: 0 <= k < |users| ==> bumped[k].id == users[k].id;
    assert Increasing(bumped, UserKey);
    if users[i].id == userId {
      if bumped[i].reportCount >= BlockThreshold {
        assert ReportAuthor(users, userId) == Block(bumped, userId);
      } else {
        forall k | 0 <= k < |bumped| && k != i ensures bumped[k].id != userId {
          if k < i { assert UserKey(bumped[k]) < UserKey(bumped[i]); }
          else { assert UserKey(bumped[i]) < UserKey(bumped[k]); }
        }
        assert ReportAuthor(users, userId) == bumped;
      }
    }
  }

  /**
   * What the report update returns: the author's new report count, or the exception the update
   * throws when no row has that id.
   */
  function ReportOutcome(users: seq<User>, userId: int): (r: Result<int>)
    ensures r.Err? <==> forall i :: 0 <= i < |users| ==> users[i].id != userId
    ensures r.Err? ==> r.kind == Plain
    ensures r.Ok? ==>
      exists i :: 0 <= i < |users| && users[i].id == userId && r.value == users[i].reportCount + 1
  {
    match FindUser(users, userId)
    case None => Fail(Plain)
    case Some(i) => Ok(users[i].reportCount + 1)
  }

  /**
   * The update both report paths issue (increment the author's report count by one) followed by
   * blockUser when the returned count reaches the threshold.  An id with no row makes the update
   * throw, and nothing changes.
   */
  method ReportUser(db: Database, userId: int) returns (r: Result<int>)
    requires db.Valid()
    modifies db`users
    ensures db.Valid()
    ensures r == ReportOutcome(old(db.users), userId)
    ensures r.Err? ==> db.users == old(db.users)
    ensures r.Ok? ==> db.users == ReportAuthor(old(db.users), userId)
  {
    var found := FindUser(db.users, userId);
    if found.None? {
      return Fail(Plain);
    }
    var i := found.value;
    var updated := db.users[i].(reportCount := db.users[i].reportCount + 1);
    IncrementAt(db.users, userId, i);
    db.SetUsers(db.users[i := updated]);
    if updated.reportCount >= BlockThreshold {
      BlockUser(db, userId);
    }
    r := Ok(updated.reportCount);
  }

  /**
   * The shared tail of reportComment and reportMessage: report the author, then insert the
   * row, which gets the next report id.
   */
  method StoreReport(db: Database, authorId: int, row: Report) returns (r: Result<Report>)
    requires db.Valid()
    requires row.id == NextId(db.reports, ReportKey)
    modifies db`users, db`reports
    ensures db.Valid()
    ensures var e := ReportThenStore(old(db.users), old(db.reports), db.questions, authorId, row);
      r == e.result && db.users == e.users && db.reports == e.reports
  {
    var reported := ReportUser(db, authorId);
    if reported.Err? {
      return Fail(Plain);
    }
    var reporter := FindUser(db.users, row.reporterId);
    var question := if row.questionId.Some? then FindFirst(db.questions, (q: Question) => q.id == row.questionId.value) else None;
    if reporter.None? || (row.questionId.Some? && question.None?) {
      return Fail(Plain);
    }
    AppendKeepsIncreasing(db.reports, row, ReportKey);
    db.reports := db.reports + [row];
    r := Ok(row);
  }

  /** Reporting the account in row `i`, spelled out as an update of that row. */
  lemma IncrementAt(users: seq<User>, userId: int, i: int)
    requires Increasing(users, UserKey) && EmailsUnique(users)
    requires 0 <= i < |users| && users[i].id == userId
    ensures var bumped := users[i := users[i].(reportCount := users[i].reportCount + 1)];
      && ReportOutcome(users, userId) == Ok(users[i].reportCount + 1)
      && Increasing(bumped, UserKey) && EmailsUnique(bumped)
      && ReportAuthor(users, userId) == if bumped[i].reportCount >= BlockThreshold then Block(bumped, userId) else bumped
  {
    KeyUnique(users, UserKey, i);
    var bumped := Increment(users, userId);
    assert bumped == users[i := users[i].(reportCount := users[i].reportCount + 1)];
    assert forall k :: 0 <= k < |users| ==> bumped[k].id == users[k].id && bumped[k].userEmail == users[k].userEmail;
    assert Increasing(bumped, UserKey);
  }

  lemma ReportAuthorKeepsKeys(users: seq<User>, userId: int)
    requires Increasing(users, UserKey) && EmailsUnique(users)
    ensures Increasing(ReportAuthor(users, userId), UserKey) && EmailsUnique(ReportAuthor(users, userId))
  {
    var r := ReportAuthor(users, userId);
    forall i | 0 <= i < |users| ensures r[i].id == users[i].id && r[i].userEmail == users[i].userEmail {
      ReportAuthorEffect(users, userId, i);
    }
  }

  /** Reporting changes no id, so the same accounts exist before and after. */
  lemma ReportAuthorKeepsAccounts(users: seq<User>, userId: int, id: int)
    requires Increasing(users, UserKey)
    ensures UserExists(ReportAuthor(users, userId), id) <==> UserExists(users, id)
  {
    var r := ReportAuthor(users, userId);
    forall i | 0 <= i < |users| ensures |r| == |users| && r[i].id == users[i].id {
      ReportAuthorEffect(users, userId, i);
    }
    if |users| > 0 {
      ReportAuthorEffect(users, userId, 0);
    }
  }

  /** What a report call leaves behind: its result and the users and reports tables after it. */
  datatype ReportEffect = ReportEffect(result: Result<Report>, users: seq<User>, reports: seq<Report>)

  /**
   * The report row's foreign keys fail: the reporter has no account, or the row names a
   * question that does not exist.
   */
  ghost predicate ReportInsertFails(users: seq<User>, questions: seq<Question>, row: Report) {
    !UserExists(users, row.reporterId) || (row.questionId.Some? && !QuestionExists(questions, row.questionId.value))
  }

  /**
   * The last two steps of both report paths, once their own checks have passed: the author's
   * count is raised (and the account blocked at the threshold), and only then is the report
   * row inserted.  An author with no account makes the update throw and nothing is written; a
   * row whose foreign keys fail makes the insert throw after the raised count is written.
   */
  function ReportThenStore(users: seq<User>, reports: seq<Report>, questions: seq<Question>, authorId: int, row: Report)
    : (e: ReportEffect)
    requires Increasing(users, UserKey)
    ensures !UserExists(users, authorId) ==> e == ReportEffect(Err(Plain, 500), users, reports)
    ensures UserExists(users, authorId) ==> e.users == ReportAuthor(users, authorId)
    ensures e.result.Ok? <==> UserExists(users, authorId) && !ReportInsertFails(users, questions, row)
    ensures e.result.Ok? ==> e.result.value == row && e.reports == reports + [row]
    ensures e.result.Err? ==> e.result == Err(Plain, 500) && e.reports == reports
  {
    match FindUser(users, authorId)
    case None => ReportEffect(Fail(Plain), users, reports)
    case Some(_) =>
      var after := ReportAuthor(users, authorId);
      ReportAuthorKeepsAccounts(users, authorId, row.reporterId);
      if FindUser(after, row.reporterId).None?
         || (row.questionId.Some? && FindFirst(questions, (q: Question) => q.id == row.questionId.value).None?)
      then ReportEffect(Fail(Plain), after, reports)
      else ReportEffect(Ok(row), after, reports + [row])
  }

  /** Once an account is blocked, sign-in with its email fails as if no account existed. */
  lemma BlockedAccountCannotSignIn(users: seq<User>, i: int, password: string, compare: (string, string) -> bool)
    requires EmailsUnique(users)
    requires 0 <= i < |users| && users[i].isBlocked
    ensures SignInWithEmail(users, users[i].userEmail, password, compare) == Err(BadRequest, 404)
  {
    var email := users[i].userEmail;
    forall j | 0 <= j < |users| ensures !(users[j].userEmail == email && Active(users[j])) {
      if j != i {
        if j < i { assert users[j].userEmail != users[i].userEmail; }
        else { assert users[i].userEmail != users[j].userEmail; }
      }
    }
  }
}

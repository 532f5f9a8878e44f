/**
 * Sign-up and the email-availability check.  Sign-up stores the email lower-cased and trimmed,
 * a hash of the password (never the password), an empty refresh token and the requested report
 * count; the availability check compares the email exactly as given.
 */
module AuthService {
  import opened Wrappers
  import opened Http
  import opened Query
  import opened JsString
  import opened Db
  import opened UserService
  import opened CreateUserDto

  datatype StatusMessage = StatusMessage(status: int, message: string)

  const SignUpSucceeded := StatusMessage(201, "회원가입 성공")
  const EmailAvailable := StatusMessage(200, "사용 가능한 이메일입니다.")

  /** The bcrypt cost: SALT_ROUNDS parsed as an integer, "10" when unset or empty. */
  function SaltRounds(config: Option<string>): (r: Option<int>)
    ensures config.None? || config == Some("") ==> r == Some(10)
    ensures config.Some? && config.value != "" ==> r == ParseInt(config.value)
  {
    ParseIntTen();
    ParseInt(if config.None? || config.value == "" then "10" else config.value)
  }

  /**
   * A set SALT_ROUNDS is read as `parseInt` reads it: leading white space, then a run of digits
   * whose value is the cost, whatever follows; a setting with no digit there gives NaN (None).
   */
  lemma SaltRoundsParsed(ws: string, d: string, rest: string)
    requires forall i :: 0 <= i < |ws| ==> IsWhitespace(ws[i])
    requires forall i :: 0 <= i < |d| ==> IsDigit(d[i])
    requires rest == [] || !IsDigit(rest[0])
    requires |d| == 0 && rest != [] ==> !IsWhitespace(rest[0]) && rest[0] != '+' && rest[0] != '-'
    requires ws + (d + rest) != ""
    ensures |d| > 0 ==> SaltRounds(Some(ws + (d + rest))) == Some(DecimalValue(d))
    ensures |d| == 0 ==> SaltRounds(Some(ws + (d + rest))).None?
  {
    assert "" + (d + rest) == d + rest;
    if |d| > 0 {
      ParseIntDigits(ws, "", d, rest);
    } else {
      assert "" + rest == d + rest;
      ParseIntNoDigits(ws, "", rest);
    }
  }

  /**
   * The row sign-up inserts, given the hash of the password.  The form is the one the DTO's
   * decorators describe: a falsy report count has become 0, so `reportedCount || 0` is that integer.
   */
  function NewAccount(users: seq<User>, form: SignUpForm, passwordHash: string): User {
    User(id := NextId(users, UserKey), userEmail := NormalizeEmail(form.userEmail),
         userName := form.userName, birthday := form.userBirth, passwordHash := passwordHash,
         refreshToken := "", isMentor := form.isMentor, mentorCode := form.mentorCode,
         reportCount := form.reportedCount,
         isBlocked := false, isDeleted := false)
  }

  /** Some stored account has exactly this email. */
  ghost predicate EmailTaken(users: seq<User>, email: string) {
    exists i :: 0 <= i < |users| && users[i].userEmail == email
  }

  /** The first account stored with exactly this email, if any. */
  function FindByEmail(users: seq<User>, email: string): (r: Option<nat>)
    ensures r.None? <==> !EmailTaken(users, email)
    ensures r.Some? ==> r.value < |users| && users[r.value].userEmail == email
  {
    FindFirst(users, (u: User) => u.userEmail == email)
  }

  /**
   * signUp: inserts the new account.  `hash` is bcrypt's hash of a password at a cost.  A
   * normalised email that is already stored violates the unique column and nothing is written.
   */
  method SignUp(db: Database, form: SignUpForm, saltConfig: Option<string>,
                hash: (string, Option<int>) -> string) returns (r: Result<StatusMessage>)
    requires db.Valid()
    modifies db`users
    ensures db.Valid()
    ensures r.Err? <==> EmailTaken(old(db.users), NormalizeEmail(form.userEmail))
    ensures r.Err? ==> r.kind == Plain && db.users == old(db.users)
    ensures r.Ok? ==> r.value == SignUpSucceeded
    ensures r.Ok? ==>
      db.users == old(db.users) + [NewAccount(old(db.users), form, hash(form.password, SaltRounds(saltConfig)))]
  {
    var trimEmail := NormalizeEmail(form.userEmail);
    var salt := SaltRounds(saltConfig);
    var hashedPassword := hash(form.password, salt);
    var clash := FindByEmail(db.users, trimEmail);
    if clash.Some? {
      return Fail(Plain);
    }
    var user := NewAccount(db.users, form, hashedPassword);
    AppendAccountKeepsKeys(db.users, user);
    db.SetUsers(db.users + [user]);
    r := Ok(SignUpSucceeded);
  }

  lemma AppendAccountKeepsKeys(users: seq<User>, user: User)
    requires Increasing(users, UserKey) && EmailsUnique(users)
    requires user.id == NextId(users, UserKey) && !EmailTaken(users, user.userEmail)
    ensures Increasing(users + [user], UserKey) && EmailsUnique(users + [user])
  {
    AppendKeepsIncreasing(users, user, UserKey);
    var after := users + [user];
    forall i, j | 0 <= i < j < |after| ensures after[i].userEmail != after[j].userEmail {
      if j == |users| { assert after[i] == users[i]; }
    }
  }

  /** checkEmailUnique: Unauthorized when a stored account has exactly that email, otherwise 200. */
  function CheckEmailUnique(users: seq<User>, email: string): (r: Result<StatusMessage>)
    ensures r.Err? <==> EmailTaken(users, email)
    ensures r.Err? ==> r == Err(Unauthorized, 401)
    ensures r.Ok? ==> r.value == EmailAvailable
  {
    match FindFirst(users, (u: User) => u.userEmail == email)
    case Some(i) => Fail(Unauthorized)
    case None => Ok(EmailAvailable)
  }

  lemma NormalizeEmailIdempotent(email: string)
    ensures NormalizeEmail(NormalizeEmail(email)) == NormalizeEmail(email)
  {
    LowerOfTrimmedLower(email);
    TrimIdempotent(ToLowerCase(email));
  }

  /**
   * After a sign-up, the same email is reported taken (in its normalised form), and the
   * password-reset lookup with the email as typed finds exactly the new account.
   */
  lemma SignUpThenLookups(users: seq<User>, form: SignUpForm, passwordHash: string)
    requires !EmailTaken(users, NormalizeEmail(form.userEmail))
    ensures var after := users + [NewAccount(users, form, passwordHash)];
      && CheckEmailUnique(after, NormalizeEmail(form.userEmail)) == Err(Unauthorized, 401)
      && FindUserForPasswordReset(after, form.userEmail)
           == Ok(PasswordView(NextId(users, UserKey), passwordHash))
  {
    var after := users + [NewAccount(users, form, passwordHash)];
    NormalizeEmailIdempotent(form.userEmail);
    assert after[|users|].userEmail == NormalizeEmail(form.userEmail);
    var r := FindUserForPasswordReset(after, form.userEmail);
    forall i | 0 <= i < |users| ensures after[i].userEmail != NormalizeEmail(form.userEmail) {
      assert after[i] == users[i];
    }
  }
}

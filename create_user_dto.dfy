/**
 * The sign-up form and its validation rules: the email is trimmed before it is checked, the
 * password must match the sign-up password pattern, and an omitted or falsy report count
 * becomes 0.
 */
module CreateUserDto {
  import opened Wrappers
  import Js
  import opened Http
  import opened JsString

  predicate IsAsciiLetter(c: char) {
    ('a' <= c <= 'z') || ('A' <= c <= 'Z')
  }

  predicate IsUpper(c: char) {
    'A' <= c <= 'Z'
  }

  /** The specials the password pattern lists beside letters and digits. */
  predicate IsPasswordSpecial(c: char) {
    c in "!@#$%^&*()_+{}[]:;<>,.?~\\/-"
  }

  /** A character of the pattern's class `[a-zA-Z0-9!@#$%^&*()_+{}\[\]:;<>,.?~\\/-]`. */
  predicate IsPasswordChar(c: char) {
    IsAsciiLetter(c) || IsDigit(c) || IsPasswordSpecial(c)
  }

  /** `^[C]+$` for a character class C given as a predicate: non-empty and every character in C. */
  predicate AllNonEmpty(s: string, inClass: char -> bool) {
    |s| > 0 && forall i :: 0 <= i < |s| ==> inClass(s[i])
  }

  /**
   * The password pattern: three negative lookaheads (not all letters, not all digits, not all
   * non-alphanumerics) in front of 8 to 16 characters of the allowed class.
   */
  predicate PasswordPattern(s: string) {
    && !AllNonEmpty(s, IsAsciiLetter)
    && !AllNonEmpty(s, IsDigit)
    && !AllNonEmpty(s, (c: char) => !IsAsciiLetter(c) && !IsDigit(c))
    && 8 <= |s| <= 16
    && forall i :: 0 <= i < |s| ==> IsPasswordChar(s[i])
  }

  predicate HasLetter(s: string) { exists i :: 0 <= i < |s| && IsAsciiLetter(s[i]) }
  predicate HasDigit(s: string) { exists i :: 0 <= i < |s| && IsDigit(s[i]) }
  predicate HasSpecial(s: string) { exists i :: 0 <= i < |s| && IsPasswordSpecial(s[i]) }

  /** How many of the three character classes occur in `s`. */
  function ClassCount(s: string): nat {
    (if HasLetter(s) then 1 else 0) + (if HasDigit(s) then 1 else 0) + (if HasSpecial(s) then 1 else 0)
  }

  /**
   * What the pattern means: 8 to 16 allowed characters drawn from at least two of the classes
   * letter, digit and special.
   */
  lemma PasswordPatternMeaning(s: string)
    ensures PasswordPattern(s) <==>
      && 8 <= |s| <= 16
      && (forall i :: 0 <= i < |s| ==> IsPasswordChar(s[i]))
      && ClassCount(s) >= 2
  {
    if 8 <= |s| <= 16 && forall i :: 0 <= i < |s| ==> IsPasswordChar(s[i]) {
      ClassesDisjoint(s);
      assert HasLetter(s) || HasDigit(s) || HasSpecial(s) by { assert IsPasswordChar(s[0]); }
    }
  }

  /** The three classes split the allowed characters: a special is neither a letter nor a digit. */
  lemma SpecialIsNotAlnum(c: char)
    ensures IsPasswordChar(c) ==> (IsPasswordSpecial(c) <==> !IsAsciiLetter(c) && !IsDigit(c))
  {
  }

  /** Each lookahead excludes exactly the strings whose characters all come from one class. */
  lemma ClassesDisjoint(s: string)
    requires |s| > 0 && forall i :: 0 <= i < |s| ==> IsPasswordChar(s[i])
    ensures AllNonEmpty(s, IsAsciiLetter) <==> !HasDigit(s) && !HasSpecial(s)
    ensures AllNonEmpty(s, IsDigit) <==> !HasLetter(s) && !HasSpecial(s)
    ensures AllNonEmpty(s, (c: char) => !IsAsciiLetter(c) && !IsDigit(c)) <==> !HasLetter(s) && !HasDigit(s)
  {
    forall i | 0 <= i < |s| ensures IsPasswordSpecial(s[i]) <==> !IsAsciiLetter(s[i]) && !IsDigit(s[i]) {
      SpecialIsNotAlnum(s[i]);
    }
  }

  /** The pattern implies the separate minimum-length rule, so that rule never fires alone. */
  lemma PasswordPatternImpliesMinLength(s: string)
    requires PasswordPattern(s)
    ensures |s| >= 8 && s != ""
  {
  }

  /**
   * The mentor-code pattern as written: the `{6}` repeats a zero-width lookahead group, so no
   * character is consumed before `$`, and only the empty string can match.
   */
  predicate MentorCodePatternAsWritten(s: string) {
    && !AllNonEmpty(s, IsUpper)
    && !AllNonEmpty(s, IsDigit)
    && !AllNonEmpty(s, (c: char) => !IsUpper(c) && !IsDigit(c))
    && |s| == 0
  }

  lemma MentorCodePatternAsWrittenOnlyEmpty(s: string)
    ensures MentorCodePatternAsWritten(s) <==> s == ""
  {
  }

  /** The documented example code is rejected by the pattern as written. */
  lemma MentorCodeExampleRejected()
    ensures !MentorCodePatternAsWritten("H23L4J")
  {
  }

  /**
   * The mentor-code rule its message describes: six characters, each an upper-case letter or a
   * digit, mixing both.
   */
  predicate MentorCodePattern(s: string) {
    && !AllNonEmpty(s, IsUpper)
    && !AllNonEmpty(s, IsDigit)
    && |s| == 6
    && forall i :: 0 <= i < |s| ==> IsUpper(s[i]) || IsDigit(s[i])
  }

  lemma MentorCodePatternMeaning(s: string)
    ensures MentorCodePattern(s) <==>
      && |s| == 6
      && (forall i :: 0 <= i < |s| ==> IsUpper(s[i]) || IsDigit(s[i]))
      && (exists i :: 0 <= i < |s| && IsUpper(s[i]))
      && (exists i :: 0 <= i < |s| && IsDigit(s[i]))
  {
    if |s| == 6 && forall i :: 0 <= i < |s| ==> IsUpper(s[i]) || IsDigit(s[i]) {
      assert AllNonEmpty(s, IsUpper) <==> !exists i :: 0 <= i < |s| && IsDigit(s[i]);
      assert AllNonEmpty(s, IsDigit) <==> !exists i :: 0 <= i < |s| && IsUpper(s[i]);
    }
  }

  lemma MentorCodeExampleAccepted()
    ensures MentorCodePattern("H23L4J")
  {
    assert IsUpper("H23L4J"[0]) && IsDigit("H23L4J"[1]);
  }

  /**
   * `value || 0`, the transform on the report count: any falsy value (absent, null, false, 0,
   * NaN, '') becomes 0, and a truthy value is kept as it is.
   */
  function ReportedCountOrZero(value: Js.Value): (r: Js.Value)
    ensures !Js.Truthy(value) ==> r == Js.Num(0.0)
    ensures Js.Truthy(value) ==> r == value
  {
    Js.Or(value, Js.Num(0.0))
  }

  /** `@IsInt()`: a number with no fractional part (not a numeric string, not NaN). */
  predicate IsIntValue(v: Js.Value) {
    v.Num? && v.n == v.n.Floor as real
  }

  /**
   * The mentor code's three rules: `@IsOptional` skips the other two for null and undefined;
   * otherwise `@IsString` and `@Matches`, as written, must both hold.
   */
  predicate MentorCodeValid(v: Js.Value) {
    v.Undefined? || v.Null? || (v.Str? && MentorCodePatternAsWritten(v.s))
  }

  /** The same rules with the pattern its message describes. */
  predicate MentorCodeValidIntended(v: Js.Value) {
    v.Undefined? || v.Null? || (v.Str? && MentorCodePattern(v.s))
  }

  /** The stored mentor code: null and undefined are no code. */
  function MentorCodeOf(v: Js.Value): Option<string> {
    if v.Str? then Some(v.s) else None
  }

  /** The sign-up request as the client sends it; the last two fields are any JSON value. */
  datatype SignUpRequest = SignUpRequest(
    userEmail: string, passwordHash: string, userName: string, userBirth: string,
    isMentor: bool, mentorCode: Js.Value, reportedCount: Js.Value)

  /** The sign-up form as the DTO's transformation and validation rules would leave it. */
  datatype SignUpForm = SignUpForm(
    userEmail: string, password: string, userName: string, userBirth: string,
    isMentor: bool, mentorCode: Option<string>, reportedCount: int)

  /** The rules on the fields other than the mentor code. */
  predicate OtherFieldsValid(req: SignUpRequest, isEmail: string -> bool, isDate: string -> bool) {
    && isEmail(Trim(req.userEmail)) && Trim(req.userEmail) != ""
    && req.passwordHash != "" && |req.passwordHash| >= 8 && PasswordPattern(req.passwordHash)
    && req.userName != "" && isDate(req.userBirth)
    && IsIntValue(ReportedCountOrZero(req.reportedCount))
  }

  /** The form a request that passes these rules becomes. */
  function FormOf(req: SignUpRequest): SignUpForm {
    var count := ReportedCountOrZero(req.reportedCount);
    SignUpForm(Trim(req.userEmail), req.passwordHash, req.userName, req.userBirth, req.isMentor,
               MentorCodeOf(req.mentorCode), if count.Num? then count.n.Floor else 0)
  }

  /**
   * Transform then validate, with the mentor-code pattern as written.  `isEmail` and `isDate`
   * are the library's email-shape and date checks.
   */
  function ValidateSignUp(req: SignUpRequest, isEmail: string -> bool, isDate: string -> bool): (r: Result<SignUpForm>)
    ensures r.Ok? <==>
      && isEmail(Trim(req.userEmail)) && Trim(req.userEmail) != ""
      && PasswordPattern(req.passwordHash)
      && req.userName != "" && isDate(req.userBirth)
      && (req.mentorCode.Undefined? || req.mentorCode.Null? || req.mentorCode == Js.Str(""))
      && IsIntValue(ReportedCountOrZero(req.reportedCount))
    ensures r.Err? ==> r == Err(BadRequest, 400)
    ensures r.Ok? ==> r.value.userEmail == Trim(req.userEmail) && r.value.password == req.passwordHash
    ensures r.Ok? ==> r.value.mentorCode == MentorCodeOf(req.mentorCode)
    ensures r.Ok? ==> r.value.reportedCount as real == ReportedCountOrZero(req.reportedCount).n
    ensures r.Ok? && !Js.Truthy(req.reportedCount) ==> r.value.reportedCount == 0
  {
    if !OtherFieldsValid(req, isEmail, isDate) || !MentorCodeValid(req.mentorCode) then Fail(BadRequest)
    else
      assert req.mentorCode.Str? ==> MentorCodePatternAsWritten(req.mentorCode.s);
      MentorCodePatternAsWrittenOnlyEmpty(if req.mentorCode.Str? then req.mentorCode.s else "");
      Ok(FormOf(req))
  }

  /**
   * The same validation with the mentor-code pattern its message describes: a six-character
   * code mixing upper-case letters and digits is accepted, the empty code is not.
   */
  function ValidateSignUpIntended(req: SignUpRequest, isEmail: string -> bool, isDate: string -> bool): (r: Result<SignUpForm>)
    ensures r.Ok? <==> OtherFieldsValid(req, isEmail, isDate) && MentorCodeValidIntended(req.mentorCode)
    ensures r.Err? ==> r == Err(BadRequest, 400)
    ensures r.Ok? ==> r.value == FormOf(req)
  {
    if !OtherFieldsValid(req, isEmail, isDate) || !MentorCodeValidIntended(req.mentorCode) then Fail(BadRequest)
    else Ok(FormOf(req))
  }

  /**
   * The two validators differ exactly on the mentor code: the documented example passes only
   * the intended one, and the empty code passes only the one as written.
   */
  lemma MentorCodeDecides(req: SignUpRequest, isEmail: string -> bool, isDate: string -> bool)
    requires OtherFieldsValid(req, isEmail, isDate)
    ensures req.mentorCode == Js.Str("H23L4J") ==>
      ValidateSignUp(req, isEmail, isDate).Err? && ValidateSignUpIntended(req, isEmail, isDate).Ok?
    ensures req.mentorCode == Js.Str("") ==>
      ValidateSignUp(req, isEmail, isDate).Ok? && ValidateSignUpIntended(req, isEmail, isDate).Err?
  {
    MentorCodeExampleRejected();
    MentorCodeExampleAccepted();
  }
}

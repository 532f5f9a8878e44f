/** The sign-in form: a non-empty, email-shaped address (not trimmed) and a pattern-valid password. */
module SignInDto {
  import opened Http
  import opened CreateUserDto

  datatype SignInForm = SignInForm(userEmail: string, password: string)

  /** Validate the form as sent; `isEmail` is the library's email-shape check. */
  function ValidateSignIn(req: SignInForm, isEmail: string -> bool): (r: Result<SignInForm>)
    ensures r.Ok? <==> isEmail(req.userEmail) && req.userEmail != "" && PasswordPattern(req.password)
    ensures r.Err? ==> r.kind == BadRequest
    ensures r.Ok? ==> r.value == req
  {
    if !isEmail(req.userEmail) || req.userEmail == "" || req.password == "" || !PasswordPattern(req.password)
    then Fail(BadRequest)
    else Ok(req)
  }

  /** An empty password never passes sign-in validation. */
  lemma EmptyPasswordRejected(email: string, isEmail: string -> bool)
    ensures ValidateSignIn(SignInForm(email, ""), isEmail) == Err(BadRequest, 400)
  {
  }
}

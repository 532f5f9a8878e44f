/** The JWT guard's final decision on what the strategy produced. */
module JwtAuthGuard {
  import opened Js

  const UserNotFoundMessage := "사용자를 찾을 수 없습니다."

  /** What the guard throws: the strategy's own error, or a 401 with a fixed body. */
  datatype Thrown =
    | Rethrown(err: Value)
    | UnauthorizedError(message: seq<string>, error: string, statusCode: int)

  datatype GuardOutcome = Pass(user: Value) | Throw(thrown: Thrown)

  /**
   * handleRequest: a truthy `err` is rethrown even when there is a user; with no error and no
   * user a 401 is thrown; otherwise the user goes through unchanged.
   */
  function HandleRequest(err: Value, user: Value): (r: GuardOutcome)
    ensures Truthy(err) ==> r == Throw(Rethrown(err))
    ensures !Truthy(err) && !Truthy(user) ==>
      r == Throw(UnauthorizedError([UserNotFoundMessage], "Unauthorized", 401))
    ensures r.Pass? ==> r.user == user
  {
    if Truthy(err) || !Truthy(user) then
      Throw(if Truthy(err) then Rethrown(err) else UnauthorizedError([UserNotFoundMessage], "Unauthorized", 401))
    else Pass(user)
  }

  /** The guard lets a request through exactly when there is no error and a truthy user. */
  lemma PassExactly(err: Value, user: Value)
    ensures HandleRequest(err, user).Pass? <==> !Truthy(err) && Truthy(user)
    ensures HandleRequest(err, user).Pass? ==> Truthy(HandleRequest(err, user).user)
  {
  }
}

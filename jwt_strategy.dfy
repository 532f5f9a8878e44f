/**
 * The passport JWT strategy: construction needs a secret, and only access tokens authenticate.
 * Signature checking and expiry are done by the JWT library and are not part of this model.
 */
module JwtStrategy {
  import opened Wrappers
  import opened Http
  import opened Js

  /** The options the strategy is constructed with. */
  datatype StrategyConfig = StrategyConfig(secretOrKey: string)

  /** The constructor: an unset or empty JWT_SECRET throws a plain error. */
  function Construct(jwtSecret: Option<string>): (r: Result<StrategyConfig>)
    ensures r.Err? <==> jwtSecret.None? || jwtSecret.value == ""
    ensures r.Err? ==> r.kind == Plain
    ensures r.Ok? ==> r.value.secretOrKey == jwtSecret.value && r.value.secretOrKey != ""
  {
    match jwtSecret
    case None => Fail(Plain)
    case Some(s) => if s == "" then Fail(Plain) else Ok(StrategyConfig(s))
  }

  /** A verified token's claims. */
  type Payload = map<string, Value>

  function Claim(payload: Payload, name: string): Value {
    if name in payload then payload[name] else Undefined
  }

  /** The user attached to an authenticated request. */
  datatype AuthUser = AuthUser(id: Value, username: Value, email: Value)

  /**
   * validate: a payload whose `type` is not exactly the string 'access' is Unauthorized; an access
   * token yields its `sub`, `username` and `email` claims.
   */
  function Validate(payload: Payload): (r: Result<AuthUser>)
    ensures r.Ok? <==> Claim(payload, "type") == Str("access")
    ensures r.Err? ==> r == Err(Unauthorized, 401)
    ensures r.Ok? ==>
      && r.value.id == Claim(payload, "sub")
      && r.value.username == Claim(payload, "username")
      && r.value.email == Claim(payload, "email")
  {
    if Claim(payload, "type") != Str("access") then Fail(Unauthorized)
    else Ok(AuthUser(Claim(payload, "sub"), Claim(payload, "username"), Claim(payload, "email")))
  }

  /**
   * Only four claims are read: payloads that agree on `type`, `sub`, `username` and `email`
   * validate alike, whatever other claims they carry.
   */
  lemma ValidateReadsFourClaims(p: Payload, q: Payload)
    requires forall name :: name in ["type", "sub", "username", "email"] ==> Claim(p, name) == Claim(q, name)
    ensures Validate(p) == Validate(q)
  {
    assert "type" in ["type", "sub", "username", "email"];
    assert "sub" in ["type", "sub", "username", "email"];
    assert "username" in ["type", "sub", "username", "email"];
    assert "email" in ["type", "sub", "username", "email"];
  }
}

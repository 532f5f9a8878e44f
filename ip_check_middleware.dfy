/** The IP allowlist middleware. */
module IpCheckMiddleware {
  import opened Wrappers
  import opened JsString

  const IpDeniedMessage := "허용되지 않은 IP에서의 접근입니다. 관리자에게 문의해주세요."

  /** The parts of a request the middleware reads. */
  datatype Request = Request(ip: Option<string>, remoteAddress: Option<string>, url: string)

  datatype ForbiddenBody = ForbiddenBody(message: seq<string>, error: string, statusCode: int, path: string)

  /** Either `next()` is called, or a response with that status and body is sent. */
  datatype Decision = Next | Reject(status: int, body: ForbiddenBody)

  /** `req.ip || req.connection.remoteAddress`: an empty `ip` falls through as well. */
  function ClientIp(req: Request): (r: Option<string>)
    ensures req.ip.Some? && req.ip.value != "" ==> r == req.ip
    ensures (req.ip.None? || req.ip.value == "") ==> r == req.remoteAddress
  {
    if req.ip.Some? && req.ip.value != "" then req.ip else req.remoteAddress
  }

  /** `ALLOWD_IPS?.split(',') || []`: unset gives no list; any setting, even empty, gives at least one entry. */
  function AllowedIps(env: Option<string>): (r: seq<string>)
    ensures env.None? <==> |r| == 0
    ensures env == Some("") ==> r == [""]
  {
    match env
    case None => []
    case Some(s) => Split(s, ",")
  }

  function Forbidden(req: Request): ForbiddenBody {
    ForbiddenBody([IpDeniedMessage], "Forbidden", 403, req.url)
  }

  /**
   * use: no client address is refused; a non-empty allowlist refuses an address that is not
   * exactly one of its entries; everything else goes on.
   */
  function Use(req: Request, env: Option<string>): (d: Decision)
    ensures d.Reject? ==> d == Reject(403, ForbiddenBody([IpDeniedMessage], "Forbidden", 403, req.url))
    ensures d.Next? <==>
      var ip := ClientIp(req);
      ip.Some? && ip.value != "" && (|AllowedIps(env)| == 0 || ip.value in AllowedIps(env))
  {
    var ip := ClientIp(req);
    if ip.None? || ip.value == "" then Reject(403, Forbidden(req))
    else
      var allowed := AllowedIps(env);
      if |allowed| > 0 && ip.value !in allowed then Reject(403, Forbidden(req))
      else Next
  }

  /** With ALLOWD_IPS unset, every request that has an address passes. */
  lemma UnsetAllowsEveryAddress(req: Request)
    requires ClientIp(req).Some? && ClientIp(req).value != ""
    ensures Use(req, None) == Next
  {
  }

  /** ALLOWD_IPS set to the empty string lists only `''`, so every request is refused. */
  lemma EmptySettingRefusesEveryone(req: Request)
    ensures Use(req, Some("")).Reject?
  {
  }
}

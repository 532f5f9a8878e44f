/** The global HTTP exception filter: every HttpException becomes one uniform error body. */
module HttpExceptionFilter {
  import opened Http
  import opened JsString
  import opened Js

  const BadRequestText := "잘못된 요청입니다. 입력 정보를 확인해주세요."
  const UnauthorizedText := "인증되지 않은 요청입니다. 로그인 후 다시 시도해주세요."
  const IpDeniedText := "허용되지 않은 IP에서의 접근입니다. 관리자에게 문의해주세요."
  const ForbiddenText := "접근이 제한되었습니다. 관리자에게 문의해주세요."
  const NotFoundText := "요청하진 페이지를 찾을 수 없습니다."
  const ServerErrorText := "서버 오류가 발생했습니다. 잠시 후 다시 시도해주세요."
  const UnknownText := "알 수 없는 오류가 발생했습니다. 잠시 후 다시 시도해주세요."

  /** An HttpException: its status, its response (string or object) and its message. */
  datatype HttpException = HttpException(status: int, response: Value, message: string)

  /** The JSON body sent back. */
  datatype ErrorBody = ErrorBody(message: Value, error: Value, statusCode: int, path: string)

  predicate KnownStatus(status: int) {
    status == 400 || status == 401 || status == 403 || status == 404 || status == 500
  }

  /** getErrorType: the five known statuses have names, anything else is 'UnknownError'. */
  function GetErrorType(status: int): (r: string)
    ensures r == "UnknownError" <==> !KnownStatus(status)
    ensures status == 403 ==> r == "Forbidden"
  {
    match status
    case 400 => "BadRequest"
    case 401 => "Unauthorized"
    case 403 => "Forbidden"
    case 404 => "NotFound"
    case 500 => "InternalServerError"
    case _ => "UnknownError"
  }

  /** Every exception kind this model throws maps to a named error type. */
  lemma EveryKindNamed(k: Kind)
    ensures GetErrorType(Status(k)) != "UnknownError"
  {
  }

  /**
   * getMessage: always one message.  A 403 reads as the IP text exactly when the exception
   * message mentions 'IP' or 'Forbidden'.
   */
  function GetMessage(status: int, message: string): (r: seq<string>)
    ensures |r| == 1
    ensures status == 403 ==> (r[0] == IpDeniedText <==> Contains(message, "IP") || Contains(message, "Forbidden"))
    ensures !KnownStatus(status) ==> r == [UnknownText]
  {
    match status
    case 400 => [BadRequestText]
    case 401 => [UnauthorizedText]
    case 403 =>
      if Contains(message, "IP") || Contains(message, "Forbidden") then [IpDeniedText] else [ForbiddenText]
    case 404 => [NotFoundText]
    case 500 => [ServerErrorText]
    case _ => [UnknownText]
  }

  function Strs(texts: seq<string>): (r: seq<Value>)
    ensures |r| == |texts| && forall k :: 0 <= k < |r| ==> r[k] == Str(texts[k])
  {
    seq(|texts|, k requires 0 <= k < |texts| => Str(texts[k]))
  }

  /**
   * catch: the body always carries the exception's status and the request url.  An object
   * response supplies message and error (falling back to the exception message and 'Error'); any
   * other response takes both from the status tables.
   */
  function Catch(exception: HttpException, url: string): (b: ErrorBody)
    ensures b.statusCode == exception.status && b.path == url
    ensures exception.response.Obj? || exception.response.Arr? ==>
      && b.message == (if Truthy(Get(exception.response, "message")) then Get(exception.response, "message")
                       else Str(exception.message))
      && b.error == (if Truthy(Get(exception.response, "error")) then Get(exception.response, "error")
                     else Str("Error"))
    ensures !(exception.response.Obj? || exception.response.Arr?) ==>
      && b.message == Arr(Strs(GetMessage(exception.status, exception.message)))
      && b.error == Str(GetErrorType(exception.status))
  {
    var response := exception.response;
    if TypeofObject(response) && response != Null then
      ErrorBody(Or(Get(response, "message"), Str(exception.message)), Or(Get(response, "error"), Str("Error")),
                exception.status, url)
    else
      ErrorBody(Arr(Strs(GetMessage(exception.status, exception.message))), Str(GetErrorType(exception.status)),
                exception.status, url)
  }

  /** A bare ForbiddenException (message 'Forbidden') is reported with the IP text. */
  lemma BareForbiddenReadsAsIpDenied()
    ensures GetMessage(403, "Forbidden") == [IpDeniedText]
  {
    assert OccursAt("Forbidden", "Forbidden", 0);
  }

  /** A string response never leaks its own text: the body's message comes from the table. */
  lemma StringResponseUsesTable(status: int, text: string, message: string, url: string)
    ensures Catch(HttpException(status, Str(text), message), url).message
         == Arr(Strs(GetMessage(status, message)))
  {
  }
}

/** The success envelope every handler's result is mapped into. */
module ResponseInterceptor {
  import opened Js

  const SuccessMessage := "요청이 성공적으로 처리되었습니다."

  /** Already in the standard shape: a truthy object with a `statusCode` key. */
  predicate IsEnvelope(v: Value) {
    Truthy(v) && TypeofObject(v) && HasKey(v, "statusCode")
  }

  /**
   * The mapping inside intercept: an envelope goes through unchanged, anything else is wrapped
   * with the success message, status 200 and the original value as `data`.
   */
  function MapResponse(data: Value): (r: Value)
    ensures IsEnvelope(r)
    ensures IsEnvelope(data) ==> r == data
    ensures !IsEnvelope(data) ==>
      && Get(r, "data") == data
      && Get(r, "statusCode") == Num(200.0)
      && Get(r, "message") == Str(SuccessMessage)
      && r.fields.Keys == {"message", "statusCode", "data"}
  {
    if IsEnvelope(data) then data
    else Obj(map["message" := Str(SuccessMessage), "statusCode" := Num(200.0), "data" := data])
  }

  /** Mapping twice is mapping once. */
  lemma MapResponseIdempotent(data: Value)
    ensures MapResponse(MapResponse(data)) == MapResponse(data)
  {
  }
}

/**
 * The boundary between the HTTP layer and the decision logic: how query
 * parameters arrive, how a limit is coerced and checked, and what a handler
 * can answer.
 */
module Api {
  import opened Wrappers

  /** A query parameter as the validators see it (TypeScript `unknown`). */
  datatype Param = Absent | Str(s: string) | NonString

  /** The value of `Number(...)` applied to a limit, restricted to integers. */
  datatype Number = NaN | Int(value: int)

  /**
   * What a route handler produces: a JSON body, a 400 response carrying a
   * reason, a failure propagated from loading the past answers, or no
   * response at all (a request whose random loop is still running).
   */
  datatype Response<+T> =
    | Ok(body: T)
    | BadRequest(error: string)
    | Failed(reason: string)
    | NoResponse

  const PositiveLimitMessage := "Limit must be a positive number"

  /**
   * `Number(limit ?? dflt)` followed by the `isNaN(limit) || limit < 1`
   * check that both guess routes share.
   */
  function CheckLimit(raw: Option<Number>, dflt: int): (r: Result<int, string>)
    requires dflt >= 1
    ensures r.Success? <==> raw.None? || (raw.value.Int? && raw.value.value >= 1)
    ensures r.Success? ==> r.value >= 1
    ensures raw.None? ==> r == Success(dflt)
    ensures raw.Some? && raw.value.Int? && r.Success? ==> r.value == raw.value.value
    ensures r.Failure? ==> r.error == PositiveLimitMessage
  {
    var limit := if raw.None? then Int(dflt) else raw.value;
    if limit.NaN? || limit.value < 1 then Failure(PositiveLimitMessage)
    else Success(limit.value)
  }
}

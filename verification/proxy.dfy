/**
 * The PHP proxy (translate.php): it validates the web client's request, calls
 * the translation API with cURL and the fixed Basic credentials, and answers
 * with a `{success, …}` array (here a JSON object). Each operation is a
 * function from the request and the outcome of the cURL call to the call made
 * (if any) and the answer. The request duration is a parameter.
 */
module Proxy {
  import opened Wrappers
  import opened Json
  import opened Api
  import Text

  /**
   * What a cURL call gives back: `curl_error` ("" when none), the HTTP code, and
   * `json_decode` of the body (`JNull` when the body is not JSON).
   */
  datatype CurlOutcome = Curl(error: string, httpCode: int, decoded: Json)

  function Failure(error: Json): (r: Json)
    ensures PhpIndex(r, "success") == JBool(false) && PhpIndex(r, "error") == error
  {
    JObj(map["success" := JBool(false), "error" := error])
  }

  /** `makeRequest`'s answer to a 2xx status. */
  function Success(data: Json, httpCode: int): (r: Json)
    ensures PhpIndex(r, "success") == JBool(true)
    ensures PhpIndex(r, "data") == data && PhpIndex(r, "httpCode") == JNum(httpCode)
  {
    JObj(map["success" := JBool(true), "data" := data, "httpCode" := JNum(httpCode)])
  }

  /** `makeRequest`'s answer to any other status. */
  function HttpFailure(error: Json, httpCode: int): (r: Json)
    ensures PhpIndex(r, "success") == JBool(false)
    ensures PhpIndex(r, "error") == error && PhpIndex(r, "httpCode") == JNum(httpCode)
  {
    JObj(map["success" := JBool(false), "error" := error, "httpCode" := JNum(httpCode)])
  }

  /** `checkHealth`'s answer. */
  function HealthAnswer(online: bool, message: Json): (r: Json)
    ensures PhpIndex(r, "success") == JBool(online)
    ensures PhpIndex(r, "status") == JStr(if online then "online" else "offline")
    ensures PhpIndex(r, "message") == message
  {
    JObj(map["success" := JBool(online), "status" := JStr(if online then "online" else "offline"), "message" := message])
  }

  /** The answer succeeded: its `success` member is `true`. */
  predicate Succeeded(answer: Json) {
    PhpIndex(answer, "success") == JBool(true)
  }

  /** The error text of an answer. */
  function ErrorOf(answer: Json): Json {
    PhpIndex(answer, "error")
  }

  /**
   * `makeRequest($url, $method, $data)`: a cURL error wins whatever the status;
   * a 2xx status passes the decoded body on with its code; any other status
   * passes on the body's `error`, or "Unknown error occurred".
   */
  function MakeRequest(url: string, httpMethod: string, data: Option<Json>, outcome: CurlOutcome): (r: (ApiCall, Json))
    ensures r.0 == ApiCall(url, httpMethod, Some(AuthHeader()), if httpMethod == "POST" then data else None)
    ensures PhpTruthy(outcome.error) ==> r.1 == Failure(JStr("Connection error: " + outcome.error))
    ensures Succeeded(r.1) <==> !PhpTruthy(outcome.error) && 200 <= outcome.httpCode < 300
    ensures Succeeded(r.1) ==> PhpIndex(r.1, "data") == outcome.decoded && PhpIndex(r.1, "httpCode") == JNum(outcome.httpCode)
    ensures !PhpTruthy(outcome.error) && !Succeeded(r.1) ==>
      ErrorOf(r.1) == PhpCoalesce(outcome.decoded, "error", JStr("Unknown error occurred"))
      && PhpIndex(r.1, "httpCode") == JNum(outcome.httpCode)
  {
    var call := ApiCall(url, httpMethod, Some(AuthHeader()), if httpMethod == "POST" then data else None);
    if PhpTruthy(outcome.error) then
      (call, Failure(JStr("Connection error: " + outcome.error)))
    else if 200 <= outcome.httpCode < 300 then
      (call, Success(outcome.decoded, outcome.httpCode))
    else
      (call, HttpFailure(PhpCoalesce(outcome.decoded, "error", JStr("Unknown error occurred")), outcome.httpCode))
  }

  /** A value `trim` accepts: anything but an array. */
  predicate IsScalar(v: Json) {
    !v.JArr? && !v.JObj?
  }

  /** PHP's string conversion of a scalar, as `trim` applies it. */
  function PhpString(v: Json): string
    requires IsScalar(v)
  {
    match v
    case JNull => ""
    case JBool(b) => if b then "1" else ""
    case JNum(n) => Text.IntToString(n)
    case JStr(s) => s
  }

  const TextRequired: string := "Text is required"
  const TooLong: string := "Text is too long (maximum 5000 characters)"
  const MaxBytes: nat := 5000

  /**
   * The checks of `handleTranslation()`: POST only; `text` set and not `empty`
   * once trimmed (so "0" is refused); at most 5000 bytes (`strlen`) once trimmed.
   */
  function CheckRequest(requestMethod: string, input: Json): (r: Result<string, string>)
    requires IsScalar(PhpIndex(input, "text"))
    ensures r.Ok? <==> (requestMethod == "POST" && PhpIndex(input, "text") != JNull
      && PhpTruthy(Text.Trim(Text.Php, PhpString(PhpIndex(input, "text"))))
      && Text.Utf8Length(Text.Trim(Text.Php, PhpString(PhpIndex(input, "text")))) <= MaxBytes)
    ensures r.Ok? ==> r.value == Text.Trim(Text.Php, PhpString(PhpIndex(input, "text")))
    ensures requestMethod != "POST" ==> r == Err("Invalid request method")
    ensures (requestMethod == "POST" && (PhpIndex(input, "text") == JNull
             || !PhpTruthy(Text.Trim(Text.Php, PhpString(PhpIndex(input, "text"))))))
        ==> r == Err(TextRequired)
    ensures (requestMethod == "POST" && PhpIndex(input, "text") != JNull
             && PhpTruthy(Text.Trim(Text.Php, PhpString(PhpIndex(input, "text"))))
             && Text.Utf8Length(Text.Trim(Text.Php, PhpString(PhpIndex(input, "text")))) > MaxBytes)
        ==> r == Err(TooLong)
  {
    var text := PhpIndex(input, "text");
    if requestMethod != "POST" then Err("Invalid request method")
    else if text == JNull || !PhpTruthy(Text.Trim(Text.Php, PhpString(text))) then Err(TextRequired)
    else
      var trimmed := Text.Trim(Text.Php, PhpString(text));
      if Text.Utf8Length(trimmed) > MaxBytes then Err(TooLong) else Ok(trimmed)
  }

  /** The answer to a successful call: the five fields of the API's answer, and the duration. */
  function SuccessAnswer(result: Json, duration: int): Json {
    var data := PhpIndex(result, "data");
    JObj(map["success" := JBool(true), "data" := JObj(map[
      "originalText" := PhpIndex(data, "originalText"),
      "translatedText" := PhpIndex(data, "translatedText"),
      "sourceLanguage" := PhpIndex(data, "sourceLanguage"),
      "targetLanguage" := PhpIndex(data, "targetLanguage"),
      "timestamp" := PhpIndex(data, "timestamp"),
      "processingTime" := JNum(duration)])])
  }

  /**
   * `handleTranslation()`: a refused request is answered without a call; an
   * accepted one POSTs `{text: trimmed}`, and the answer is the success shape or
   * `makeRequest`'s failure unchanged.
   */
  function HandleTranslation(requestMethod: string, input: Json, outcome: CurlOutcome, duration: int): (r: (Option<ApiCall>, Json))
    requires IsScalar(PhpIndex(input, "text"))
    ensures r.0.None? <==> CheckRequest(requestMethod, input).Err?
    ensures CheckRequest(requestMethod, input).Err? ==> r.1 == Failure(JStr(CheckRequest(requestMethod, input).error))
    ensures CheckRequest(requestMethod, input).Ok? ==>
      var made := MakeRequest(TranslateEndpoint, "POST", Some(Obj1("text", JStr(CheckRequest(requestMethod, input).value))), outcome);
      && r.0 == Some(made.0)
      && (Succeeded(made.1) ==> r.1 == SuccessAnswer(made.1, duration))
      && (!Succeeded(made.1) ==> r.1 == made.1)
  {
    match CheckRequest(requestMethod, input)
    case Err(e) => (None, Failure(JStr(e)))
    case Ok(text) =>
      var (call, result) := MakeRequest(TranslateEndpoint, "POST", Some(Obj1("text", JStr(text))), outcome);
      if Succeeded(result) then (Some(call), SuccessAnswer(result, duration)) else (Some(call), result)
  }

  /** `checkHealth()`: online, with the API's `status` or "Service is running"; otherwise offline. */
  function CheckHealth(outcome: CurlOutcome): (r: (ApiCall, Json))
    ensures r.0 == ApiCall(HealthEndpoint, "GET", Some(AuthHeader()), None)
    ensures PhpIndex(r.1, "status") == JStr(if Succeeded(MakeRequest(HealthEndpoint, "GET", None, outcome).1) then "online" else "offline")
    ensures Succeeded(r.1) <==> !PhpTruthy(outcome.error) && 200 <= outcome.httpCode < 300
    ensures Succeeded(r.1) ==> PhpIndex(r.1, "message") == PhpCoalesce(outcome.decoded, "status", JStr("Service is running"))
    ensures !Succeeded(r.1) ==> PhpIndex(r.1, "message") == JStr("Service is unavailable")
  {
    var (call, result) := MakeRequest(HealthEndpoint, "GET", None, outcome);
    if Succeeded(result) then
      (call, HealthAnswer(true, PhpCoalesce(PhpIndex(result, "data"), "status", JStr("Service is running"))))
    else
      (call, HealthAnswer(false, JStr("Service is unavailable")))
  }

  /** The `action` the router acts on: the query parameter, "translate" when absent. */
  function ActionOf(action: Option<string>): string {
    action.GetOr("translate")
  }

  /**
   * The router: `translate` and `health` go to their handlers; any other action
   * is answered "Invalid action" without a call.
   */
  function Route(action: Option<string>, requestMethod: string, input: Json, translate: CurlOutcome, health: CurlOutcome, duration: int): (r: (Option<ApiCall>, Json))
    requires ActionOf(action) == "translate" ==> IsScalar(PhpIndex(input, "text"))
    ensures ActionOf(action) == "translate" ==> r == HandleTranslation(requestMethod, input, translate, duration)
    ensures ActionOf(action) == "health" ==> r == (Some(CheckHealth(health).0), CheckHealth(health).1)
    ensures ActionOf(action) !in {"translate", "health"} ==> r == (None, Failure(JStr("Invalid action")))
  {
    match ActionOf(action)
    case "translate" => HandleTranslation(requestMethod, input, translate, duration)
    case "health" =>
      var (call, answer) := CheckHealth(health);
      (Some(call), answer)
    case _ => (None, Failure(JStr("Invalid action")))
  }
}

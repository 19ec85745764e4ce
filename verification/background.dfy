/**
 * The extension's background worker (background.js): it answers the side
 * panel's messages by calling the translation API with the fixed Basic
 * credentials, and turns every outcome into a `{success, …}` object. Each
 * operation is a function from the message and the outcome of its `fetch` to
 * the request it sent (if any) and the object it answers with.
 */
module Background {
  import opened Wrappers
  import opened Json
  import opened Api
  import Text

  /** The body of a response: parsed JSON, or the message of the `SyntaxError` that `response.json()` rejects with. */
  datatype Body = Parsed(value: Json) | Unparsable(syntaxError: string)

  /** How a `fetch` ended: it rejected with an error message, or a response arrived. */
  datatype FetchOutcome = FetchThrew(message: string) | Response(status: int, body: Body)

  /** `response.ok`. */
  predicate OkStatus(status: int) {
    200 <= status <= 299
  }

  datatype TranslateResult =
    | TranslateOk(originalText: JsVal, translatedText: JsVal, sourceLanguage: JsVal, targetLanguage: JsVal, processingTime: int)
    | TranslateErr(error: string)

  const TextRequired: string := "Text is required"

  /** `getAuthHeader()`: "Basic " and the browser's Base64 of "user:user123". */
  function GetAuthHeader(): (h: string)
    ensures h == AuthHeader()
  {
    var credentials := Credentials(Username, Password);
    assert IsAscii(credentials);
    BtoaIsPhpEncodingOnAscii(credentials);
    "Basic " + Btoa(credentials).value
  }

  /** `!text || text.trim() === ''`, or the `TypeError` of calling `trim` on a non-string. */
  function CheckText(text: JsVal): (r: Result<string, string>)
    ensures r.Ok? <==> text.Some? && text.value.JStr? && !Text.AllSpace(Text.Js, text.value.s)
    ensures r.Ok? ==> r.value == Text.Trim(Text.Js, text.value.s)
    ensures !Truthy(text) ==> r == Err(TextRequired)
    ensures text.Some? && text.value.JStr? && Text.AllSpace(Text.Js, text.value.s) ==> r == Err(TextRequired)
    ensures Truthy(text) && !text.value.JStr? ==> r == Err("text.trim is not a function")
  {
    if !Truthy(text) then Err(TextRequired)
    else if !text.value.JStr? then Err("text.trim is not a function")
    else if Text.Trim(Text.Js, text.value.s) == "" then Err(TextRequired)
    else Ok(Text.Trim(Text.Js, text.value.s))
  }

  /** The POST to the translate endpoint: JSON headers, the Basic header, and `{text: text.trim()}`. */
  function TranslateCall(trimmed: string): ApiCall {
    ApiCall(TranslateEndpoint, "POST", Some(GetAuthHeader()), Some(Obj1("text", JStr(trimmed))))
  }

  /** The message of the error thrown for a response that is not OK: its body's `error`, else the status. */
  function HttpErrorMessage(status: int, body: Body): (m: string)
    ensures (body.Parsed? && body.value.JObj? && "error" in body.value.fields && body.value.fields["error"].JStr?
             && body.value.fields["error"].s != "") ==> m == body.value.fields["error"].s
    ensures body.Unparsable? ==> m == "HTTP error! status: " + Text.IntToString(status)
    ensures (body.Parsed? && body.value.JObj? && ("error" !in body.value.fields || !Truthy(Some(body.value.fields["error"]))))
        ==> m == "HTTP error! status: " + Text.IntToString(status)
    ensures body.Parsed? && body.value != JNull && !body.value.JObj? ==> m == "HTTP error! status: " + Text.IntToString(status)
    ensures body == Parsed(JNull) ==> m == NullishMessage(Some(JNull), "error")
  {
    var errorData: JsVal := if body.Parsed? then Some(body.value) else Some(JObj(map[]));
    match Get(errorData, "error")
    case Err(typeError) => typeError
    case Ok(error) => OrText(error, "HTTP error! status: " + Text.IntToString(status))
  }

  /**
   * `handleTranslation(text)`. Invalid text fails with no request. Otherwise one
   * POST goes out; a non-OK response fails with `HttpErrorMessage`, an OK one
   * copies the four fields of its body and adds `end - start`. It never rejects:
   * every failure is a `TranslateErr`.
   */
  function HandleTranslation(text: JsVal, outcome: FetchOutcome, start: int, end: int): (r: (Option<ApiCall>, TranslateResult))
    ensures r.0.None? <==> CheckText(text).Err?
    ensures r.0.Some? ==> r.0.value == TranslateCall(CheckText(text).value)
    ensures CheckText(text).Err? ==> r.1 == TranslateErr(CheckText(text).error)
    ensures r.1.TranslateOk? ==> r.0.Some? && outcome.Response? && OkStatus(outcome.status) && r.1.processingTime == end - start
    ensures r.0.Some? && outcome.FetchThrew? ==> r.1 == TranslateErr(outcome.message)
    ensures r.0.Some? && outcome.Response? && !OkStatus(outcome.status) ==> r.1 == TranslateErr(HttpErrorMessage(outcome.status, outcome.body))
  {
    match CheckText(text)
    case Err(m) => (None, TranslateErr(m))
    case Ok(trimmed) =>
      var sent := Some(TranslateCall(trimmed));
      match outcome
      case FetchThrew(m) => (sent, TranslateErr(m))
      case Response(status, body) =>
        if !OkStatus(status) then (sent, TranslateErr(HttpErrorMessage(status, body)))
        else if body.Unparsable? then (sent, TranslateErr(body.syntaxError))
        else
          var data := Some(body.value);
          if body.value == JNull then (sent, TranslateErr(NullishMessage(data, "originalText")))
          else
            (sent, TranslateOk(Get(data, "originalText").value, Get(data, "translatedText").value,
                               Get(data, "sourceLanguage").value, Get(data, "targetLanguage").value, end - start))
  }

  /** Any string with a non-blank character is sent, whatever its length: this layer has no length limit. */
  lemma NoLengthLimit(s: string, outcome: FetchOutcome, start: int, end: int)
    requires !Text.AllSpace(Text.Js, s)
    ensures HandleTranslation(Some(JStr(s)), outcome, start, end).0 == Some(TranslateCall(Text.Trim(Text.Js, s)))
  {
  }

  /** An OK response whose body is an object yields exactly its four fields. */
  lemma OkCopiesFields(s: string, status: int, fields: map<string, Json>, start: int, end: int)
    requires !Text.AllSpace(Text.Js, s) && OkStatus(status)
    ensures var r := HandleTranslation(Some(JStr(s)), Response(status, Parsed(JObj(fields))), start, end).1;
      && r.TranslateOk?
      && r.originalText == (if "originalText" in fields then Some(fields["originalText"]) else None)
      && r.translatedText == (if "translatedText" in fields then Some(fields["translatedText"]) else None)
      && r.sourceLanguage == (if "sourceLanguage" in fields then Some(fields["sourceLanguage"]) else None)
      && r.targetLanguage == (if "targetLanguage" in fields then Some(fields["targetLanguage"]) else None)
  {
    assert CheckText(Some(JStr(s))).Ok?;
    var data := Some(JObj(fields));
    assert Get(data, "originalText").Ok? && Get(data, "translatedText").Ok?;
    assert Get(data, "sourceLanguage").Ok? && Get(data, "targetLanguage").Ok?;
  }

  /** The object sent back to the side panel: `undefined` members do not survive the message. */
  function ToMessage(r: TranslateResult): (m: Json)
    ensures m.JObj? && "success" in m.fields && m.fields["success"] == JBool(r.TranslateOk?)
  {
    match r
    case TranslateErr(e) => JObj(map["success" := JBool(false), "error" := JStr(e)])
    case TranslateOk(original, translated, sourceLang, targetLang, time) =>
      var data := map["processingTime" := JNum(time)]
        + Defined("originalText", original) + Defined("translatedText", translated)
        + Defined("sourceLanguage", sourceLang) + Defined("targetLanguage", targetLang);
      JObj(map["success" := JBool(true), "data" := JObj(data)])
  }

  function Defined(k: string, v: JsVal): (m: map<string, Json>)
    ensures v.Some? ==> m == map[k := v.value]
    ensures v.None? ==> m == map[]
  {
    if v.Some? then map[k := v.value] else map[]
  }

  /** How the health `fetch` ended: it rejected with a message, or it answered with a status. */
  datatype HealthOutcome = HealthThrew(message: string) | HealthStatus(status: int)

  /** `checkServiceHealth()`: OK is online; anything else is offline, with the error when the fetch threw. */
  function CheckServiceHealth(outcome: HealthOutcome): (m: Json)
    ensures m.JObj? && "success" in m.fields && "status" in m.fields
    ensures m.fields["success"] == JBool(outcome.HealthStatus? && OkStatus(outcome.status))
    ensures m.fields["status"] == JStr(if outcome.HealthStatus? && OkStatus(outcome.status) then "online" else "offline")
    ensures "error" in m.fields <==> outcome.HealthThrew?
    ensures outcome.HealthThrew? ==> m.fields["error"] == JStr(outcome.message)
  {
    match outcome
    case HealthStatus(status) =>
      if OkStatus(status) then JObj(map["success" := JBool(true), "status" := JStr("online")])
      else JObj(map["success" := JBool(false), "status" := JStr("offline")])
    case HealthThrew(message) =>
      JObj(map["success" := JBool(false), "status" := JStr("offline"), "error" := JStr(message)])
  }

  /** The health request: a GET to the health endpoint, without credentials. */
  const HealthCall: ApiCall := ApiCall(HealthEndpoint, "GET", None, None)

  /**
   * The message listener: `translate` and `checkHealth` are answered (`Some`),
   * any other action gets no answer (`None`; the sender then sees `undefined`).
   */
  function OnMessage(request: Json, translate: FetchOutcome, health: HealthOutcome, start: int, end: int): (r: (Option<ApiCall>, Option<Json>))
    ensures Get(Some(request), "action") == Ok(Some(JStr("translate"))) ==>
      var (sent, result) := HandleTranslation(Get(Some(request), "text").value, translate, start, end);
      r == (sent, Some(ToMessage(result)))
    ensures Get(Some(request), "action") == Ok(Some(JStr("checkHealth"))) ==>
      r == (Some(HealthCall), Some(CheckServiceHealth(health)))
    ensures r.1.None? <==> Get(Some(request), "action") != Ok(Some(JStr("translate"))) && Get(Some(request), "action") != Ok(Some(JStr("checkHealth")))
  {
    match Get(Some(request), "action")
    case Err(_) => (None, None)
    case Ok(action) =>
      if action == Some(JStr("translate")) then
        var (sent, result) := HandleTranslation(Get(Some(request), "text").value, translate, start, end);
        (sent, Some(ToMessage(result)))
      else if action == Some(JStr("checkHealth")) then (Some(HealthCall), Some(CheckServiceHealth(health)))
      else (None, None)
  }
}

/**
 * The decisions the two browser pages (the web client's script.js and the
 * extension's side panel) make before and after a translation call: input
 * validation, the character-count warning, how the reply is read, and the
 * service status label. The pages themselves are in web_client.dfy and side_panel.dfy.
 */
module PageLogic {
  import opened Wrappers
  import opened Json
  import Text

  /** `MAX_CHAR_LIMIT`, and the literal 5000 of the web client. */
  const MaxChars: nat := 5000

  const EmptyInputMessage: string := "Please enter some text to translate"
  const TooLongMessage: string := "Text is too long (maximum 5000 characters)"

  /** The side panel builds its message from `MAX_CHAR_LIMIT`; it reads the same as the web client's. */
  lemma TooLongMessagesAgree()
    ensures "Text is too long (maximum " + Text.NatToString(MaxChars) + " characters)" == TooLongMessage
  {
    assert Text.NatToString(5000) == "5000" by {
      assert Text.NatToString(5) == "5";
      assert Text.NatToString(50) == "50";
      assert Text.NatToString(500) == "500";
    }
  }

  /**
   * The checks before sending: the input is trimmed (JavaScript whitespace), and
   * the trimmed text must be non-empty and at most 5000 UTF-16 code units long.
   */
  function ValidateInput(raw: string): (r: Result<string, string>)
    ensures r.Ok? <==> !Text.AllSpace(Text.Js, raw) && Text.Utf16Length(Text.Trim(Text.Js, raw)) <= MaxChars
    ensures r.Ok? ==> r.value == Text.Trim(Text.Js, raw) && r.value != []
    ensures r.Err? ==> r.error == if Text.AllSpace(Text.Js, raw) then EmptyInputMessage else TooLongMessage
  {
    var text := Text.Trim(Text.Js, raw);
    if text == [] then Err(EmptyInputMessage)
    else if Text.Utf16Length(text) > MaxChars then Err(TooLongMessage)
    else Ok(text)
  }

  /** What a page sends passes the page's own checks again unchanged. */
  lemma ValidatedTextIsStable(raw: string)
    requires ValidateInput(raw).Ok?
    ensures ValidateInput(ValidateInput(raw).value) == ValidateInput(raw)
  {
    Text.TrimIdempotent(Text.Js, raw);
  }

  /** `updateCharCount`: the counter turns to its warning look above 5000 UTF-16 code units of the raw input. */
  predicate CountWarning(raw: string) {
    Text.Utf16Length(raw) > MaxChars
  }

  /** Input refused as too long always has the counter in its warning look. */
  lemma TooLongShowsWarning(raw: string)
    requires ValidateInput(raw) == Err(TooLongMessage)
    ensures CountWarning(raw)
  {
    Text.TrimUtf16Shorter(Text.Js, raw);
  }

  /** The converse fails: trailing whitespace can push the counter past 5000 on input that is sent. */
  lemma WarningOnValidInput()
    ensures var raw := seq(MaxChars, _ => 'a') + [' '];
      CountWarning(raw) && ValidateInput(raw).Ok?
  {
    var text: string := seq(MaxChars, _ => 'a');
    var raw := text + [' '];
    Text.AsciiLengths(text);
    Text.AsciiLengths(raw);
    assert Text.Trim(Text.Js, raw) == Text.Trim(Text.Js, text);
    Text.TrimFixed(Text.Js, text);
  }

  /** How a call ended, seen from the page: it threw (transport or parse error), or it gave back a value. */
  datatype Reply = Threw(message: string) | Delivered(data: JsVal)

  /** What the page shows: a translation (the reply's fields) or an error text. */
  datatype Verdict =
    | Translated(translated: JsVal, processingTime: JsVal, original: JsVal)
    | Failed(message: string)

  const ConnectionErrorPrefix: string := "Connection error: "

  /** `obj.key` on an object with these fields: `undefined` (`None`) where the key is absent. */
  function Member(fields: map<string, Json>, key: string): JsVal {
    if key in fields then Some(fields[key]) else None
  }

  /**
   * The page's reading of a reply: `data.success` decides; on success the fields
   * under `data.data` are taken (a `TypeError` when it is missing counts as a throw);
   * otherwise `data.error || 'Translation failed'`.
   */
  function Interpret(reply: Reply): (v: Verdict)
    ensures v.Translated? ==> reply.Delivered? && Get(reply.data, "success").Ok? && Truthy(Get(reply.data, "success").value)
    ensures reply.Threw? ==> v == Failed(ConnectionErrorPrefix + reply.message)
    ensures reply.Delivered? && reply.data.Some? && reply.data.value.JObj? && "success" in reply.data.value.fields &&
            !Truthy(Some(reply.data.value.fields["success"])) && "error" in reply.data.value.fields &&
            reply.data.value.fields["error"].JStr? && reply.data.value.fields["error"].s != ""
        ==> v == Failed(reply.data.value.fields["error"].s)
    ensures reply.Delivered? && reply.data.Some? && reply.data.value.JObj? &&
            !Truthy(Member(reply.data.value.fields, "success")) && !Truthy(Member(reply.data.value.fields, "error"))
        ==> v == Failed("Translation failed")
    ensures reply.Delivered? && reply.data.Some? && reply.data.value.JObj? &&
            Truthy(Member(reply.data.value.fields, "success")) &&
            Member(reply.data.value.fields, "data").Some? && Member(reply.data.value.fields, "data").value.JObj?
        ==> var payload := Member(reply.data.value.fields, "data").value.fields;
            v == Translated(Member(payload, "translatedText"), Member(payload, "processingTime"), Member(payload, "originalText"))
    ensures reply.Delivered? && reply.data.Some? && reply.data.value.JObj? &&
            Truthy(Member(reply.data.value.fields, "success")) &&
            (Member(reply.data.value.fields, "data").None? || Member(reply.data.value.fields, "data") == Some(JNull))
        ==> v == Failed(ConnectionErrorPrefix + NullishMessage(Member(reply.data.value.fields, "data"), "translatedText"))
    ensures reply.Delivered? && (reply.data.None? || reply.data == Some(JNull))
        ==> v == Failed(ConnectionErrorPrefix + NullishMessage(reply.data, "success"))
  {
    match reply
    case Threw(m) => Failed(ConnectionErrorPrefix + m)
    case Delivered(data) =>
      match Get(data, "success")
      case Err(m) => Failed(ConnectionErrorPrefix + m)
      case Ok(success) =>
        if Truthy(success) then
          var payload := Get(data, "data").value;
          match Get(payload, "translatedText")
          case Err(m) => Failed(ConnectionErrorPrefix + m)
          case Ok(translated) =>
            Translated(translated, Get(payload, "processingTime").value, Get(payload, "originalText").value)
        else
          Failed(OrText(Get(data, "error").value, "Translation failed"))
  }

  /** `checkServiceHealth` of the pages: `data.success && data.status === 'online'`, a throw reads "Service Unavailable". */
  function HealthLabel(reply: Reply): (shown: string)
    ensures shown == "Service Online" <==>
      reply.Delivered? && reply.data.Some? && reply.data.value.JObj? &&
      "success" in reply.data.value.fields && Truthy(Some(reply.data.value.fields["success"])) &&
      "status" in reply.data.value.fields && reply.data.value.fields["status"] == JStr("online")
    ensures shown == "Service Unavailable" <==> reply.Threw? || reply.data.None? || reply.data == Some(JNull)
  {
    match reply
    case Threw(_) => "Service Unavailable"
    case Delivered(data) =>
      match Get(data, "success")
      case Err(_) => "Service Unavailable"
      case Ok(success) =>
        if Truthy(success) && Get(data, "status").value == Some(JStr("online")) then "Service Online"
        else "Service Offline"
  }
}

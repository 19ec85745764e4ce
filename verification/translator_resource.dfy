/**
 * The REST resource of the translation API (resource/TranslatorResource.java):
 * `translate` maps the request and the service's outcome to a status and an
 * entity, `health` always answers, `getCurrentUser` reports the principal the
 * authentication filter set. The service is a function from the request text
 * to its outcome; the clock reading every entity carries is a parameter.
 */
module TranslatorResources {
  import opened Wrappers
  import Text
  import Gemini
  import TranslationResponses
  import AuthFilter

  /** The entities the resource answers with, each with its `timestamp`. */
  datatype Entity =
    | Translation(originalText: string, translatedText: string, sourceLanguage: string, targetLanguage: string, timestamp: int)
    | Error(error: string, timestamp: int)
    | Health(status: string, timestamp: int)
    | UserInfo(username: Option<string>, admin: bool, timestamp: int)

  datatype Response = Response(status: int, entity: Entity)

  const TextRequired: string := "Text to translate is required"
  const ServiceError: string := "Translation service error: "
  const Running: string := "Translation service is running"

  /**
   * `translate(request)`: `requestText` is `None` when the request or its text
   * is `null`. Text that is blank after Java's trim is refused without calling
   * the service; otherwise the service gets the text as received, untrimmed.
   * Its translation is a 200, an `IllegalArgumentException` a 400 with its
   * message, any other exception a 500.
   */
  function Translate(requestText: Option<string>, llm: string -> Gemini.LlmOutcome, now: int): (r: Response)
    ensures requestText.None? || Text.AllSpace(Text.Java, requestText.value) ==> r == Response(400, Error(TextRequired, now))
    ensures requestText.Some? && !Text.AllSpace(Text.Java, requestText.value) ==>
      match llm(requestText.value)
      case Translated(text) =>
        r == Response(200, Translation(requestText.value, text, TranslationResponses.SourceLanguage, TranslationResponses.TargetLanguage, now))
      case IllegalArgument(message) => r == Response(400, Error(message, now))
      case Failed(message) => r == Response(500, Error(ServiceError + message, now))
    ensures r.status in {200, 400, 500}
    ensures r.status == 200 <==> r.entity.Translation?
  {
    if requestText.None? || Text.Trim(Text.Java, requestText.value) == "" then
      Response(400, Error(TextRequired, now))
    else
      match llm(requestText.value)
      case Translated(text) =>
        Response(200, Translation(requestText.value, text, TranslationResponses.SourceLanguage, TranslationResponses.TargetLanguage, now))
      case IllegalArgument(message) => Response(400, Error(message, now))
      case Failed(message) => Response(500, Error(ServiceError + message, now))
  }

  /** The service the resource constructs: Gemini, with its key and the exchange the request leads to. */
  function GeminiService(apiKey: string, exchange: string -> Gemini.Exchange): string -> Gemini.LlmOutcome {
    text => Gemini.Translate(Some(text), apiKey, exchange(text)).1
  }

  /**
   * With the Gemini service, a 400 comes from the resource's own check only:
   * the service's blank-text guard can never fire, since the resource refuses
   * the same texts first.
   */
  lemma BadRequestOnlyForBlank(requestText: Option<string>, apiKey: string, exchange: string -> Gemini.Exchange, now: int)
    ensures var r := Translate(requestText, GeminiService(apiKey, exchange), now);
      r.status == 400 <==> requestText.None? || Text.AllSpace(Text.Java, requestText.value)
  {
    if requestText.Some? && !Text.AllSpace(Text.Java, requestText.value) {
      var (request, outcome) := Gemini.Translate(Some(requestText.value), apiKey, exchange(requestText.value));
      assert request.Some?;
      assert !outcome.IllegalArgument?;
    }
  }

  /**
   * With the Gemini service, the prompt sent upstream holds the request text
   * as received (surrounding blanks included), and a 200 carries a
   * translation with no blank at either end.
   */
  lemma ForwardsUntrimmedText(text: string, apiKey: string, exchange: string -> Gemini.Exchange, now: int)
    requires !Text.AllSpace(Text.Java, text)
    ensures var request := Gemini.Translate(Some(text), apiKey, exchange(text)).0;
      && request.Some?
      && Gemini.BodyText(request.value.body) == Some(Gemini.BuildPrompt(text))
    ensures var r := Translate(Some(text), GeminiService(apiKey, exchange), now);
      r.status == 200 ==>
        && r.entity.originalText == text
        && r.entity.translatedText == Text.Trim(Text.Java, r.entity.translatedText)
  {
    Gemini.BodyCarriesText(text);
    var outcome := Gemini.Translate(Some(text), apiKey, exchange(text)).1;
    if outcome.Translated? {
      var ex := exchange(text);
      assert ex.Answered? && 200 <= ex.code < 300;
      var translated := Gemini.ExtractTranslation(ex.parse);
      assert translated.Ok? && outcome.text == translated.value;
    }
  }

  /** `health()`: always 200 with the running status. */
  function HealthCheck(now: int): (r: Response)
    ensures r.status == 200 && r.entity.Health? && r.entity.status == Running
  {
    Response(200, Health(Running, now))
  }

  /** `getCurrentUser()`: the principal's name, and `admin` exactly when the principal holds the role ADMIN. */
  function GetCurrentUser(context: AuthFilter.RequestContext, now: int): (r: Response)
    requires context.principal.Some?
    reads context, context.principal.value
    ensures r.status == 200 && r.entity.UserInfo?
    ensures r.entity.username == context.principal.value.username
    ensures r.entity.admin <==> "ADMIN" in context.principal.value.roles
  {
    Response(200, UserInfo(context.PrincipalName(), context.IsUserInRole("ADMIN"), now))
  }
}

/**
 * The web client page (php-ClientApp/js/script.js): the form, its result area,
 * and the history it keeps in `localStorage`. The fields stand for what the page
 * shows; DOM rendering itself is not modelled. Calls to translate.php are made
 * by the caller of `HandleTranslation`, which receives their outcome as a `Reply`.
 */
module WebClient {
  import opened Wrappers
  import opened Json
  import opened History
  import opened PageLogic
  import Text

  /** A request to translate.php: the `action` query parameter, the method, and the JSON body. */
  datatype ProxyCall = ProxyCall(action: string, httpMethod: string, body: Json)

  class TranslatorPage {
    var source: string        // the source textarea
    var target: string        // the target textarea
    var copyEnabled: bool     // the copy button is enabled
    var loading: bool         // the loading overlay is shown and the translate button disabled
    var errorShown: bool
    var errorText: string
    var infoShown: bool       // the "Translated in …ms" line
    var infoText: string
    var count: nat            // the character counter
    var countWarning: bool    // the counter is red
    var status: string        // the service status text
    const history: HistoryCache

    constructor (history: HistoryCache)
      ensures this.history == history
      ensures source == "" && target == "" && !copyEnabled && !loading && !errorShown && !infoShown
    {
      this.history := history;
      source, target, copyEnabled, loading := "", "", false, false;
      errorShown, errorText, infoShown, infoText := false, "", false, "";
      count, countWarning, status := 0, false, "";
    }

    /** `DOMContentLoaded`: the status check, then `loadHistory`. */
    method Init(health: Reply)
      modifies this, history
      ensures status == HealthLabel(health)
      ensures history.storage == old(history.storage)
      ensures history.entries == if StorageKey in history.storage then history.storage[StorageKey] else old(history.entries)
      ensures source == old(source) && target == old(target) && copyEnabled == old(copyEnabled)
      ensures loading == old(loading) && errorShown == old(errorShown) && errorText == old(errorText)
      ensures infoShown == old(infoShown) && infoText == old(infoText)
      ensures count == old(count) && countWarning == old(countWarning)
    {
      CheckServiceHealth(health);
      history.Load();
    }

    method CheckServiceHealth(health: Reply)
      modifies this
      ensures status == HealthLabel(health)
      ensures source == old(source) && target == old(target) && copyEnabled == old(copyEnabled)
      ensures loading == old(loading) && errorShown == old(errorShown) && errorText == old(errorText)
      ensures infoShown == old(infoShown) && infoText == old(infoText)
      ensures count == old(count) && countWarning == old(countWarning)
    {
      status := HealthLabel(health);
    }

    /** `updateCharCount`: the UTF-16 length of the raw input, red above 5000. */
    method UpdateCharCount()
      modifies this
      ensures count == Text.Utf16Length(source) && (countWarning <==> CountWarning(source))
      ensures source == old(source) && target == old(target) && copyEnabled == old(copyEnabled)
      ensures loading == old(loading) && errorShown == old(errorShown) && errorText == old(errorText)
      ensures infoShown == old(infoShown) && infoText == old(infoText) && status == old(status)
    {
      count := Text.Utf16Length(source);
      countWarning := count > MaxChars;
    }

    /** The clear button: empties the source and recounts. */
    method ClearSource()
      modifies this
      ensures source == "" && count == 0 && !countWarning
      ensures target == old(target) && copyEnabled == old(copyEnabled) && loading == old(loading)
      ensures errorShown == old(errorShown) && errorText == old(errorText)
      ensures infoShown == old(infoShown) && infoText == old(infoText) && status == old(status)
    {
      source := "";
      UpdateCharCount();
    }

    /**
     * `handleTranslation`. Invalid input only shows its error and sends nothing.
     * Valid input sends one POST of `{text: trimmed}`; the reply then either
     * fills the target, enables copy, shows the time and adds a history entry,
     * or shows the error, clears the target and disables copy. Loading ends either way.
     */
    method HandleTranslation(reply: Reply, now: int) returns (sent: Option<ProxyCall>)
      modifies this, history
      ensures source == old(source) && status == old(status) && count == old(count) && countWarning == old(countWarning)
      ensures ValidateInput(source).Err? ==>
        && sent == None
        && errorShown && errorText == ValidateInput(source).error
        && target == old(target) && copyEnabled == old(copyEnabled) && loading == old(loading)
        && infoShown == old(infoShown) && infoText == old(infoText)
        && history.entries == old(history.entries) && history.storage == old(history.storage)
      ensures ValidateInput(source).Ok? ==>
        && sent == Some(ProxyCall("translate", "POST", Obj1("text", JStr(ValidateInput(source).value))))
        && !loading
      ensures ValidateInput(source).Ok? && Interpret(reply).Translated? ==>
        var v := Interpret(reply);
        && target == FieldText(v.translated) && copyEnabled && !errorShown && errorText == old(errorText)
        && infoShown && infoText == "Translated in " + TemplateText(v.processingTime) + "ms"
        && history.entries == Prepend(Entry(v.original, v.translated, now), old(history.entries))
        && history.Persisted() && history.storage == old(history.storage)[StorageKey := history.entries]
      ensures ValidateInput(source).Ok? && Interpret(reply).Failed? ==>
        && errorShown && errorText == Interpret(reply).message
        && target == "" && !copyEnabled
        && infoShown == old(infoShown) && infoText == old(infoText)
        && history.entries == old(history.entries) && history.storage == old(history.storage)
    {
      var checked := ValidateInput(source);
      if checked.Err? {
        errorShown, errorText := true, checked.error;
        return None;
      }
      var text := checked.value;
      loading := true;
      errorShown := false;
      sent := Some(ProxyCall("translate", "POST", Obj1("text", JStr(text))));
      var verdict := Interpret(reply);
      match verdict {
        case Translated(translated, time, original) =>
          ShowTranslation(translated, time, original, now);
        case Failed(message) =>
          ShowFailure(message);
      }
      loading := false;
    }

    /** The `data.success` branch of `handleTranslation`: target, copy button, time, and a history entry. */
    method ShowTranslation(translated: JsVal, time: JsVal, original: JsVal, now: int)
      modifies this, history
      ensures target == FieldText(translated) && copyEnabled
      ensures errorShown == old(errorShown) && errorText == old(errorText)
      ensures infoShown && infoText == "Translated in " + TemplateText(time) + "ms"
      ensures history.entries == Prepend(Entry(original, translated, now), old(history.entries))
      ensures history.Persisted() && history.storage == old(history.storage)[StorageKey := history.entries]
      ensures source == old(source) && status == old(status) && count == old(count) && countWarning == old(countWarning)
      ensures loading == old(loading)
    {
      target := FieldText(translated);
      copyEnabled := true;
      infoShown, infoText := true, "Translated in " + TemplateText(time) + "ms";
      history.Add(Entry(original, translated, now));
    }

    /** The failure branches of `handleTranslation`: the error shown, the target cleared, copy disabled. */
    method ShowFailure(message: string)
      modifies this
      ensures errorShown && errorText == message && target == "" && !copyEnabled
      ensures infoShown == old(infoShown) && infoText == old(infoText)
      ensures source == old(source) && status == old(status) && count == old(count) && countWarning == old(countWarning)
      ensures loading == old(loading)
    {
      errorShown, errorText := true, message;
      target := "";
      copyEnabled := false;
    }

    /** `clearHistory`, with the answer to its confirmation dialog. */
    method ClearHistory(confirmed: bool)
      modifies history
      ensures confirmed ==> history.entries == [] && history.storage == old(history.storage)[StorageKey := []]
      ensures !confirmed ==> history.entries == old(history.entries) && history.storage == old(history.storage)
    {
      history.Clear(confirmed);
    }
  }
}

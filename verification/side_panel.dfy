/**
 * The extension's side panel (sidepanel.js): the same page as the web client,
 * talking to the background worker by message instead of to translate.php, and
 * keeping its history in `chrome.storage.local`. It also hides the result's
 * metadata on failure, clears both text areas with its clear button, and
 * translates text the background forwards from the context menu.
 */
module SidePanel {
  import opened Wrappers
  import opened Json
  import opened History
  import opened PageLogic
  import Text

  /** The message `{action: 'translate', text}` sent to the background worker. */
  function TranslateMessage(text: string): Json {
    JObj(map["action" := JStr("translate"), "text" := JStr(text)])
  }

  class SidePanelPage {
    var source: string        // the source textarea
    var target: string        // the target textarea
    var copyEnabled: bool     // the copy button is enabled
    var loading: bool         // the loading overlay is shown and the translate button disabled
    var errorShown: bool
    var errorText: string
    var metaShown: bool       // the translation metadata ("Translated in …ms")
    var metaText: string
    var count: nat            // the character counter
    var countWarning: bool    // the counter has its warning class
    var status: string        // the service status text
    const history: HistoryCache

    constructor (history: HistoryCache)
      ensures this.history == history
      ensures source == "" && target == "" && !copyEnabled && !loading && !errorShown && !metaShown
    {
      this.history := history;
      source, target, copyEnabled, loading := "", "", false, false;
      errorShown, errorText, metaShown, metaText := false, "", false, "";
      count, countWarning, status := 0, false, "";
    }

    /** `DOMContentLoaded`: the status check, then `loadHistory`. */
    method Init(health: Reply)
      modifies this, history
      ensures status == HealthLabel(health)
      ensures history.storage == old(history.storage)
      ensures history.entries == if StorageKey in history.storage then history.storage[StorageKey] else old(history.entries)
      ensures source == old(source) && target == old(target) && copyEnabled == old(copyEnabled)
      ensures loading == old(loading) && errorShown == old(errorShown) && errorText == old(errorText)
      ensures metaShown == old(metaShown) && metaText == old(metaText)
      ensures count == old(count) && countWarning == old(countWarning)
    {
      CheckServiceHealth(health);
      history.Load();
    }

    method CheckServiceHealth(health: Reply)
      modifies this
      ensures status == HealthLabel(health)
      ensures source == old(source) && target == old(target) && copyEnabled == old(copyEnabled)
      ensures loading == old(loading) && errorShown == old(errorShown) && errorText == old(errorText)
      ensures metaShown == old(metaShown) && metaText == old(metaText)
      ensures count == old(count) && countWarning == old(countWarning)
    {
      status := HealthLabel(health);
    }

    /** `updateCharCount`: the UTF-16 length of the raw input, a warning above `MAX_CHAR_LIMIT`. */
    method UpdateCharCount()
      modifies this
      ensures count == Text.Utf16Length(source) && (countWarning <==> CountWarning(source))
      ensures source == old(source) && target == old(target) && copyEnabled == old(copyEnabled)
      ensures loading == old(loading) && errorShown == old(errorShown) && errorText == old(errorText)
      ensures metaShown == old(metaShown) && metaText == old(metaText) && status == old(status)
    {
      count := Text.Utf16Length(source);
      countWarning := count > MaxChars;
    }

    /** The clear button: empties both text areas, recounts, disables copy and hides the metadata. */
    method ClearInput()
      modifies this
      ensures source == "" && target == "" && count == 0 && !countWarning
      ensures !copyEnabled && !metaShown
      ensures loading == old(loading) && errorShown == old(errorShown) && errorText == old(errorText)
      ensures metaText == old(metaText) && status == old(status)
    {
      source := "";
      target := "";
      UpdateCharCount();
      copyEnabled := false;
      metaShown := false;
    }

    /** The `translateText` message from the background: the text becomes the input, then `handleTranslate`. */
    method OnTranslateText(text: string, reply: Reply, now: int) returns (sent: Option<Json>)
      modifies this, history
      ensures source == text && count == Text.Utf16Length(text) && (countWarning <==> CountWarning(text))
      ensures status == old(status)
      ensures ValidateInput(text).Err? ==>
        && sent == None
        && errorShown && errorText == ValidateInput(text).error
        && target == old(target) && copyEnabled == old(copyEnabled) && loading == old(loading)
        && metaShown == old(metaShown) && metaText == old(metaText)
        && history.entries == old(history.entries) && history.storage == old(history.storage)
      ensures ValidateInput(text).Ok? ==> sent == Some(TranslateMessage(ValidateInput(text).value)) && !loading
      ensures ValidateInput(text).Ok? && Interpret(reply).Translated? ==>
        var v := Interpret(reply);
        && target == FieldText(v.translated) && copyEnabled && !errorShown && errorText == old(errorText)
        && metaShown && metaText == "Translated in " + TemplateText(v.processingTime) + "ms"
        && history.entries == Prepend(Entry(v.original, v.translated, now), old(history.entries))
        && history.Persisted() && history.storage == old(history.storage)[StorageKey := history.entries]
      ensures ValidateInput(text).Ok? && Interpret(reply).Failed? ==>
        && errorShown && errorText == Interpret(reply).message
        && target == "" && !copyEnabled && !metaShown && metaText == old(metaText)
        && history.entries == old(history.entries) && history.storage == old(history.storage)
    {
      source := text;
      UpdateCharCount();
      sent := HandleTranslate(reply, now);
    }

    /**
     * `handleTranslate`. Invalid input only shows its error and sends nothing.
     * Valid input sends one `translate` message with the trimmed text; the reply
     * then either fills the target, enables copy, shows the metadata and adds a
     * history entry, or shows the error, clears the target, disables copy and
     * hides the metadata. Loading ends either way.
     */
    method HandleTranslate(reply: Reply, now: int) returns (sent: Option<Json>)
      modifies this, history
      ensures source == old(source) && status == old(status) && count == old(count) && countWarning == old(countWarning)
      ensures ValidateInput(source).Err? ==>
        && sent == None
        && errorShown && errorText == ValidateInput(source).error
        && target == old(target) && copyEnabled == old(copyEnabled) && loading == old(loading)
        && metaShown == old(metaShown) && metaText == old(metaText)
        && history.entries == old(history.entries) && history.storage == old(history.storage)
      ensures ValidateInput(source).Ok? ==>
        && sent == Some(TranslateMessage(ValidateInput(source).value))
        && !loading
      ensures ValidateInput(source).Ok? && Interpret(reply).Translated? ==>
        var v := Interpret(reply);
        && target == FieldText(v.translated) && copyEnabled && !errorShown && errorText == old(errorText)
        && metaShown && metaText == "Translated in " + TemplateText(v.processingTime) + "ms"
        && history.entries == Prepend(Entry(v.original, v.translated, now), old(history.entries))
        && history.Persisted() && history.storage == old(history.storage)[StorageKey := history.entries]
      ensures ValidateInput(source).Ok? && Interpret(reply).Failed? ==>
        && errorShown && errorText == Interpret(reply).message
        && target == "" && !copyEnabled && !metaShown && metaText == old(metaText)
        && history.entries == old(history.entries) && history.storage == old(history.storage)
    {
      var checked := ValidateInput(source);
      if checked.Err? {
        errorShown, errorText := true, checked.error;
        return None;
      }
      var text := checked.value;
      loading := true;
      errorShown := false;
      sent := Some(TranslateMessage(text));
      var verdict := Interpret(reply);
      match verdict {
        case Translated(translated, time, original) =>
          ShowTranslation(translated, time, original, now);
        case Failed(message) =>
          ShowFailure(message);
      }
      loading := false;
    }

    /** The `response.success` branch of `handleTranslate`: target, copy button, metadata, and a history entry. */
    method ShowTranslation(translated: JsVal, time: JsVal, original: JsVal, now: int)
      modifies this, history
      ensures target == FieldText(translated) && copyEnabled
      ensures errorShown == old(errorShown) && errorText == old(errorText)
      ensures metaShown && metaText == "Translated in " + TemplateText(time) + "ms"
      ensures history.entries == Prepend(Entry(original, translated, now), old(history.entries))
      ensures history.Persisted() && history.storage == old(history.storage)[StorageKey := history.entries]
      ensures source == old(source) && status == old(status) && count == old(count) && countWarning == old(countWarning)
      ensures loading == old(loading)
    {
      target := FieldText(translated);
      copyEnabled := true;
      metaShown, metaText := true, "Translated in " + TemplateText(time) + "ms";
      history.Add(Entry(original, translated, now));
    }

    /** The failure branches of `handleTranslate`: the error shown, the target cleared, copy disabled, metadata hidden. */
    method ShowFailure(message: string)
      modifies this
      ensures errorShown && errorText == message && target == "" && !copyEnabled && !metaShown
      ensures metaText == old(metaText)
      ensures source == old(source) && status == old(status) && count == old(count) && countWarning == old(countWarning)
      ensures loading == old(loading)
    {
      errorShown, errorText := true, message;
      target := "";
      copyEnabled := false;
      metaShown := false;
    }

    /** `clearHistory`, with the answer to its confirmation dialog. */
    method ClearHistory(confirmed: bool)
      modifies history
      ensures confirmed ==> history.entries == [] && history.storage == old(history.storage)[StorageKey := []]
      ensures !confirmed ==> history.entries == old(history.entries) && history.storage == old(history.storage)
    {
      history.Clear(confirmed);
    }
  }
}

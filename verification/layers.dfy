/**
 * How the checks of the four hops compare. The web client page, the side
 * panel and the background worker trim as JavaScript does and count UTF-16
 * code units; the PHP proxy trims its own six characters, refuses what `empty`
 * calls empty and counts UTF-8 bytes; the Java resource trims everything up to
 * U+0020 and only tests for blank text. These lemmas pin down where they agree
 * and name inputs on which they do not.
 */
module Layers {
  import opened Wrappers
  import opened Json
  import Text
  import PageLogic
  import Background
  import Proxy
  import TranslatorResources
  import Gemini

  /** The request object the web client posts to translate.php. */
  function ProxyInput(text: string): Json {
    Obj1("text", JStr(text))
  }

  /** On ASCII text without blanks at its ends the page and the proxy accept exactly the same inputs, "0" aside. */
  lemma AsciiChecksAgree(s: string)
    requires forall i | 0 <= i < |s| :: s[i] as int < 0x80
    requires s != [] ==> !Text.IsJsSpace(s[0]) && !Text.IsJsSpace(s[|s| - 1])
    requires s != [] ==> !Text.IsPhpSpace(s[0]) && !Text.IsPhpSpace(s[|s| - 1])
    requires s != "0"
    ensures PageLogic.ValidateInput(s).Ok? <==> Proxy.CheckRequest("POST", ProxyInput(s)).Ok?
  {
    Text.TrimFixed(Text.Js, s);
    Text.TrimFixed(Text.Php, s);
    Text.AsciiLengths(s);
    assert PhpIndex(ProxyInput(s), "text") == JStr(s);
  }

  /** "0" is sent by both pages and by the background worker, and refused by the proxy's `empty`. */
  lemma ZeroRefusedOnlyByProxy()
    ensures PageLogic.ValidateInput("0") == Ok("0")
    ensures Background.CheckText(Some(JStr("0"))) == Ok("0")
    ensures Proxy.CheckRequest("POST", ProxyInput("0")) == Err(Proxy.TextRequired)
    ensures !Text.AllSpace(Text.Java, "0")
  {
    Text.TrimFixed(Text.Js, "0");
    Text.TrimFixed(Text.Php, "0");
    assert PhpIndex(ProxyInput("0"), "text") == JStr("0");
    assert !Text.IsJavaSpace("0"[0]);
  }

  /** A run of one character below U+10000 is one UTF-16 unit per character. */
  lemma {:induction false} Utf16OfRun(n: nat, c: char)
    requires c as int < 0x10000
    ensures Text.Utf16Length(seq(n, _ => c)) == n
  {
    if n > 0 {
      assert seq(n, _ => c)[1..] == seq(n - 1, _ => c);
      Utf16OfRun(n - 1, c);
    }
  }

  /** A run of one character is that character's width in bytes per character. */
  lemma {:induction false} Utf8OfRun(n: nat, c: char)
    ensures Text.Utf8Length(seq(n, _ => c)) == n * Text.Utf8Width(c)
  {
    if n > 0 {
      assert seq(n, _ => c)[1..] == seq(n - 1, _ => c);
      Utf8OfRun(n - 1, c);
    }
  }

  /**
   * 5000 copies of 'é' fit the pages' limit of 5000 characters but are 10000
   * bytes, so the proxy refuses as too long what the page let through.
   */
  lemma AccentedTextRefusedByProxy()
    ensures var s := seq(PageLogic.MaxChars, _ => 'é');
      && PageLogic.ValidateInput(s) == Ok(s)
      && Proxy.CheckRequest("POST", ProxyInput(s)) == Err(Proxy.TooLong)
  {
    var s := seq(PageLogic.MaxChars, _ => 'é');
    assert s[0] == 'é' && s[|s| - 1] == 'é';
    Text.TrimFixed(Text.Js, s);
    Text.TrimFixed(Text.Php, s);
    Utf16OfRun(PageLogic.MaxChars, 'é');
    Utf8OfRun(PageLogic.MaxChars, 'é');
    assert PhpIndex(ProxyInput(s), "text") == JStr(s);
  }

  /**
   * A control character such as U+0001 passes the proxy (PHP's trim keeps it)
   * and is refused by the resource (Java's trim removes it) without the
   * service being called.
   */
  lemma ControlCharacterRefusedOnlyByResource(llm: string -> Gemini.LlmOutcome, now: int)
    ensures Proxy.CheckRequest("POST", ProxyInput("\U{0001}")) == Ok("\U{0001}")
    ensures TranslatorResources.Translate(Some("\U{0001}"), llm, now)
      == TranslatorResources.Response(400, TranslatorResources.Error(TranslatorResources.TextRequired, now))
  {
    Text.TrimFixed(Text.Php, "\U{0001}");
    assert PhpIndex(ProxyInput("\U{0001}"), "text") == JStr("\U{0001}");
    assert Text.IsJavaSpace("\U{0001}"[0]);
  }

  /** Whatever the side panel sends, the background worker forwards, trimmed the same way and never cut. */
  lemma PanelTextForwardedUnchanged(raw: string, outcome: Background.FetchOutcome, start: int, end: int)
    requires PageLogic.ValidateInput(raw).Ok?
    ensures var text := PageLogic.ValidateInput(raw).value;
      Background.HandleTranslation(Some(JStr(text)), outcome, start, end).0 == Some(Background.TranslateCall(text))
  {
    Text.TrimIdempotent(Text.Js, raw);
  }
}

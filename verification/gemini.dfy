/**
 * The translation service of the API (service/GeminiAPIService.java): it wraps
 * the English text in a prompt, writes the prompt into a JSON request body with
 * its own partial escaping (section 7 of RFC 8259 lists more escapes than it
 * makes), posts it, and reads the translation out of the answer. The HTTP
 * exchange is a parameter: how it ended, the status, the raw body and the
 * outcome of parsing the body.
 */
module Gemini {
  import opened Wrappers
  import opened Json
  import Text

  const ApiUrl: string := "https://generativelanguage.googleapis.com/v1beta/models/gemini-2.5-flash:generateContent"

  // ----------------------------------------------------------------- escaping

  /** What each character becomes in the body: the five escapes, and every other character as it is. */
  function EscapeChar(c: char): (e: string)
    ensures c !in "\\\"\n\r\t" ==> e == [c]
    ensures |e| >= 1 && '\n' !in e && '\r' !in e && '\t' !in e
  {
    match c
    case '\\' => "\\\\"
    case '"' => "\\\""
    case '\n' => "\\n"
    case '\r' => "\\r"
    case '\t' => "\\t"
    case _ => [c]
  }

  /** The escaping as one pass over the text. */
  function Escape(s: string): (r: string)
    ensures '\n' !in r && '\r' !in r && '\t' !in r
  {
    if |s| == 0 then "" else EscapeChar(s[0]) + Escape(s[1..])
  }

  /**
   * `escapeJson`: five `String.replace` calls in a fixed order, the backslash
   * first so that the backslashes the later ones insert are not doubled.
   */
  function EscapeJson(text: string): string {
    var s1 := Text.ReplaceChar(text, '\\', "\\\\");
    var s2 := Text.ReplaceChar(s1, '"', "\\\"");
    var s3 := Text.ReplaceChar(s2, '\n', "\\n");
    var s4 := Text.ReplaceChar(s3, '\r', "\\r");
    Text.ReplaceChar(s4, '\t', "\\t")
  }

  /** The chain of replacements distributes over concatenation. */
  lemma EscapeJsonAppend(s: string, t: string)
    ensures EscapeJson(s + t) == EscapeJson(s) + EscapeJson(t)
  {
    var a1, b1 := Text.ReplaceChar(s, '\\', "\\\\"), Text.ReplaceChar(t, '\\', "\\\\");
    Text.ReplaceCharAppend(s, t, '\\', "\\\\");
    var a2, b2 := Text.ReplaceChar(a1, '"', "\\\""), Text.ReplaceChar(b1, '"', "\\\"");
    Text.ReplaceCharAppend(a1, b1, '"', "\\\"");
    var a3, b3 := Text.ReplaceChar(a2, '\n', "\\n"), Text.ReplaceChar(b2, '\n', "\\n");
    Text.ReplaceCharAppend(a2, b2, '\n', "\\n");
    var a4, b4 := Text.ReplaceChar(a3, '\r', "\\r"), Text.ReplaceChar(b3, '\r', "\\r");
    Text.ReplaceCharAppend(a3, b3, '\r', "\\r");
    Text.ReplaceCharAppend(a4, b4, '\t', "\\t");
  }

  /** On one character the chain gives that character's escape. */
  lemma EscapeJsonChar(c: char)
    ensures EscapeJson([c]) == EscapeChar(c)
  {
    assert [c][1..] == [];
    var s1 := Text.ReplaceChar([c], '\\', "\\\\");
    if c == '\\' {
      assert s1 == "\\\\";
      assert '"' !in s1 && '\n' !in s1 && '\r' !in s1 && '\t' !in s1;
    } else {
      assert s1 == [c];
      var s2 := Text.ReplaceChar(s1, '"', "\\\"");
      if c == '"' {
        assert s2 == "\\\"";
        assert '\n' !in s2 && '\r' !in s2 && '\t' !in s2;
      } else {
        assert s2 == [c];
        LastThree(c);
      }
    }
  }

  lemma LastThree(c: char)
    requires c != '\\' && c != '"'
    ensures Text.ReplaceChar(Text.ReplaceChar(Text.ReplaceChar([c], '\n', "\\n"), '\r', "\\r"), '\t', "\\t") == EscapeChar(c)
  {
    assert [c][1..] == [];
    var s3 := Text.ReplaceChar([c], '\n', "\\n");
    assert s3 == (if c == '\n' then "\\n" else [c]);
    if c == '\n' {
      assert '\r' !in s3 && '\t' !in s3;
    } else {
      assert s3[1..] == [];
      var s4 := Text.ReplaceChar(s3, '\r', "\\r");
      assert s4 == (if c == '\r' then "\\r" else [c]);
      if c == '\r' {
        assert '\t' !in s4;
      } else {
        assert s4[1..] == [];
      }
    }
  }

  /** The chain of replacements is the one-pass escaping. */
  lemma {:induction false} EscapeJsonIsEscape(s: string)
    ensures EscapeJson(s) == Escape(s)
  {
    if |s| == 0 {
      assert EscapeJson(s) == "";
    } else {
      assert s == [s[0]] + s[1..];
      EscapeJsonAppend([s[0]], s[1..]);
      EscapeJsonChar(s[0]);
      EscapeJsonIsEscape(s[1..]);
    }
  }

  /** Reading a JSON string body back: each escape pair is one character; a lone or unknown escape fails. */
  function Unescape(s: string): (r: Option<string>)
    decreases |s|
  {
    if |s| == 0 then Some("")
    else if s[0] != '\\' then
      match Unescape(s[1..])
      case Some(rest) => Some([s[0]] + rest)
      case None => None
    else if |s| < 2 then None
    else
      var c := match s[1]
        case 'n' => Some('\n')
        case 'r' => Some('\r')
        case 't' => Some('\t')
        case '"' => Some('"')
        case '\\' => Some('\\')
        case _ => None;
      match (c, Unescape(s[2..]))
      case (Some(x), Some(rest)) => Some([x] + rest)
      case _ => None
  }

  /** Unescaping what `escapeJson` wrote gives back the text. */
  lemma {:induction false} UnescapeEscapeJson(s: string)
    ensures Unescape(EscapeJson(s)) == Some(s)
  {
    EscapeJsonIsEscape(s);
    UnescapeEscape(s);
  }

  lemma {:induction false} UnescapeEscape(s: string)
    ensures Unescape(Escape(s)) == Some(s)
  {
    if |s| > 0 {
      var e := EscapeChar(s[0]);
      var rest := Escape(s[1..]);
      UnescapeEscape(s[1..]);
      assert Escape(s) == e + rest;
      assert s == [s[0]] + s[1..];
      if s[0] in "\\\"\n\r\t" {
        assert |e| == 2 && e[0] == '\\';
        assert (e + rest)[2..] == rest;
      } else {
        assert e == [s[0]];
        assert (e + rest)[1..] == rest;
      }
    }
  }

  // ---------------------------------------------------------------- templates

  const PromptHead: string :=
    "Translate the following English text to Moroccan Arabic Darija (Moroccan dialect). "
    + "Use Arabic script and maintain the natural, colloquial tone of Darija. "
    + "Only return the translation, nothing else.\n\n"
    + "English text: \""
  const PromptTail: string := "\"\n\nDarija translation:"

  /** `buildTranslationPrompt`: the text verbatim, between double quotes, after "English text: ". */
  function BuildPrompt(englishText: string): (prompt: string)
    ensures |prompt| == |PromptHead| + |englishText| + |PromptTail|
    ensures prompt[..|PromptHead|] == PromptHead
    ensures prompt[|PromptHead|..|prompt| - |PromptTail|] == englishText
    ensures prompt[|prompt| - |PromptTail|..] == PromptTail
  {
    var prompt := PromptHead + englishText + PromptTail;
    assert prompt[..|PromptHead|] == PromptHead;
    assert prompt[|PromptHead|..|prompt| - |PromptTail|] == englishText;
    prompt
  }

  const BodyHead: string := "{\"contents\":[{\"parts\":[{\"text\":\""
  const BodyTail: string := "\"}]}]}"

  /** `buildRequestBody`: the escaped prompt as the one text part of the one content. */
  function BuildRequestBody(prompt: string): (body: string)
    ensures |body| >= |BodyHead| + |BodyTail|
    ensures body[..|BodyHead|] == BodyHead && body[|body| - |BodyTail|..] == BodyTail
    ensures Unescape(body[|BodyHead|..|body| - |BodyTail|]) == Some(prompt)
  {
    var body := BodyHead + EscapeJson(prompt) + BodyTail;
    assert body[..|BodyHead|] == BodyHead;
    assert body[|BodyHead|..|body| - |BodyTail|] == EscapeJson(prompt);
    assert body[|body| - |BodyTail|..] == BodyTail;
    UnescapeEscapeJson(prompt);
    body
  }

  /** The text part of a request body, read back as JSON reads a string. */
  function BodyText(body: string): Option<string> {
    if |body| < |BodyHead| + |BodyTail| then None
    else Unescape(body[|BodyHead|..|body| - |BodyTail|])
  }

  /** The English text can be read back out of the request body: nothing is lost or altered. */
  lemma BodyCarriesText(englishText: string)
    ensures var prompt := BuildPrompt(englishText);
      && BodyText(BuildRequestBody(prompt)) == Some(prompt)
      && prompt[|PromptHead|..|prompt| - |PromptTail|] == englishText
  {
  }

  // --------------------------------------------------------------- the answer

  /** What parsing the answer's body gave: a tree, or the parser's error message. */
  datatype Parse = Tree(root: Json) | Malformed(message: string)

  const ParseFailure: string := "Failed to parse Gemini API response: "
  const NoTranslation: string := "No translation found in Gemini API response"

  /**
   * `extractTranslation`: the trimmed text of `candidates[0].content.parts[0].text`,
   * when `candidates` and `parts` are non-empty arrays; every failure is
   * reported as "Failed to parse Gemini API response: " and its reason.
   */
  function ExtractTranslation(parse: Parse): (r: Result<string, string>)
    ensures parse.Malformed? ==> r == Err(ParseFailure + parse.message)
    ensures parse.Tree? ==>
      var candidates := Path(Some(parse.root), "candidates");
      var parts := Path(Path(Element(candidates, 0), "content"), "parts");
      && (r.Ok? <==> IsArray(candidates) && |candidates.value.items| > 0 && IsArray(parts) && |parts.value.items| > 0)
      && (r.Ok? ==> r.value == Text.Trim(Text.Java, AsText(Path(Element(parts, 0), "text"))))
      && (r.Err? ==> r.error == ParseFailure + NoTranslation)
    ensures r.Ok? ==> Text.Trim(Text.Java, r.value) == r.value
  {
    match parse
    case Malformed(message) => Err(ParseFailure + message)
    case Tree(root) =>
      var candidates := Path(Some(root), "candidates");
      if IsArray(candidates) && |candidates.value.items| > 0 then
        var parts := Path(Path(Element(candidates, 0), "content"), "parts");
        if IsArray(parts) && |parts.value.items| > 0 then
          var text := AsText(Path(Element(parts, 0), "text"));
          Text.TrimIdempotent(Text.Java, text);
          Ok(Text.Trim(Text.Java, text))
        else Err(ParseFailure + NoTranslation)
      else Err(ParseFailure + NoTranslation)
  }

  /** A well-formed answer gives its text back, trimmed. */
  lemma ExtractsFirstText(text: string)
    ensures ExtractTranslation(Tree(Obj1("candidates", JArr([Obj1("content", Obj1("parts", JArr([Obj1("text", JStr(text))])))]))))
      == Ok(Text.Trim(Text.Java, text))
  {
  }

  // ------------------------------------------------------------------ translate

  /** How a call to an `LLMService` ends: a translation, an `IllegalArgumentException`, or another exception. */
  datatype LlmOutcome = Translated(text: string) | IllegalArgument(message: string) | Failed(message: string)

  /** How the HTTP exchange ended: an `IOException`, or a status, the body's text and its parse. */
  datatype Exchange = IoFailure(message: string) | Answered(code: int, body: string, parse: Parse)

  /** The POST the service sends: the URL with the key, and the JSON body. */
  datatype GeminiRequest = GeminiRequest(url: string, body: string)

  const EmptyText: string := "Text to translate cannot be empty"
  const CommunicationFailure: string := "Failed to communicate with Gemini API: "

  /**
   * `translate(englishText)`: `null` or blank text is refused before any request;
   * otherwise one POST goes out. An I/O failure or a status outside 2xx is a
   * communication failure (with the status and body); a 2xx answer gives what
   * `extractTranslation` gives.
   */
  function Translate(englishText: Option<string>, apiKey: string, exchange: Exchange): (r: (Option<GeminiRequest>, LlmOutcome))
    ensures r.0.None? <==> englishText.None? || Text.AllSpace(Text.Java, englishText.value)
    ensures r.0.None? ==> r.1 == IllegalArgument(EmptyText)
    ensures r.0.Some? ==> r.0.value == GeminiRequest(ApiUrl + "?key=" + apiKey, BuildRequestBody(BuildPrompt(englishText.value)))
    ensures r.0.Some? && exchange.IoFailure? ==> r.1 == Failed(CommunicationFailure + exchange.message)
    ensures r.0.Some? && exchange.Answered? && !(200 <= exchange.code < 300) ==>
      r.1 == Failed(CommunicationFailure + "Gemini API request failed: " + Text.IntToString(exchange.code) + " - " + exchange.body)
    ensures r.0.Some? && exchange.Answered? && 200 <= exchange.code < 300 ==>
      match ExtractTranslation(exchange.parse)
      case Ok(text) => r.1 == Translated(text)
      case Err(message) => r.1 == Failed(message)
    ensures r.1.IllegalArgument? ==> r.0.None?
  {
    if englishText.None? || Text.Trim(Text.Java, englishText.value) == "" then (None, IllegalArgument(EmptyText))
    else
      var request := GeminiRequest(ApiUrl + "?key=" + apiKey, BuildRequestBody(BuildPrompt(englishText.value)));
      match exchange
      case IoFailure(message) => (Some(request), Failed(CommunicationFailure + message))
      case Answered(code, body, parse) =>
        if !(200 <= code < 300) then
          (Some(request), Failed(CommunicationFailure + "Gemini API request failed: " + Text.IntToString(code) + " - " + body))
        else
          match ExtractTranslation(parse)
          case Ok(text) => (Some(request), Translated(text))
          case Err(message) => (Some(request), Failed(message))
  }
}

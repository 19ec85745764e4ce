# Darija translator: a verified model of its core

The system translates English text into Moroccan Darija. It has four hops:

- **Browser pages.** The web client page (`php-ClientApp/js/script.js`) and the Chrome extension's side panel (`darija-translator-extension/sidepanel/sidepanel.js`):
  - validate the input;
  - show the answer;
  - keep a ten-entry history in browser storage.
- **Forwarders.** The extension's background worker (`background.js`) and the PHP proxy (`translate.php`) forward requests to the Java API with fixed HTTP Basic credentials. Each turns every outcome into a `{success, data | error}` object.
- **The Java API** (`TranslatorResource`):
  - authenticates each request in a filter against a store of accounts whose passwords are salted hashes;
  - forwards the text to Gemini.

The model is a Dafny module per source file, plus shared foundations. It follows the form of each source file:

- **Pure decisions are functions.** This covers validation, outcome mapping, header parsing, escaping, templating, and extracting text from the answer. Each takes the request and the outcome of the I/O as parameters and returns the request it sent (if any) and its answer.
- **Objects the source updates are classes.** These are the pages, the history cache, the user account, the translation response, the account store and the request context. Their methods carry `modifies` clauses and state the whole new state.
- **Loops are methods with invariants.** These are the array copy and comparison of the password encoder, and the two loops of `loadUsers`. Each is proved against a function.

The foundations are:

- `text.dfy`: the three runtimes' `trim`, UTF-16 and UTF-8 lengths, `indexOf`, `split`, `replace` and decimal printing;
- `utf8.dfy`: UTF-8 encoding and Java's replacing decoder;
- `base64.dfy`: the encoder of section 4 of RFC 4648, and the acceptance rules of Java's basic decoder;
- `json.dfy`: JSON values, JavaScript property access and truthiness, PHP indexing and `empty`, and Jackson's `path`/`asText`.

Inputs that come from outside the code are parameters:

- SHA-256 (any function `Digest`);
- the 16-byte salt from `SecureRandom`;
- clock readings;
- every transport outcome, whether `fetch`, cURL or OkHttp;
- the parsed JSON body;
- the Gemini API key;
- the answer of the browser's `confirm` dialog.

## Model

| member | source | states |
|---|---|---|
| History.Prepend | php-ClientApp/js/script.js:188-194 | `addToHistory`'s list: the new entry first, then the front of the old list, length `min(old+1, 10)` |
| History.PrependIsTake | php-ClientApp/js/script.js:189-193 | unshift-then-slice equals taking the first ten of `[e] + old` |
| History.AddAllKeepsMostRecent | php-ClientApp/js/script.js:188-194 | after any run of additions the list is the ten most recent entries, newest first, then what is left of the earlier list |
| History.LastTenOnly | darija-translator-extension/sidepanel/sidepanel.js:204-210 | after ten or more additions only the last ten added remain, in reverse order of addition |
| History.HistoryCache.constructor | php-ClientApp/js/script.js:2 | a page starts with an empty list over the storage left by earlier visits |
| History.HistoryCache.Add | php-ClientApp/js/script.js:188-198 | the list becomes `Prepend(e, old)`, storage under `translationHistory` becomes the list, and the cache is persisted |
| History.HistoryCache.Save | php-ClientApp/js/script.js:201-203 | the whole list is written under the history key; the list and the other keys are untouched |
| History.HistoryCache.Load | php-ClientApp/js/script.js:206-212 | the stored list is adopted as it is, with no cap; with no stored value the list is unchanged |
| History.HistoryCache.Clear | php-ClientApp/js/script.js:246-252 | a confirmed clear empties the list and stores the empty list; a refused one changes nothing |
| FormatTime.Bucket | php-ClientApp/js/script.js:255-268 | under 1 min is "just now"; under 1 h, the whole minutes (1..59); under 1 day, the whole hours (1..23); else older. Each bound is two-sided |
| FormatTime.BucketMonotone | php-ClientApp/js/script.js:255-268 | an older timestamp never shows a smaller age than a newer one |
| FormatTime.FormatLong | php-ClientApp/js/script.js:255-271 | "Just now" under a minute; "<m> minute(s) ago" with m the floor of the difference in minutes below an hour, "s" only past one; "<h> hour(s) ago" likewise below a day; the date from a day on |
| FormatTime.FormatShort | darija-translator-extension/sidepanel/sidepanel.js:272-288 | "Just now" under a minute; "<m>m ago" below an hour and "<h>h ago" below a day, m and h floored; the date from a day on |
| FormatTime.ReadLongText | php-ClientApp/js/script.js:262-268 | below a day the web client's wording determines the age (it reads back) |
| FormatTime.ReadShortText | darija-translator-extension/sidepanel/sidepanel.js:279-285 | below a day the side panel's "<n>m ago"/"<n>h ago" determines the age |
| FormatTime.SameBuckets | darija-translator-extension/sidepanel/sidepanel.js:272-288 | the two clients tell apart exactly the same ages: they differ only in wording |
| PageLogic.TooLongMessagesAgree | darija-translator-extension/sidepanel/sidepanel.js:117-119 | the side panel's message built from `MAX_CHAR_LIMIT` equals the web client's literal |
| PageLogic.ValidateInput | php-ClientApp/js/script.js:91-101 | accepted iff the JS-trimmed text is non-empty and at most 5000 UTF-16 units; the value is the trimmed text; each refusal has its message |
| PageLogic.ValidatedTextIsStable | darija-translator-extension/sidepanel/sidepanel.js:110-120 | the text a page sends passes the same checks again unchanged |
| PageLogic.TooLongShowsWarning | darija-translator-extension/sidepanel/sidepanel.js:96-106 | input refused as too long always has the counter in its warning state |
| PageLogic.WarningOnValidInput | php-ClientApp/js/script.js:76-85 | the converse fails: 5000 letters and a trailing space show the warning and are still sent |
| PageLogic.Interpret | php-ClientApp/js/script.js:117-142 | a translation only when `success` is truthy, and then the `translatedText`, `processingTime` and `originalText` of an object `data`; a missing or null `data` or reply is a "Connection error: " with the TypeError text; a throw is "Connection error: " + message; a falsy `success` shows a non-empty `error`, else "Translation failed" |
| PageLogic.HealthLabel | php-ClientApp/js/script.js:57-73 | "Service Online" iff `success` is truthy and `status` is "online"; "Service Unavailable" iff the call threw or the body is null |
| WebClient.TranslatorPage.constructor | php-ClientApp/js/script.js:1-22 | empty text areas, copy disabled, no loading, no error |
| WebClient.TranslatorPage.Init | php-ClientApp/js/script.js:25-29 | the status label from the health reply, then the history loaded from storage; the form, result, error, time line and counter are untouched |
| WebClient.TranslatorPage.CheckServiceHealth | php-ClientApp/js/script.js:57-73 | only the status label changes, to `HealthLabel` of the reply; every other field of the page keeps its value |
| WebClient.TranslatorPage.UpdateCharCount | php-ClientApp/js/script.js:76-85 | the count is the raw input's UTF-16 length; the warning is on iff it exceeds 5000 |
| WebClient.TranslatorPage.ClearSource | php-ClientApp/js/script.js:40-44 | empty input, count 0, no warning; the result, error, time line and status untouched |
| WebClient.TranslatorPage.HandleTranslation | php-ClientApp/js/script.js:88-143 | invalid input: only the error, nothing sent. Valid: one POST of `{text: trimmed}`. Then either the result, copy enabled and a history entry, or the error with the target cleared and copy disabled. Loading always ends |
| WebClient.TranslatorPage.ShowTranslation | php-ClientApp/js/script.js:117-130 | the target shows the translation, copy is enabled, the time line reads "Translated in <time>ms", and the entry is put at the head of the stored history; the input, the error (shown flag and text) and the status are untouched |
| WebClient.TranslatorPage.ShowFailure | php-ClientApp/js/script.js:131-139 | the error is shown with the message, the target is emptied and copy is disabled; the time line is untouched |
| WebClient.TranslatorPage.ClearHistory | php-ClientApp/js/script.js:246-252 | the history's confirmed or refused clear |
| SidePanel.SidePanelPage.constructor | darija-translator-extension/sidepanel/sidepanel.js:1-22 | empty text areas, copy disabled, no loading, no error, metadata hidden |
| SidePanel.SidePanelPage.Init | darija-translator-extension/sidepanel/sidepanel.js:25-29 | the status label from the health reply, then the history loaded from storage; the form, result, error, metadata and counter are untouched |
| SidePanel.SidePanelPage.CheckServiceHealth | darija-translator-extension/sidepanel/sidepanel.js:76-93 | only the status label changes, to `HealthLabel` of the reply; every other field of the panel keeps its value |
| SidePanel.SidePanelPage.UpdateCharCount | darija-translator-extension/sidepanel/sidepanel.js:96-106 | the count is the raw input's UTF-16 length; the warning class is present iff it exceeds `MAX_CHAR_LIMIT` |
| SidePanel.SidePanelPage.ClearInput | darija-translator-extension/sidepanel/sidepanel.js:56-63 | both text areas emptied, count 0, copy disabled, metadata hidden; loading, error, metadata text and status untouched |
| SidePanel.SidePanelPage.OnTranslateText | darija-translator-extension/sidepanel/sidepanel.js:32-38 | the forwarded text becomes the input and is counted; refused text only shows its error; accepted text sends its trimmed form, and the reply fills the result, metadata and stored history, or shows the error and clears the result, exactly as `handleTranslate` does |
| SidePanel.SidePanelPage.HandleTranslate | darija-translator-extension/sidepanel/sidepanel.js:109-159 | as the web client, with one `{action:'translate', text: trimmed}` message; on failure the metadata is also hidden |
| SidePanel.SidePanelPage.ShowTranslation | darija-translator-extension/sidepanel/sidepanel.js:131-144 | the target shows the translation, copy is enabled, the metadata reads "Translated in <time>ms", and the entry is put at the head of the stored history; the input, the error (shown flag and text) and the status are untouched |
| SidePanel.SidePanelPage.ShowFailure | darija-translator-extension/sidepanel/sidepanel.js:145-155 | the error is shown with the message, the target is emptied, copy is disabled and the metadata hidden |
| SidePanel.SidePanelPage.ClearHistory | darija-translator-extension/sidepanel/sidepanel.js:263-269 | the history's confirmed or refused clear |
| Api.Btoa | darija-translator-extension/background.js:9 | defined exactly on text up to U+00FF, and decodes back to its Latin-1 bytes |
| Api.PhpBase64Encode | php-ClientApp/translate.php:16 | decodes back to the UTF-8 bytes of the text |
| Api.BtoaIsPhpEncodingOnAscii | php-ClientApp/translate.php:16 | on ASCII credentials the browser's and PHP's encodings are the same text |
| Api.AuthHeader | php-ClientApp/translate.php:4-5 | "Basic " and a token that decodes to the bytes of "user:user123" |
| Api.AuthHeaderValue | darija-translator-extension/background.js:4-11 | the header is the constant "Basic dXNlcjp1c2VyMTIz" |
| Background.GetAuthHeader | darija-translator-extension/background.js:8-11 | equals the PHP proxy's header |
| Background.CheckText | darija-translator-extension/background.js:78-80 | accepted iff a string that is not blank after JS trim, giving the trimmed text; falsy or blank text is "Text is required"; a truthy non-string is the `trim` TypeError |
| Background.HttpErrorMessage | darija-translator-extension/background.js:97-100 | the body's non-empty `error`; "HTTP error! status: <status>" when the body is not JSON, is an object whose `error` is missing or falsy, or is any other non-null value; a `null` body gives the TypeError of reading `error` |
| Background.HandleTranslation | darija-translator-extension/background.js:76-121 | no fetch iff the text is refused. The POST carries the trimmed text and the Basic header. A throw gives its message; a non-OK status gives `HttpErrorMessage`; success only on OK, with `end - start` |
| Background.NoLengthLimit | darija-translator-extension/background.js:78-92 | any non-blank text is forwarded whatever its length |
| Background.OkCopiesFields | darija-translator-extension/background.js:102-113 | an OK object body yields exactly its four fields |
| Background.ToMessage | darija-translator-extension/background.js:56-61 | the answer object's `success` is true exactly for a translation |
| Background.CheckServiceHealth | darija-translator-extension/background.js:124-151 | OK is online with success; otherwise offline, with the error only when the fetch threw |
| Background.OnMessage | darija-translator-extension/background.js:53-73 | `translate` and `checkHealth` are answered by their handlers; any other action gets no answer |
| Proxy.MakeRequest | php-ClientApp/translate.php:12-59 | the call carries the Basic header, with a body only on POST. A cURL error wins. Success iff no error and 2xx, with the body and code. Otherwise `error ?? 'Unknown error occurred'` and the code |
| Proxy.Failure | php-ClientApp/translate.php:38-43 | the answer has `success` false and the given `error` |
| Proxy.Success | php-ClientApp/translate.php:47-52 | the answer has `success` true, the decoded body as `data`, and the status as `httpCode` |
| Proxy.HttpFailure | php-ClientApp/translate.php:53-58 | the answer has `success` false, the given `error`, and the status as `httpCode` |
| Proxy.CheckRequest | php-ClientApp/translate.php:66-89 | accepted iff POST, `text` set, not `empty` after PHP trim (so not "0"), and at most 5000 bytes; the value is the trimmed text; other methods get "Invalid request method", missing or empty text "Text is required", longer text the too-long message |
| Proxy.HandleTranslation | php-ClientApp/translate.php:65-118 | no call iff the check fails. Otherwise one POST of `{text: trimmed}`. Its success becomes the five fields plus the duration; its failure is returned unchanged |
| Proxy.CheckHealth | php-ClientApp/translate.php:123-139 | online iff the call succeeded, with `message` = the API's `status ?? 'Service is running'`; otherwise "Service is unavailable" |
| Proxy.HealthAnswer | php-ClientApp/translate.php:126-138 | `success` is the given flag, `status` is "online" or "offline" to match, and `message` is the given message |
| Proxy.Route | php-ClientApp/translate.php:142-169 | `action` defaults to translate; translate and health dispatch; anything else is "Invalid action" with no call |
| Users.User.constructor | TranslatorResource/src/main/java/com/translator/model/User.java:12-15 | no name or password, no roles, enabled |
| Users.User.WithRoles | TranslatorResource/src/main/java/com/translator/model/User.java:17-22 | the given name, password and roles; enabled |
| Users.User.AddRole | TranslatorResource/src/main/java/com/translator/model/User.java:61-63 | `hasRole(r)` afterwards, membership of every other role unchanged, other fields unchanged |
| Users.User.SetUsername | TranslatorResource/src/main/java/com/translator/model/User.java:29-31 | only `username` changes |
| Users.User.SetPassword | TranslatorResource/src/main/java/com/translator/model/User.java:37-39 | only `password` changes |
| Users.User.SetRoles | TranslatorResource/src/main/java/com/translator/model/User.java:45-47 | only `roles` changes |
| Users.User.SetEnabled | TranslatorResource/src/main/java/com/translator/model/User.java:53-55 | only `enabled` changes |
| TranslationResponses.TranslationResponse.constructor | TranslatorResource/src/main/java/com/translator/model/TranslationResponse.java:10-11 | every field at its default |
| TranslationResponses.TranslationResponse.Of | TranslatorResource/src/main/java/com/translator/model/TranslationResponse.java:13-19 | both texts copied unchanged, "English" and "Moroccan Darija", the construction time |
| TranslationResponses.TranslationResponse.SetOriginalText | TranslatorResource/src/main/java/com/translator/model/TranslationResponse.java:26-28 | only `originalText` changes |
| TranslationResponses.TranslationResponse.SetTranslatedText | TranslatorResource/src/main/java/com/translator/model/TranslationResponse.java:34-36 | only `translatedText` changes |
| TranslationResponses.TranslationResponse.SetSourceLanguage | TranslatorResource/src/main/java/com/translator/model/TranslationResponse.java:42-44 | only `sourceLanguage` changes |
| TranslationResponses.TranslationResponse.SetTargetLanguage | TranslatorResource/src/main/java/com/translator/model/TranslationResponse.java:50-52 | only `targetLanguage` changes |
| TranslationResponses.TranslationResponse.SetTimestamp | TranslatorResource/src/main/java/com/translator/model/TranslationResponse.java:58-60 | only `timestamp` changes |
| PasswordEncoding.Encoding | TranslatorResource/src/main/java/com/translator/security/PasswordEncoder.java:20-31 | decodes to the 16-byte salt followed by `digest(salt + utf8(password))` |
| PasswordEncoding.ArrayCopy | TranslatorResource/src/main/java/com/translator/security/PasswordEncoder.java:26-28 | `System.arraycopy`: the destination range holds the source range, the rest of the destination is unchanged |
| PasswordEncoding.Encode | TranslatorResource/src/main/java/com/translator/security/PasswordEncoder.java:17-36 | the method's result is `Encoding(password, salt)` |
| PasswordEncoding.IsEqual | TranslatorResource/src/main/java/com/translator/security/PasswordEncoder.java:56 | `MessageDigest.isEqual`: true iff same length and same bytes |
| PasswordEncoding.Matches | TranslatorResource/src/main/java/com/translator/security/PasswordEncoder.java:41-61 | equals `IsMatch`: false for null, non-Base64 or fewer than 16 bytes; else the bytes after the salt equal the recomputed hash |
| PasswordEncoding.MatchesOwnEncoding | TranslatorResource/src/main/java/com/translator/security/PasswordEncoder.java:17-56 | round trip: a password matches its own encoding under any salt |
| PasswordEncoding.MatchIffSameHash | TranslatorResource/src/main/java/com/translator/security/PasswordEncoder.java:53-56 | a candidate matches an encoding iff it hashes the same under that salt |
| PasswordEncoding.OnlyThePasswordMatches | TranslatorResource/src/main/java/com/translator/security/PasswordEncoder.java:41-61 | with a collision-free digest, exactly the encoded password matches |
| PasswordEncoding.ShortNeverMatches | TranslatorResource/src/main/java/com/translator/security/PasswordEncoder.java:46-60 | fewer than 16 decoded bytes never match |
| UserRepositories.UserNameOf | TranslatorResource/src/main/java/com/translator/security/UserRepository.java:42-43 | for a key ending in ".password", the key starts with the name followed by ".password" |
| UserRepositories.Roles | TranslatorResource/src/main/java/com/translator/security/UserRepository.java:54-57 | every role is trimmed and contains no ',' |
| UserRepositories.DefaultRoles | TranslatorResource/src/main/java/com/translator/security/UserRepository.java:51 | the default "USER" gives the role set {USER} |
| UserRepositories.TwoRoles | TranslatorResource/src/main/java/com/translator/security/UserRepository.java:54-57 | "ADMIN, USER" gives {ADMIN, USER}: the pieces are trimmed |
| UserRepositories.UserRepository.constructor | TranslatorResource/src/main/java/com/translator/security/UserRepository.java:15-17 | without a readable file exactly the two defaults; with one, exactly the accounts it defines, each as it defines it |
| UserRepositories.UserRepository.LoadUsers | TranslatorResource/src/main/java/com/translator/security/UserRepository.java:26-71 | missing file or I/O error adds the defaults. Otherwise one fresh account is added per ".password" key, with that password, the parsed roles (default USER) and the parsed `enabled` (default true). Other entries stay |
| UserRepositories.UserRepository.AddAccounts | TranslatorResource/src/main/java/com/translator/security/UserRepository.java:49-63 | one fresh account per name, as the properties describe it, is stored under that name; every other entry keeps its account |
| UserRepositories.UserRepository.NewAccount | TranslatorResource/src/main/java/com/translator/security/UserRepository.java:49-62 | a fresh account as the properties describe it |
| UserRepositories.UserRepository.CollectUserNames | TranslatorResource/src/main/java/com/translator/security/UserRepository.java:40-46 | the names are exactly those of the keys ending in ".password" |
| UserRepositories.UserRepository.ParseRoles | TranslatorResource/src/main/java/com/translator/security/UserRepository.java:54-57 | the loop's set equals `Roles(rolesText)` |
| UserRepositories.UserRepository.CreateDefaultUsers | TranslatorResource/src/main/java/com/translator/security/UserRepository.java:76-93 | "admin" with {ADMIN, USER} and "user" with {USER}, fresh and enabled, passwords encoded; every other entry unchanged |
| UserRepositories.UserRepository.DefaultAccounts | TranslatorResource/src/main/java/com/translator/security/UserRepository.java:78-90 | the two accounts as they are built before being stored |
| UserRepositories.UserRepository.AdminAccount | TranslatorResource/src/main/java/com/translator/security/UserRepository.java:78-82 | a fresh "admin" account with the encoding of "admin123", the roles ADMIN and USER, enabled |
| UserRepositories.UserRepository.DefaultAccount | TranslatorResource/src/main/java/com/translator/security/UserRepository.java:78-80 | a new account with its name and encoded password, no roles, enabled |
| UserRepositories.UserRepository.FindByUsername | TranslatorResource/src/main/java/com/translator/security/UserRepository.java:98-100 | present iff stored under the name, and then that account |
| UserRepositories.UserRepository.Authenticate | TranslatorResource/src/main/java/com/translator/security/UserRepository.java:105-117 | the account iff it exists, is enabled and its encoding matches the password; otherwise null |
| UserRepositories.UserRepository.AddUser | TranslatorResource/src/main/java/com/translator/security/UserRepository.java:122-124 | the entry under the user's name is set; every other entry stays |
| UserRepositories.UserRepository.DefaultsAccepted | TranslatorResource/src/main/java/com/translator/security/UserRepository.java:76-93 | the default accounts accept "admin123" and "user123" |
| UserRepositories.UserRepository.DefaultsRejectOthers | TranslatorResource/src/main/java/com/translator/security/UserRepository.java:105-117 | with a collision-free digest, a default account accepts only its own password |
| AuthFilter.Unauthorized | TranslatorResource/src/main/java/com/translator/filter/AuthenticationFilter.java:99-117 | status 401, `Basic realm="Darija Translator API"`, error "Unauthorized: " + message, timestamp the clock reading `now` |
| AuthFilter.ReadCredentials | TranslatorResource/src/main/java/com/translator/filter/AuthenticationFilter.java:35-62 | missing or non-"Basic " header, token Java's decoder refuses, no ':' each give their message; a decoded text holding ':' is always accepted, split at its first ':' |
| AuthFilter.ReadsBackCredentials | TranslatorResource/src/main/java/com/translator/filter/AuthenticationFilter.java:44-62 | round trip with the clients: a header built from a name without ':' and any password reads back as that pair |
| AuthFilter.RequestContext.constructor | TranslatorResource/src/main/java/com/translator/filter/AuthenticationFilter.java:29-35 | a request with its path and header, not aborted and without a principal |
| AuthFilter.RequestContext.PrincipalName | TranslatorResource/src/main/java/com/translator/filter/AuthenticationFilter.java:76-78 | the principal's name is the user's username |
| AuthFilter.AuthenticationFilter.constructor | TranslatorResource/src/main/java/com/translator/filter/AuthenticationFilter.java:65 | the filter consults the one account store |
| AuthFilter.AuthenticationFilter.Filter | TranslatorResource/src/main/java/com/translator/filter/AuthenticationFilter.java:27-97 | "/health" paths pass untouched. A refused header aborts with its 401. Accepted credentials set the principal to the stored account; refused ones abort with "Invalid username or password". Every 401 is stamped with the clock reading `now` |
| AuthFilter.AuthenticationFilter.ClientsAccepted | TranslatorResource/src/main/java/com/translator/filter/AuthenticationFilter.java:44-70 | the clients' fixed header reads as ("user", "user123"), which the default store accepts |
| Gemini.EscapeChar | TranslatorResource/src/main/java/com/translator/service/GeminiAPIService.java:125-131 | each character other than `\ " LF CR TAB` is left as it is; no escape contains a raw LF, CR or TAB |
| Gemini.Escape | TranslatorResource/src/main/java/com/translator/service/GeminiAPIService.java:125-131 | the one-pass escaping has no raw LF, CR or TAB |
| Gemini.EscapeJsonIsEscape | TranslatorResource/src/main/java/com/translator/service/GeminiAPIService.java:125-131 | the fixed-order replace chain equals the one-pass escaping: the backslash first keeps each `\` as exactly `\\` |
| Gemini.UnescapeEscapeJson | TranslatorResource/src/main/java/com/translator/service/GeminiAPIService.java:125-131 | reading the escaped text back as a JSON string gives the input |
| Gemini.BuildPrompt | TranslatorResource/src/main/java/com/translator/service/GeminiAPIService.java:83-92 | the fixed instructions, then the text verbatim between the quotes after `English text: `, then the tail |
| Gemini.BuildRequestBody | TranslatorResource/src/main/java/com/translator/service/GeminiAPIService.java:94-100 | `{"contents":[{"parts":[{"text":"` + escaped prompt + `"}]}]}`; the middle unescapes to the prompt |
| Gemini.BodyCarriesText | TranslatorResource/src/main/java/com/translator/service/GeminiAPIService.java:83-100 | the English text is recovered unchanged from the request body |
| Gemini.ExtractTranslation | TranslatorResource/src/main/java/com/translator/service/GeminiAPIService.java:102-123 | the trimmed `candidates[0].content.parts[0].text` iff both arrays are non-empty; otherwise "Failed to parse Gemini API response: No translation found…"; unparsable JSON gives the parser's message after that prefix |
| Gemini.ExtractsFirstText | TranslatorResource/src/main/java/com/translator/service/GeminiAPIService.java:102-123 | a well-formed answer yields its text, trimmed |
| Gemini.Translate | TranslatorResource/src/main/java/com/translator/service/GeminiAPIService.java:56-81 | no request iff null or blank, and then "Text to translate cannot be empty". The POST goes to URL + "?key=" + key. An I/O error is wrapped as "Failed to communicate with Gemini API: "; so is a non-2xx status, as "… request failed: <code> - <body>". A 2xx gives the extraction's result |
| TranslatorResources.Translate | TranslatorResource/src/main/java/com/translator/resource/TranslatorResource.java:38-72 | null or blank text is a 400 "Text to translate is required", with the service not consulted. Translated is a 200 with the untrimmed request text and the service's text. Illegal argument is a 400 with its message; any other failure is a 500 "Translation service error: " + message |
| TranslatorResources.BadRequestOnlyForBlank | TranslatorResource/src/main/java/com/translator/resource/TranslatorResource.java:45-65 | with the Gemini service, 400 iff the request text is null or blank: the service's own guard never fires |
| TranslatorResources.ForwardsUntrimmedText | TranslatorResource/src/main/java/com/translator/resource/TranslatorResource.java:52-58 | the prompt sent upstream holds the request text untrimmed; a 200's translation has no blank at either end |
| TranslatorResources.HealthCheck | TranslatorResource/src/main/java/com/translator/resource/TranslatorResource.java:83-87 | always 200 "Translation service is running" |
| TranslatorResources.GetCurrentUser | TranslatorResource/src/main/java/com/translator/resource/TranslatorResource.java:97-103 | 200 with the principal's username, `admin` iff the principal holds ADMIN |
| Layers.AsciiChecksAgree | php-ClientApp/translate.php:75-85 | on ASCII text without blanks at its ends, the page and the proxy accept the same inputs, "0" aside |
| Layers.ZeroRefusedOnlyByProxy | php-ClientApp/translate.php:75 | "0" passes both pages and the background worker, is not blank for Java, and is refused by PHP's `empty` |
| Layers.AccentedTextRefusedByProxy | php-ClientApp/translate.php:85 | 5000 × 'é' passes the pages' 5000-character check but is 10000 bytes, so the proxy refuses it |
| Layers.ControlCharacterRefusedOnlyByResource | TranslatorResource/src/main/java/com/translator/resource/TranslatorResource.java:45 | U+0001 passes PHP's trim and is blank to Java's trim, so the resource answers 400 |
| Layers.PanelTextForwardedUnchanged | darija-translator-extension/background.js:78-91 | what the side panel sends, the background worker forwards unchanged |
| Text.Trim | php-ClientApp/js/script.js:91 | each runtime's trim: a contiguous infix, empty iff all blank, no blank at either end |
| Text.SplitOnce | TranslatorResource/src/main/java/com/translator/filter/AuthenticationFilter.java:55 | `split(":", 2)`: none iff no ':'; otherwise prefix, ':', rest, and the prefix has no ':' |
| Text.JavaSplit | TranslatorResource/src/main/java/com/translator/security/UserRepository.java:55 | `split(",")`: text without ',' gives itself; otherwise the pieces between commas with the trailing empty ones, and only those, dropped |
| Text.ReplaceChar | TranslatorResource/src/main/java/com/translator/service/GeminiAPIService.java:126 | `String.replace`: unchanged without the character; none left when the replacement lacks it |
| Base64.DecodeEncode | TranslatorResource/src/main/java/com/translator/security/PasswordEncoder.java:31-44 | Java's decoder reads back every encoding |
| Base64.Decode | TranslatorResource/src/main/java/com/translator/filter/AuthenticationFilter.java:47 | Java's basic decoder: the alphabet of section 4 of RFC 4648, optional exact padding, no lone final character |
| Utf8.DecodeEncode | TranslatorResource/src/main/java/com/translator/filter/AuthenticationFilter.java:48 | decoding UTF-8 bytes of a text gives the text back |

## Left out

- DOM rendering, `escapeHtml`, `renderHistory`, copying to the clipboard, the loading overlay's animation and focus handling: only the state the pages show is modelled.
- Storage serialisation: `JSON.stringify` and `JSON.parse` of the history are taken as lossless. The stored value is the list itself.
- `chrome.storage` is asynchronous. Its load is modelled as completing before the page is used.
- Transport is not modelled: `fetch`, cURL, OkHttp, JSON parsing of bodies (Jackson, `json_decode`, `response.json()`) and timeouts. Their outcomes are parameters.
- `Date.now()`, `System.currentTimeMillis()` and `microtime` are parameters. So is `toLocaleDateString` (the date text for entries older than a day).
- SHA-256 is a parameter `Digest`, and `SecureRandom` is a salt parameter. Properties that need the digest to be injective say so in their `requires`.
- `PasswordEncoding.Encode`: the `NoSuchAlgorithmException` path is not modelled, since SHA-256 is always present.
- `Proxy.CheckRequest`: a `text` that is a JSON array or object makes PHP's `trim` throw a `TypeError`. Its callers are required to pass a scalar.
- `Proxy.Route`: the router's `catch` is left out. No modelled operation throws inside it.
- Floating point: `processingTime` is an integer, and JSON numbers are integers.
- `UserRepositories.UserRepository.AddUser` requires a user name: `ConcurrentHashMap.put` with a null key throws, and this path is not modelled.
- `getAllUsers`, the singleton `getInstance`, concurrency of the account map, and the `IOException` from closing the properties stream are not modelled.
- `Users.User`: `getRoles` returns the mutable set itself. The model's `roles` is a set value, so aliasing through it is not captured.
- The security context's `isSecure` and `getAuthenticationScheme` are not modelled. Neither is the framework's `@RolesAllowed` check.
- The resource's logging of the user name is not modelled. A request without a principal (an NPE turned into a 500) cannot reach `translate` behind the filter, so that path is left out too.
- The `timestamp` of `ErrorResponse`, `HealthResponse` and `UserInfoResponse` is the clock reading passed in as `now`.
- `GeminiAPIService.loadApiKey` reads `config.properties`. The key is a parameter here.
- Not part of this model: `ApplicationConfig`, `PasswordGeneratorUtil`, the extension's context-menu installation and content script, and `index.php`. The `LLMService` interface is the function parameter `llm`.
- `Gemini.EscapeJson` escapes only five characters. Other control characters (U+0000–U+001F besides LF, CR and TAB) pass through raw. The model states this and does not claim the body is valid JSON for them.

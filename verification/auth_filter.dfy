/**
 * The request filter of the translation API (filter/AuthenticationFilter.java):
 * HTTP Basic authentication as section 2 of RFC 7617 describes it. The
 * `Authorization` header is read, its Base64 token (section 4 of RFC 4648)
 * decoded as UTF-8 and split at the first ':'; the account store decides. The
 * outcome is written into the request context: an abort with a 401 answer, or
 * the security context of the authenticated user.
 */
module AuthFilter {
  import opened Wrappers
  import opened Users
  import opened UserRepositories
  import Text
  import Utf8
  import Base64
  import Api

  const Scheme: string := "Basic"
  const Realm: string := "Darija Translator API"

  const MissingHeader: string := "Missing or invalid Authorization header"
  const InvalidBase64: string := "Invalid Base64 encoding"
  const InvalidFormat: string := "Invalid credentials format"
  const InvalidUser: string := "Invalid username or password"

  /**
   * The answer a request is aborted with: its status, `WWW-Authenticate` header,
   * and the body's `error` text and `timestamp` (milliseconds).
   */
  datatype ErrorResponse = ErrorResponse(status: int, wwwAuthenticate: string, error: string, timestamp: int)

  /**
   * `abortWithUnauthorized(message)` at time `now`: 401, the Basic challenge with
   * the realm, "Unauthorized: " and the message, stamped with the clock.
   */
  function Unauthorized(message: string, now: int): (r: ErrorResponse)
    ensures r.status == 401
    ensures r.timestamp == now
    ensures r.wwwAuthenticate == "Basic realm=\"Darija Translator API\""
    ensures Text.StartsWith(r.error, "Unauthorized: ") && r.error[|"Unauthorized: "|..] == message
  {
    PrefixThen("Unauthorized: ", message);
    Challenge();
    ErrorResponse(401, Scheme + " realm=\"" + Realm + "\"", "Unauthorized: " + message, now)
  }

  /** The challenge spelled out. */
  lemma Challenge()
    ensures Scheme + " realm=\"" + Realm + "\"" == "Basic realm=\"Darija Translator API\""
  {
  }

  lemma PrefixThen(prefix: string, rest: string)
    ensures Text.StartsWith(prefix + rest, prefix) && (prefix + rest)[|prefix|..] == rest
  {
    assert (prefix + rest)[..|prefix|] == prefix;
  }

  /** The token of a header that starts with "Basic ": what follows "Basic", trimmed as Java trims. */
  function Token(header: string): string
    requires Text.StartsWith(header, Scheme + " ")
  {
    Text.Trim(Text.Java, header[|Scheme|..])
  }

  /**
   * The user name and password a header carries, or the reason it is refused:
   * no header or another scheme; a token Java's decoder refuses; decoded text
   * without a ':'. The split is at the first ':', so the password may hold ':'.
   */
  function ReadCredentials(header: Option<string>): (r: Result<(string, string), string>)
    ensures header.None? || !Text.StartsWith(header.value, Scheme + " ") ==> r == Err(MissingHeader)
    ensures header.Some? && Text.StartsWith(header.value, Scheme + " ") ==>
      && (Base64.Decode(Token(header.value)).None? ==> r == Err(InvalidBase64))
      && (Base64.Decode(Token(header.value)).Some? ==>
            var text := Utf8.Decode(Base64.Decode(Token(header.value)).value);
            && (':' !in text ==> r == Err(InvalidFormat))
            && (':' in text ==> r.Ok?)
            && (r.Ok? ==> text == r.value.0 + ":" + r.value.1 && ':' !in r.value.0))
    ensures r.Err? ==> r.error in {MissingHeader, InvalidBase64, InvalidFormat}
  {
    if header.None? || !Text.StartsWith(header.value, Scheme + " ") then Err(MissingHeader)
    else
      match Base64.Decode(Token(header.value))
      case None => Err(InvalidBase64)
      case Some(bytes) =>
        match Text.SplitOnce(Utf8.Decode(bytes), ':')
        case None => Err(InvalidFormat)
        case Some(pair) => Ok(pair)
  }

  /** Two ways of writing a string as a prefix without `c`, then `c`, then a rest, are the same. */
  lemma SplitUnique(a: string, b: string, u: string, p: string, c: char)
    requires a + [c] + b == u + [c] + p
    requires c !in a && c !in u
    ensures a == u && b == p
  {
    var s := a + [c] + b;
    assert s[|a|] == c && s[|u|] == c;
    assert a == s[..|a|] && u == s[..|u|];
    assert b == s[|a| + 1..] && p == s[|u| + 1..];
  }

  /** An encoding has no character Java's trim removes. */
  lemma EncodingHasNoSpace(bytes: seq<Utf8.Byte>)
    ensures forall i | 0 <= i < |Base64.Encode(bytes)| :: !Text.IsJavaSpace(Base64.Encode(bytes)[i])
  {
    var unpadded := Base64.EncodeUnpadded(bytes);
    var e := Base64.Encode(bytes);
    forall i | 0 <= i < |e| ensures !Text.IsJavaSpace(e[i]) {
      if i < |unpadded| {
        assert e[i] == unpadded[i] && Base64.IsAlphabet(unpadded[i]);
      } else {
        assert e[i] == Base64.Padding(|bytes|)[i - |unpadded|];
      }
    }
  }

  /**
   * Round trip with the clients: a header built as they build it, from a user
   * name without ':' and any password, reads back as that name and password.
   */
  lemma ReadsBackCredentials(username: string, password: string)
    requires ':' !in username
    ensures ReadCredentials(Some("Basic " + Api.PhpBase64Encode(Api.Credentials(username, password))))
      == Ok((username, password))
  {
    var credentials := Api.Credentials(username, password);
    var encoded := Api.PhpBase64Encode(credentials);
    HeaderToken(encoded, Utf8.Encode(credentials));
    Utf8.DecodeEncode(credentials);
    SplitCredentials(username, password);
  }

  /** A header built from an encoding starts with "Basic " and has that encoding as its token. */
  lemma HeaderToken(encoded: string, bytes: seq<Utf8.Byte>)
    requires encoded == Base64.Encode(bytes)
    ensures Text.StartsWith("Basic " + encoded, Scheme + " ")
    ensures Token("Basic " + encoded) == encoded
  {
    var header := "Basic " + encoded;
    assert header[..|Scheme + " "|] == Scheme + " ";
    assert header[|Scheme|..] == " " + encoded;
    TokenOfEncoding(encoded, bytes);
  }

  /** Credentials whose user name has no ':' split back into the name and the password. */
  lemma SplitCredentials(username: string, password: string)
    requires ':' !in username
    ensures Text.SplitOnce(Api.Credentials(username, password), ':') == Some((username, password))
  {
    var credentials := Api.Credentials(username, password);
    assert credentials == username + [':'] + password;
    var split := Text.SplitOnce(credentials, ':');
    assert credentials[|username|] == ':';
    SplitUnique(split.value.0, split.value.1, username, password, ':');
  }

  lemma TokenOfEncoding(encoded: string, bytes: seq<Utf8.Byte>)
    requires encoded == Base64.Encode(bytes)
    ensures Text.Trim(Text.Java, " " + encoded) == encoded
  {
    EncodingHasNoSpace(bytes);
    assert (" " + encoded)[1..] == encoded;
    Text.TrimFixed(Text.Java, encoded);
  }

  /** The request as the filter sees it, and what the filter writes into it. */
  class RequestContext {
    const path: string                  // `getUriInfo().getPath()`
    const authorization: Option<string> // the `Authorization` header
    var aborted: Option<ErrorResponse>  // set by `abortWith`
    var principal: Option<User>         // the user of the security context set by the filter

    constructor (path: string, authorization: Option<string>)
      ensures this.path == path && this.authorization == authorization
      ensures aborted == None && principal == None
    {
      this.path, this.authorization := path, authorization;
      aborted, principal := None, None;
    }

    /** `getUserPrincipal().getName()` of the security context the filter set. */
    function PrincipalName(): (name: Option<string>)
      requires principal.Some?
      reads this, principal.value
      ensures name == principal.value.username
    {
      principal.value.username
    }

    /** `isUserInRole(role)` of the security context the filter set: the user's `hasRole`. */
    predicate IsUserInRole(role: string)
      requires principal.Some?
      reads this, principal.value
    {
      principal.value.HasRole(role)
    }
  }

  class AuthenticationFilter {
    const repository: UserRepository

    constructor (repository: UserRepository)
      ensures this.repository == repository
    {
      this.repository := repository;
    }

    /**
     * `filter(requestContext)`: a path ending in "/health" passes untouched. Any
     * other request is aborted with a 401 for a refused header, or for
     * credentials the account store does not accept; otherwise its security
     * context becomes that of the accepted account. `now` is the clock the
     * answer's timestamp is read from.
     */
    method Filter(context: RequestContext, now: int)
      modifies context
      ensures Text.EndsWith(context.path, "/health") ==>
        context.aborted == old(context.aborted) && context.principal == old(context.principal)
      ensures !Text.EndsWith(context.path, "/health") && ReadCredentials(context.authorization).Err? ==>
        context.aborted == Some(Unauthorized(ReadCredentials(context.authorization).error, now))
        && context.principal == old(context.principal)
      ensures !Text.EndsWith(context.path, "/health") && ReadCredentials(context.authorization).Ok? ==>
        var (username, password) := ReadCredentials(context.authorization).value;
        && (repository.Accepts(username, password) ==>
              context.principal == Some(repository.users[username]) && context.aborted == old(context.aborted))
        && (!repository.Accepts(username, password) ==>
              context.aborted == Some(Unauthorized(InvalidUser, now)) && context.principal == old(context.principal))
    {
      if Text.EndsWith(context.path, "/health") {
        return;
      }
      match ReadCredentials(context.authorization) {
        case Err(message) =>
          context.aborted := Some(Unauthorized(message, now));
        case Ok((username, password)) =>
          var user := repository.Authenticate(username, password);
          if user.None? {
            context.aborted := Some(Unauthorized(InvalidUser, now));
          } else {
            context.principal := user;
          }
      }
    }

    /** The clients' fixed header is accepted when the store holds the default accounts. */
    lemma ClientsAccepted(adminSalt: seq<Utf8.Byte>, userSalt: seq<Utf8.Byte>)
      requires |adminSalt| == 16 && |userSalt| == 16
      requires repository.HoldsDefaults(adminSalt, userSalt)
      ensures ReadCredentials(Some(Api.AuthHeader())) == Ok(("user", "user123"))
      ensures repository.Accepts("user", "user123")
    {
      assert ':' !in "user";
      ReadsBackCredentials(Api.Username, Api.Password);
      repository.DefaultsAccepted(adminSalt, userSalt);
    }
  }
}

/**
 * What the two callers of the translation API (the extension's background worker
 * and the PHP proxy) share: the endpoints, the fixed credentials, the Basic
 * `Authorization` header of section 2 of RFC 7617, and the shape of a request.
 */
module Api {
  import opened Wrappers
  import opened Json
  import Utf8
  import Base64
  import Text

  const BaseUrl: string := "http://localhost:8080/translator/api"
  const TranslateEndpoint: string := BaseUrl + "/translator/translate"
  const HealthEndpoint: string := BaseUrl + "/translator/health"

  /** The request timeout of the proxy, in seconds. */
  const TimeoutSeconds: nat := 60

  const Username: string := "user"
  const Password: string := "user123"

  /** A request to the API: URL, method, the `Authorization` header when one is sent, and the JSON body. */
  datatype ApiCall = ApiCall(url: string, httpMethod: string, authorization: Option<string>, body: Option<Json>)

  /** The `user-id ":" password` credentials of section 2 of RFC 7617. */
  function Credentials(user: string, password: string): string {
    user + ":" + password
  }

  /** The browser's `btoa`: Base64 of the Latin-1 bytes; an `InvalidCharacterError` above U+00FF. */
  function Btoa(s: string): (r: Option<string>)
    ensures r.Some? <==> forall i | 0 <= i < |s| :: s[i] as int < 0x100
    ensures r.Some? ==> Base64.Decode(r.value) == Utf8.Latin1(s)
  {
    match Utf8.Latin1(s)
    case None => None
    case Some(bytes) =>
      Base64.DecodeEncode(bytes);
      Some(Base64.Encode(bytes))
  }

  /** PHP's `base64_encode` of a PHP string, whose bytes are the UTF-8 encoding of the text. */
  function PhpBase64Encode(s: string): (r: string)
    ensures Base64.Decode(r) == Some(Utf8.Encode(s))
  {
    Base64.DecodeEncode(Utf8.Encode(s));
    Base64.Encode(Utf8.Encode(s))
  }

  predicate IsAscii(s: string) {
    forall i | 0 <= i < |s| :: s[i] as int < 0x80
  }

  /** On ASCII credentials, the browser's and PHP's encodings are the same text. */
  lemma BtoaIsPhpEncodingOnAscii(s: string)
    requires IsAscii(s)
    ensures Btoa(s) == Some(PhpBase64Encode(s))
  {
    Utf8.AsciiLatin1IsUtf8(s);
  }

  /** The header value both callers send: "Basic " and the encoded credentials. */
  function AuthHeader(): (h: string)
    ensures Text.StartsWith(h, "Basic ")
    ensures Base64.Decode(h[6..]) == Some(Utf8.Encode(Credentials(Username, Password)))
  {
    var h := "Basic " + PhpBase64Encode(Credentials(Username, Password));
    assert h[6..] == PhpBase64Encode(Credentials(Username, Password));
    assert h[..6] == "Basic ";
    h
  }

  /** The header is the constant "Basic dXNlcjp1c2VyMTIz". */
  lemma AuthHeaderValue()
    ensures AuthHeader() == "Basic dXNlcjp1c2VyMTIz"
  {
    assert Credentials(Username, Password) == "user:user123";
    CredentialBytes();
    EncodedCredentials();
    Literals();
  }

  lemma CredentialBytes()
    ensures Utf8.Encode("user:user123") == [117, 115, 101, 114, 58, 117, 115, 101, 114, 49, 50, 51]
  {
    AsciiBytes("user:user123", [117, 115, 101, 114, 58, 117, 115, 101, 114, 49, 50, 51]);
  }

  /** ASCII text encodes to the bytes of its code points. */
  lemma AsciiBytes(s: string, bytes: seq<Utf8.Byte>)
    requires |s| == |bytes| && forall i | 0 <= i < |s| :: s[i] as int == bytes[i] < 0x80
    ensures Utf8.Encode(s) == bytes
  {
    Utf8.EncodeAscii(s);
  }

  lemma EncodedCredentials()
    ensures Base64.Encode([117, 115, 101, 114, 58, 117, 115, 101, 114, 49, 50, 51]) == "dXNl" + ("cjp1" + ("c2Vy" + "MTIz"))
  {
    var bytes: seq<Utf8.Byte> := [117, 115, 101, 114, 58, 117, 115, 101, 114, 49, 50, 51];
    Triple(117, 115, 101, 29, 23, 13, 37, "dXNl");
    Triple(114, 58, 117, 28, 35, 41, 53, "cjp1");
    Triple(115, 101, 114, 28, 54, 21, 50, "c2Vy");
    Triple(49, 50, 51, 12, 19, 8, 51, "MTIz");
    assert bytes[9..][3..] == [] && bytes[6..][3..] == bytes[9..] && bytes[3..][3..] == bytes[6..];
    var u3 := Base64.EncodeUnpadded(bytes[9..]);
    var u2 := Base64.EncodeUnpadded(bytes[6..]);
    var u1 := Base64.EncodeUnpadded(bytes[3..]);
    var u0 := Base64.EncodeUnpadded(bytes);
    assert u3 == "MTIz";
    assert u2 == "c2Vy" + u3;
    assert u1 == "cjp1" + u2;
    assert u0 == "dXNl" + u1;
    assert Base64.Padding(|bytes|) == "";
    assert Base64.Encode(bytes) == u0 + "";
  }

  lemma Literals()
    ensures "dXNl" + ("cjp1" + ("c2Vy" + "MTIz")) == "dXNlcjp1c2VyMTIz"
    ensures "Basic " + "dXNlcjp1c2VyMTIz" == "Basic dXNlcjp1c2VyMTIz"
  {
  }

  lemma Triple(b0: Utf8.Byte, b1: Utf8.Byte, b2: Utf8.Byte, v0: nat, v1: nat, v2: nat, v3: nat, g: string)
    requires v0 == b0 / 4 && v1 == (b0 % 4) * 16 + b1 / 16 && v2 == (b1 % 16) * 4 + b2 / 64 && v3 == b2 % 64
    requires v0 < 64 && v1 < 64 && v2 < 64 && v3 < 64
    requires g == [Base64.Char(v0), Base64.Char(v1), Base64.Char(v2), Base64.Char(v3)]
    ensures Base64.EncodeTriple(b0, b1, b2) == g
  {
  }
}

/**
 * Base64 with the standard alphabet of section 4 of RFC 4648.
 * The encoder pads with '=' (Java's `Base64.getEncoder()`, PHP's `base64_encode`,
 * the browser's `btoa`); the decoder accepts exactly what Java's
 * `Base64.getDecoder()` accepts: padding is optional, but when present it must
 * be the exact tail of the last unit, and nothing may follow it.
 */
module Base64 {
  import opened Wrappers
  import opened Utf8
  import Text

  predicate IsAlphabet(c: char) {
    ('A' <= c <= 'Z') || ('a' <= c <= 'z') || ('0' <= c <= '9') || c == '+' || c == '/'
  }

  predicate AllAlphabet(s: string) {
    forall i | 0 <= i < |s| :: IsAlphabet(s[i])
  }

  /** The character for a 6-bit value. */
  function Char(v: nat): (c: char)
    requires v < 64
    ensures IsAlphabet(c)
  {
    if v < 26 then ('A' as int + v) as char
    else if v < 52 then ('a' as int + (v - 26)) as char
    else if v < 62 then ('0' as int + (v - 52)) as char
    else if v == 62 then '+'
    else '/'
  }

  /** The 6-bit value of an alphabet character. */
  function Value(c: char): (v: nat)
    requires IsAlphabet(c)
    ensures v < 64
  {
    if 'A' <= c <= 'Z' then c as int - 'A' as int
    else if 'a' <= c <= 'z' then c as int - 'a' as int + 26
    else if '0' <= c <= '9' then c as int - '0' as int + 52
    else if c == '+' then 62
    else 63
  }

  lemma ValueOfChar(v: nat)
    requires v < 64
    ensures Value(Char(v)) == v
  {
  }

  /** Three bytes as four characters. */
  function EncodeTriple(b0: Byte, b1: Byte, b2: Byte): (g: string)
    ensures |g| == 4 && AllAlphabet(g)
  {
    [Char(b0 / 4), Char((b0 % 4) * 16 + b1 / 16), Char((b1 % 16) * 4 + b2 / 64), Char(b2 % 64)]
  }

  /** The alphabet characters of the encoding, without padding. */
  function EncodeUnpadded(b: seq<Byte>): (s: string)
    ensures AllAlphabet(s)
    ensures |s| % 4 == (if |b| % 3 == 0 then 0 else |b| % 3 + 1)
    decreases |b|
  {
    if |b| == 0 then []
    else if |b| == 1 then EncodeTriple(b[0], 0, 0)[..2]
    else if |b| == 2 then EncodeTriple(b[0], b[1], 0)[..3]
    else
      var rest := EncodeUnpadded(b[3..]);
      assert |b[3..]| % 3 == |b| % 3;
      assert (4 + |rest|) % 4 == |rest| % 4;
      EncodeTriple(b[0], b[1], b[2]) + rest
  }

  /** The '=' characters that complete the last unit of four. */
  function Padding(n: nat): string {
    if n % 3 == 1 then "==" else if n % 3 == 2 then "=" else ""
  }

  /** Base64 encoding with padding. */
  function Encode(b: seq<Byte>): (s: string)
    ensures |s| % 4 == 0
  {
    var u, p := EncodeUnpadded(b), Padding(|b|);
    CompletesUnit(|u|, |p|);
    u + p
  }

  /** Adding the characters a short last unit lacks completes it. */
  lemma CompletesUnit(n: nat, k: nat)
    requires (n % 4 == 0 && k == 0) || n % 4 + k == 4
    ensures (n + k) % 4 == 0
  {
  }

  /** Every three bytes, and a last one or two, take four characters. */
  lemma EncodeLength(b: seq<Byte>)
    ensures |Encode(b)| == 4 * ((|b| + 2) / 3)
  {
    UnpaddedLength(b);
    var q, r := |b| / 3, |b| % 3;
    assert |b| == 3 * q + r;
    assert |Encode(b)| == |EncodeUnpadded(b)| + |Padding(|b|)|;
    if r == 0 {
      assert (|b| + 2) / 3 == q;
    } else {
      assert (|b| + 2) / 3 == q + 1;
    }
  }

  /** Each byte takes a character, and each started group of three one more. */
  lemma {:induction false} UnpaddedLength(b: seq<Byte>)
    ensures |EncodeUnpadded(b)| == |b| + (|b| + 2) / 3
    decreases |b|
  {
    if |b| >= 3 {
      var n := |b| - 3;
      UnpaddedLength(b[3..]);
      assert |EncodeUnpadded(b)| == 4 + |EncodeUnpadded(b[3..])|;
      assert (n + 5) / 3 == (n + 2) / 3 + 1;
    }
  }

  /** The bytes of four alphabet characters. */
  function DecodeQuad(g: string): (b: seq<Byte>)
    requires |g| == 4 && AllAlphabet(g)
    ensures |b| == 3
  {
    var v0, v1, v2, v3 := Value(g[0]), Value(g[1]), Value(g[2]), Value(g[3]);
    [v0 * 4 + v1 / 16, (v1 % 16) * 16 + v2 / 4, (v2 % 4) * 64 + v3]
  }

  /** The bytes of a run of alphabet characters (of a length that is not 1 modulo 4). */
  function DecodeUnpadded(s: string): (b: seq<Byte>)
    requires AllAlphabet(s) && |s| % 4 != 1
    decreases |s|
  {
    if |s| == 0 then []
    else if |s| == 2 then DecodeQuad(s + "AA")[..1]
    else if |s| == 3 then DecodeQuad(s + "A")[..2]
    else DecodeQuad(s[..4]) + DecodeUnpadded(s[4..])
  }

  /**
   * `Base64.getDecoder().decode(s)`: `None` where Java throws IllegalArgumentException.
   * The data part runs up to the first '='; what follows must be the exact padding.
   */
  function Decode(s: string): (r: Option<seq<Byte>>)
    ensures r.Some? ==> '=' in s || (AllAlphabet(s) && |s| % 4 != 1)
  {
    var i := Text.FirstIndex(s, '=');
    var data, pad := s[..i], s[i..];
    if !AllAlphabet(data) || |data| % 4 == 1 then None
    else if pad == "" || (|data| % 4 == 2 && pad == "==") || (|data| % 4 == 3 && pad == "=") then
      assert pad == "" ==> data == s;
      Some(DecodeUnpadded(data))
    else None
  }

  /** Four characters decode to the three bytes they encode. */
  lemma DecodeTriple(b0: Byte, b1: Byte, b2: Byte)
    ensures DecodeQuad(EncodeTriple(b0, b1, b2)) == [b0, b1, b2]
  {
    ValueOfChar(b0 / 4);
    ValueOfChar((b0 % 4) * 16 + b1 / 16);
    ValueOfChar((b1 % 16) * 4 + b2 / 64);
    ValueOfChar(b2 % 64);
    assert ((b0 % 4) * 16 + b1 / 16) / 16 == b0 % 4;
    assert ((b0 % 4) * 16 + b1 / 16) % 16 == b1 / 16;
    assert ((b1 % 16) * 4 + b2 / 64) / 4 == b1 % 16;
    assert ((b1 % 16) * 4 + b2 / 64) % 4 == b2 / 64;
  }

  /** A short last unit decodes as if completed with 'A's, which stand for zero bits. */
  lemma DecodeShort(b0: Byte, b1: Byte, n: nat)
    requires n == 2 || n == 3
    requires n == 2 ==> b1 == 0
    ensures EncodeTriple(b0, b1, 0)[..n] + (if n == 2 then "AA" else "A") == EncodeTriple(b0, b1, 0)
  {
    assert Char(0) == 'A';
    var g := EncodeTriple(b0, b1, 0);
    if n == 2 {
      assert (0 % 16) * 4 + 0 / 64 == 0;
    }
  }

  lemma {:induction false} DecodeEncodeUnpadded(b: seq<Byte>)
    ensures DecodeUnpadded(EncodeUnpadded(b)) == b
    decreases |b|
  {
    if |b| == 1 {
      DecodeShort(b[0], 0, 2);
      DecodeTriple(b[0], 0, 0);
    } else if |b| == 2 {
      DecodeShort(b[0], b[1], 3);
      DecodeTriple(b[0], b[1], 0);
    } else if |b| >= 3 {
      DecodeEncodeUnpadded(b[3..]);
      DecodeEncodeFullUnit(b);
    }
  }

  lemma {:induction false} DecodeEncodeFullUnit(b: seq<Byte>)
    requires |b| >= 3
    requires DecodeUnpadded(EncodeUnpadded(b[3..])) == b[3..]
    ensures DecodeUnpadded(EncodeUnpadded(b)) == b
    decreases |b|, 0
  {
    DecodeFirstUnit(b);
    DecodeTriple(b[0], b[1], b[2]);
    FirstThree(b);
  }

  lemma FirstThree(b: seq<Byte>)
    requires |b| >= 3
    ensures b == [b[0], b[1], b[2]] + b[3..]
  {
  }

  /** The first four characters of an encoding of three bytes or more decode on their own. */
  lemma DecodeFirstUnit(b: seq<Byte>)
    requires |b| >= 3
    ensures DecodeUnpadded(EncodeUnpadded(b))
      == DecodeQuad(EncodeTriple(b[0], b[1], b[2])) + DecodeUnpadded(EncodeUnpadded(b[3..]))
  {
    var g, t := EncodeTriple(b[0], b[1], b[2]), EncodeUnpadded(b[3..]);
    var s := EncodeUnpadded(b);
    assert s == g + t;
    assert s[..4] == g && s[4..] == t;
  }

  /** The padding never starts inside the data: the first '=' of an encoding begins the padding. */
  lemma EncodeSplitsAtPadding(b: seq<Byte>)
    ensures var s := Encode(b); var u := EncodeUnpadded(b);
      Text.FirstIndex(s, '=') == |u| && s[..|u|] == u && s[|u|..] == Padding(|b|)
  {
    var u, p := EncodeUnpadded(b), Padding(|b|);
    var s := u + p;
    assert '=' !in u;
    assert s[..|u|] == u && s[|u|..] == p;
    if p != "" {
      assert s[|u|] == '=';
    }
  }

  /** Java's decoder gives back exactly the bytes that were encoded. */
  lemma DecodeEncode(b: seq<Byte>)
    ensures Decode(Encode(b)) == Some(b)
  {
    var u, p := EncodeUnpadded(b), Padding(|b|);
    EncodeSplitsAtPadding(b);
    assert |u| % 4 == 0 <==> p == "";
    assert |u| % 4 == 2 <==> p == "==";
    assert |u| % 4 == 3 <==> p == "=";
    DecodeEncodeUnpadded(b);
  }

  /** The encoding of `b` determines `b`. */
  lemma EncodeInjective(a: seq<Byte>, b: seq<Byte>)
    requires Encode(a) == Encode(b)
    ensures a == b
  {
    DecodeEncode(a);
    DecodeEncode(b);
  }
}

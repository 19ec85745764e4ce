/**
 * UTF-8 as Java uses it: `String.getBytes(UTF_8)` and `new String(bytes, UTF_8)`,
 * the decoder replacing each maximal ill-formed subpart by U+FFFD; and the
 * Latin-1 "binary string" view that the browser's `btoa` takes.
 */
module Utf8 {
  import opened Wrappers
  import Text

  type Byte = b: int | 0 <= b < 256

  const Replacement: char := '\U{FFFD}'

  predicate IsContinuation(b: Byte) {
    0x80 <= b < 0xC0
  }

  /** The bytes of one code point. */
  function EncodeChar(c: char): (bs: seq<Byte>)
    ensures |bs| == Text.Utf8Width(c)
  {
    var n := c as int;
    if n < 0x80 then [n]
    else if n < 0x800 then [0xC0 + n / 64, 0x80 + n % 64]
    else if n < 0x10000 then [0xE0 + n / 4096, 0x80 + (n / 64) % 64, 0x80 + n % 64]
    else [0xF0 + n / 262144, 0x80 + (n / 4096) % 64, 0x80 + (n / 64) % 64, 0x80 + n % 64]
  }

  /** `String.getBytes(StandardCharsets.UTF_8)`. */
  function Encode(s: string): (bs: seq<Byte>)
    ensures |bs| == Text.Utf8Length(s)
  {
    if |s| == 0 then [] else EncodeChar(s[0]) + Encode(s[1..])
  }

  lemma {:induction false} EncodeAppend(s: string, t: string)
    ensures Encode(s + t) == Encode(s) + Encode(t)
  {
    if |s| == 0 {
      assert s + t == t;
    } else {
      assert (s + t)[1..] == s[1..] + t;
      EncodeAppend(s[1..], t);
    }
  }

  /** The length of a well-formed sequence that starts with `b`, 0 when `b` cannot start one. */
  function SequenceLength(b: Byte): nat {
    if b < 0x80 then 1
    else if 0xC2 <= b <= 0xDF then 2
    else if 0xE0 <= b <= 0xEF then 3
    else if 0xF0 <= b <= 0xF4 then 4
    else 0
  }

  /** Whether `b` may follow lead byte `lead` as the second byte (Table 3-7 of the Unicode Standard). */
  predicate SecondByteOk(lead: Byte, b: Byte) {
    if lead == 0xE0 then 0xA0 <= b <= 0xBF
    else if lead == 0xED then 0x80 <= b <= 0x9F
    else if lead == 0xF0 then 0x90 <= b <= 0xBF
    else if lead == 0xF4 then 0x80 <= b <= 0x8F
    else IsContinuation(b)
  }

  /** How many bytes after the lead byte at `bs[0]` continue a well-formed sequence. */
  function ValidTail(bs: seq<Byte>, n: nat): (k: nat)
    requires |bs| >= 1 && 2 <= n <= 4
    ensures k <= n - 1 && k < |bs|
  {
    if |bs| < 2 || !SecondByteOk(bs[0], bs[1]) then 0
    else if n == 2 || |bs| < 3 || !IsContinuation(bs[2]) then 1
    else if n == 3 || |bs| < 4 || !IsContinuation(bs[3]) then 2
    else 3
  }

  /** The code point of a complete well-formed sequence of `n` bytes at the start of `bs`. */
  function Assemble(bs: seq<Byte>, n: nat): (c: char)
    requires 2 <= n <= 4 && |bs| >= n && SequenceLength(bs[0]) == n && ValidTail(bs, n) == n - 1
  {
    var b0, b1: int := bs[0], bs[1];
    if n == 2 then ((b0 - 0xC0) * 64 + (b1 - 0x80)) as char
    else
      var b2: int := bs[2];
      if n == 3 then ((b0 - 0xE0) * 4096 + (b1 - 0x80) * 64 + (b2 - 0x80)) as char
      else
        var b3: int := bs[3];
        ((b0 - 0xF0) * 262144 + (b1 - 0x80) * 4096 + (b2 - 0x80) * 64 + (b3 - 0x80)) as char
  }

  /** `new String(bytes, StandardCharsets.UTF_8)`. */
  function Decode(bs: seq<Byte>): string
    decreases |bs|
  {
    if |bs| == 0 then ""
    else
      var n := SequenceLength(bs[0]);
      if n == 0 then [Replacement] + Decode(bs[1..])
      else if n == 1 then [bs[0] as char] + Decode(bs[1..])
      else
        var k := ValidTail(bs, n);
        if k == n - 1 then [Assemble(bs, n)] + Decode(bs[n..])
        else [Replacement] + Decode(bs[1 + k..])
  }

  /** The decoder reads back one encoded code point and carries on with the rest. */
  lemma DecodeChar(c: char, rest: seq<Byte>)
    ensures Decode(EncodeChar(c) + rest) == [c] + Decode(rest)
  {
    var bs := EncodeChar(c) + rest;
    var n := |EncodeChar(c)|;
    assert bs[n..] == rest;
    if n == 2 {
      DecodeTwo(c, bs);
    } else if n == 3 {
      DecodeThree(c, bs);
    } else if n == 4 {
      DecodeFour(c, bs);
    }
  }

  lemma DecodeTwo(c: char, bs: seq<Byte>)
    requires |bs| >= 2 && 0x80 <= c as int < 0x800 && bs[..2] == EncodeChar(c)
    ensures SequenceLength(bs[0]) == 2 && ValidTail(bs, 2) == 1 && Assemble(bs, 2) == c
  {
    assert bs[0] == EncodeChar(c)[0] && bs[1] == EncodeChar(c)[1];
  }

  lemma DecodeThree(c: char, bs: seq<Byte>)
    requires |bs| >= 3 && 0x800 <= c as int < 0x10000 && bs[..3] == EncodeChar(c)
    ensures SequenceLength(bs[0]) == 3 && ValidTail(bs, 3) == 2 && Assemble(bs, 3) == c
  {
    var n := c as int;
    assert bs[0] == 0xE0 + n / 4096 && bs[1] == 0x80 + (n / 64) % 64 && bs[2] == 0x80 + n % 64 by {
      assert bs[0] == EncodeChar(c)[0] && bs[1] == EncodeChar(c)[1] && bs[2] == EncodeChar(c)[2];
    }
    assert n == (n / 4096) * 4096 + ((n / 64) % 64) * 64 + n % 64;
  }

  lemma DecodeFour(c: char, bs: seq<Byte>)
    requires |bs| >= 4 && 0x10000 <= c as int && bs[..4] == EncodeChar(c)
    ensures SequenceLength(bs[0]) == 4 && ValidTail(bs, 4) == 3 && Assemble(bs, 4) == c
  {
    var n := c as int;
    assert bs[0] == EncodeChar(c)[0] && bs[1] == EncodeChar(c)[1];
    assert bs[2] == EncodeChar(c)[2] && bs[3] == EncodeChar(c)[3];
    FourByteDigits(n);
  }

  /** The base-64 digits of a supplementary code point, as the four-byte form spreads them. */
  lemma FourByteDigits(n: int)
    requires 0x10000 <= n < 0x110000
    ensures 0 <= n / 262144 <= 4
    ensures n / 262144 == 0 ==> (n / 4096) % 64 >= 0x10
    ensures n / 262144 == 4 ==> (n / 4096) % 64 < 0x10
    ensures n == (n / 262144) * 262144 + ((n / 4096) % 64) * 4096 + ((n / 64) % 64) * 64 + n % 64
  {
    var q := n / 4096;
    assert q == (n / 262144) * 64 + q % 64;
    assert n == q * 4096 + ((n / 64) % 64) * 64 + n % 64;
  }

  /** Decoding what was encoded gives back the string. */
  lemma {:induction false} DecodeEncode(s: string)
    ensures Decode(Encode(s)) == s
  {
    if |s| > 0 {
      DecodeChar(s[0], Encode(s[1..]));
      DecodeEncode(s[1..]);
    }
  }

  /** An ASCII string encodes to its own code points, one byte each. */
  lemma {:induction false} EncodeAscii(s: string)
    requires forall i | 0 <= i < |s| :: s[i] as int < 0x80
    ensures |Encode(s)| == |s|
    ensures forall i | 0 <= i < |s| :: Encode(s)[i] == s[i] as int
  {
    if |s| > 0 {
      EncodeAscii(s[1..]);
      assert Encode(s) == [s[0] as int] + Encode(s[1..]);
    }
  }

  /** The browser's view of a string as bytes for `btoa`: fails on any code point above U+00FF. */
  function Latin1(s: string): (r: Option<seq<Byte>>)
    ensures r.Some? <==> forall i | 0 <= i < |s| :: s[i] as int < 0x100
    ensures r.Some? ==> |r.value| == |s|
  {
    if |s| == 0 then Some([])
    else if s[0] as int >= 0x100 then None
    else
      match Latin1(s[1..])
      case None => None
      case Some(t) => Some([s[0] as int] + t)
  }

  /** On ASCII text the Latin-1 and UTF-8 views coincide. */
  lemma {:induction false} AsciiLatin1IsUtf8(s: string)
    requires forall i | 0 <= i < |s| :: s[i] as int < 0x80
    ensures Latin1(s) == Some(Encode(s))
  {
    if |s| > 0 { AsciiLatin1IsUtf8(s[1..]); }
  }
}

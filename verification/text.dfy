/**
 * String operations of the three runtimes the system is written for (JavaScript,
 * Java and PHP), written out so that their differences are visible.
 * Strings are sequences of Unicode scalar values.
 */
module Text {
  import opened Wrappers

  /** Whose notion of "whitespace" a trim uses. */
  datatype Runtime = Js | Java | Php

  /** `String.prototype.trim`: the WhiteSpace and LineTerminator code points of ECMAScript. */
  predicate IsJsSpace(c: char) {
    c == '\t' || c == '\n' || c == '\U{000B}' || c == '\U{000C}' || c == '\r' || c == ' '
    || c == '\U{00A0}' || c == '\U{1680}' || ('\U{2000}' <= c <= '\U{200A}')
    || c == '\U{2028}' || c == '\U{2029}' || c == '\U{202F}' || c == '\U{205F}'
    || c == '\U{3000}' || c == '\U{FEFF}'
  }

  /** `java.lang.String.trim`: every code point up to and including U+0020. */
  predicate IsJavaSpace(c: char) {
    c as int <= 0x20
  }

  /** PHP `trim` with its default character list " \t\n\r\0\x0B". */
  predicate IsPhpSpace(c: char) {
    c == ' ' || c == '\t' || c == '\n' || c == '\r' || c == '\0' || c == '\U{000B}'
  }

  predicate IsSpace(rt: Runtime, c: char) {
    match rt
    case Js => IsJsSpace(c)
    case Java => IsJavaSpace(c)
    case Php => IsPhpSpace(c)
  }

  predicate AllSpace(rt: Runtime, s: string) {
    forall i | 0 <= i < |s| :: IsSpace(rt, s[i])
  }

  /** Removes leading and trailing whitespace, as `rt` defines it. */
  function Trim(rt: Runtime, s: string): (r: string)
    ensures |r| <= |s|
    ensures r == [] <==> AllSpace(rt, s)
    ensures r != [] ==> !IsSpace(rt, r[0]) && !IsSpace(rt, r[|r| - 1])
    decreases |s|
  {
    if |s| == 0 then s
    else if IsSpace(rt, s[0]) then
      var r := Trim(rt, s[1..]);
      assert AllSpace(rt, s[1..]) ==> AllSpace(rt, s) by {
        if AllSpace(rt, s[1..]) {
          forall i | 0 <= i < |s| ensures IsSpace(rt, s[i]) {
            if i > 0 { assert s[i] == s[1..][i - 1]; }
          }
        }
      }
      r
    else if IsSpace(rt, s[|s| - 1]) then Trim(rt, s[..|s| - 1])
    else s
  }

  /** Trimming twice is trimming once. */
  lemma TrimIdempotent(rt: Runtime, s: string)
    ensures Trim(rt, Trim(rt, s)) == Trim(rt, s)
  {
    var r := Trim(rt, s);
    if r != [] {
      assert !IsSpace(rt, r[0]) && !IsSpace(rt, r[|r| - 1]);
    }
  }

  /** A string free of whitespace at both ends is its own trim. */
  lemma TrimFixed(rt: Runtime, s: string)
    requires s != [] ==> !IsSpace(rt, s[0]) && !IsSpace(rt, s[|s| - 1])
    ensures Trim(rt, s) == s
  {
  }

  lemma AllSpaceConcat(rt: Runtime, s: string, t: string)
    requires AllSpace(rt, s) && AllSpace(rt, t)
    ensures AllSpace(rt, s + t)
  {
    forall i | 0 <= i < |s + t| ensures IsSpace(rt, (s + t)[i]) {
      if i < |s| { assert (s + t)[i] == s[i]; } else { assert (s + t)[i] == t[i - |s|]; }
    }
  }

  /** `r` sits at offset `k` of `s` and everything around it is whitespace. */
  predicate IsTrimmedInfix(rt: Runtime, s: string, k: nat, r: string) {
    && k + |r| <= |s|
    && s[k..k + |r|] == r
    && AllSpace(rt, s[..k])
    && AllSpace(rt, s[k + |r|..])
  }

  /** Trimming keeps a contiguous piece of the input whose surroundings are all whitespace. */
  lemma {:induction false} TrimIsInfix(rt: Runtime, s: string) returns (k: nat)
    ensures IsTrimmedInfix(rt, s, k, Trim(rt, s))
    decreases |s|
  {
    if |s| == 0 {
      k := 0;
    } else if IsSpace(rt, s[0]) {
      var k' := TrimIsInfix(rt, s[1..]);
      k := InfixDropFirst(rt, s, k');
    } else if IsSpace(rt, s[|s| - 1]) {
      var k' := TrimIsInfix(rt, s[..|s| - 1]);
      k := InfixDropLast(rt, s, k');
    } else {
      k := 0;
      assert s[..0] == [] && s[|s|..] == [];
    }
  }

  lemma InfixDropFirst(rt: Runtime, s: string, k': nat) returns (k: nat)
    requires |s| > 0 && IsSpace(rt, s[0])
    requires IsTrimmedInfix(rt, s[1..], k', Trim(rt, s[1..]))
    ensures IsTrimmedInfix(rt, s, k, Trim(rt, s))
  {
    assert Trim(rt, s) == Trim(rt, s[1..]);
    k := k' + 1;
    var r := Trim(rt, s[1..]);
    assert s[k..k + |r|] == s[1..][k'..k' + |r|];
    assert s[k + |r|..] == s[1..][k' + |r|..];
    SpaceBefore(rt, s, k);
  }

  /** A blank first character and a blank run after it make a blank prefix. */
  lemma SpaceBefore(rt: Runtime, s: string, k: nat)
    requires 0 < k <= |s| && IsSpace(rt, s[0]) && AllSpace(rt, s[1..][..k - 1])
    ensures AllSpace(rt, s[..k])
  {
    forall i | 0 <= i < k ensures IsSpace(rt, s[..k][i]) {
      if i > 0 {
        assert s[..k][i] == s[1..][..k - 1][i - 1];
      }
    }
  }

  lemma InfixDropLast(rt: Runtime, s: string, k: nat) returns (k2: nat)
    requires |s| > 0 && !IsSpace(rt, s[0]) && IsSpace(rt, s[|s| - 1])
    requires IsTrimmedInfix(rt, s[..|s| - 1], k, Trim(rt, s[..|s| - 1]))
    ensures IsTrimmedInfix(rt, s, k2, Trim(rt, s))
  {
    var t := s[..|s| - 1];
    assert Trim(rt, s) == Trim(rt, t);
    k2 := k;
    var r := Trim(rt, t);
    assert s[k..k + |r|] == t[k..k + |r|];
    assert s[..k] == t[..k];
    SpaceAfter(rt, s, k + |r|);
  }

  /** A blank run before the last character and a blank last character make a blank suffix. */
  lemma SpaceAfter(rt: Runtime, s: string, j: nat)
    requires j < |s| && IsSpace(rt, s[|s| - 1]) && AllSpace(rt, s[..|s| - 1][j..])
    ensures AllSpace(rt, s[j..])
  {
    forall i | 0 <= i < |s| - j ensures IsSpace(rt, s[j..][i]) {
      if i < |s| - 1 - j {
        assert s[j..][i] == s[..|s| - 1][j..][i];
      }
    }
  }

  /** The number of UTF-16 code units of `s`: JavaScript's `length`. */
  function Utf16Length(s: string): (n: nat)
    ensures |s| <= n <= 2 * |s|
  {
    if |s| == 0 then 0 else (if s[0] as int >= 0x10000 then 2 else 1) + Utf16Length(s[1..])
  }

  /** The number of bytes of the UTF-8 encoding of one code point. */
  function Utf8Width(c: char): (w: nat)
    ensures 1 <= w <= 4
  {
    if c as int < 0x80 then 1
    else if c as int < 0x800 then 2
    else if c as int < 0x10000 then 3
    else 4
  }

  /** The number of bytes of the UTF-8 encoding of `s`: PHP's `strlen`. */
  function Utf8Length(s: string): (n: nat)
    ensures |s| <= n <= 4 * |s|
  {
    if |s| == 0 then 0 else Utf8Width(s[0]) + Utf8Length(s[1..])
  }

  lemma {:induction false} Utf16Append(s: string, t: string)
    ensures Utf16Length(s + t) == Utf16Length(s) + Utf16Length(t)
  {
    if |s| == 0 {
      assert s + t == t;
    } else {
      assert (s + t)[0] == s[0];
      assert (s + t)[1..] == s[1..] + t;
      Utf16Append(s[1..], t);
    }
  }

  /** Trimming never lengthens a string in UTF-16 code units. */
  lemma TrimUtf16Shorter(rt: Runtime, s: string)
    ensures Utf16Length(Trim(rt, s)) <= Utf16Length(s)
  {
    var r := Trim(rt, s);
    var k := TrimIsInfix(rt, s);
    assert s == s[..k] + r + s[k + |r|..];
    Utf16Append(s[..k] + r, s[k + |r|..]);
    Utf16Append(s[..k], r);
  }

  /** A string never has more UTF-16 code units than UTF-8 bytes. */
  lemma {:induction false} Utf16AtMostUtf8(s: string)
    ensures Utf16Length(s) <= Utf8Length(s)
  {
    if |s| > 0 { Utf16AtMostUtf8(s[1..]); }
  }

  /** For a string of ASCII characters every measure of length agrees. */
  lemma {:induction false} AsciiLengths(s: string)
    requires forall i | 0 <= i < |s| :: s[i] as int < 0x80
    ensures Utf16Length(s) == |s| && Utf8Length(s) == |s|
  {
    if |s| > 0 { AsciiLengths(s[1..]); }
  }

  predicate StartsWith(s: string, prefix: string) {
    |prefix| <= |s| && s[..|prefix|] == prefix
  }

  predicate EndsWith(s: string, suffix: string) {
    |suffix| <= |s| && s[|s| - |suffix|..] == suffix
  }

  predicate OccursAt(s: string, p: string, i: nat) {
    i + |p| <= |s| && s[i..i + |p|] == p
  }

  /** The first index at which `p` occurs in `s`: Java's `indexOf`. */
  function IndexOf(s: string, p: string): (r: Option<nat>)
    ensures r.Some? ==> OccursAt(s, p, r.value)
    ensures r.Some? ==> forall j | 0 <= j < r.value :: !OccursAt(s, p, j)
    ensures r.None? ==> forall j | 0 <= j <= |s| :: !OccursAt(s, p, j)
    decreases |s|
  {
    if |p| > |s| then None
    else if s[..|p|] == p then Some(0)
    else
      match IndexOf(s[1..], p)
      case None =>
        assert forall j | 1 <= j <= |s| :: !OccursAt(s, p, j) by {
          forall j | 1 <= j <= |s| ensures !OccursAt(s, p, j) {
            OccursShift(s, p, j);
          }
        }
        None
      case Some(i) =>
        OccursShift(s, p, i + 1);
        assert forall j | 1 <= j < i + 1 :: !OccursAt(s, p, j) by {
          forall j | 1 <= j < i + 1 ensures !OccursAt(s, p, j) {
            OccursShift(s, p, j);
          }
        }
        Some(i + 1)
  }

  /** An occurrence past the first character is an occurrence in the rest, one place earlier. */
  lemma OccursShift(s: string, p: string, j: nat)
    requires 1 <= j <= |s|
    ensures OccursAt(s, p, j) <==> OccursAt(s[1..], p, j - 1)
  {
    if j + |p| <= |s| {
      var here, there := s[j..j + |p|], s[1..][j - 1..j - 1 + |p|];
      forall m | 0 <= m < |p| ensures here[m] == there[m] {
        assert here[m] == s[j + m] && there[m] == s[1..][j - 1 + m];
      }
      assert here == there;
    }
  }

  /** The first index of `c` in `s`, or `|s|` when there is none. */
  function FirstIndex(s: string, c: char): (i: nat)
    ensures i <= |s|
    ensures c !in s[..i]
    ensures i < |s| ==> s[i] == c
  {
    if |s| == 0 then 0
    else if s[0] == c then 0
    else
      var i := 1 + FirstIndex(s[1..], c);
      assert s[..i] == [s[0]] + s[1..][..i - 1];
      i
  }

  /** Java `s.split(String.valueOf(c), 2)`: the text before the first `c` and the rest. */
  function SplitOnce(s: string, c: char): (r: Option<(string, string)>)
    ensures r.None? <==> c !in s
    ensures r.Some? ==> s == r.value.0 + [c] + r.value.1 && c !in r.value.0
  {
    var i := FirstIndex(s, c);
    if i == |s| then
      assert s[..i] == s;
      None
    else
      assert s == s[..i] + [c] + s[i + 1..];
      Some((s[..i], s[i + 1..]))
  }

  /** Every piece between occurrences of `c`, in order (at least one piece). */
  function SplitAll(s: string, c: char): (pieces: seq<string>)
    ensures |pieces| >= 1
    ensures forall k | 0 <= k < |pieces| :: c !in pieces[k]
    decreases |s|
  {
    var i := FirstIndex(s, c);
    if i == |s| then
      assert s[..i] == s;
      [s]
    else [s[..i]] + SplitAll(s[i + 1..], c)
  }

  /** Joins `pieces` with `c` between consecutive ones. */
  function JoinWith(pieces: seq<string>, c: char): string
    requires |pieces| >= 1
  {
    if |pieces| == 1 then pieces[0] else pieces[0] + [c] + JoinWith(pieces[1..], c)
  }

  /** Splitting and joining again gives back the input. */
  lemma {:induction false} SplitAllJoin(s: string, c: char)
    ensures JoinWith(SplitAll(s, c), c) == s
    decreases |s|
  {
    var i := FirstIndex(s, c);
    if i == |s| {
      assert s[..i] == s;
    } else {
      var rest := SplitAll(s[i + 1..], c);
      var pieces := SplitAll(s, c);
      assert pieces == [s[..i]] + rest;
      assert pieces[1..] == rest;
      SplitAllJoin(s[i + 1..], c);
      calc {
        JoinWith(pieces, c);
        pieces[0] + [c] + JoinWith(rest, c);
        s[..i] + [c] + s[i + 1..];
      }
      assert s == s[..i] + [c] + s[i + 1..];
    }
  }

  /** `pieces` without its trailing empty strings. */
  function DropTrailingEmpty(pieces: seq<string>): (r: seq<string>)
    ensures r <= pieces
    ensures r != [] ==> r[|r| - 1] != []
    ensures forall k | |r| <= k < |pieces| :: pieces[k] == []
  {
    if pieces == [] then []
    else if pieces[|pieces| - 1] == [] then DropTrailingEmpty(pieces[..|pieces| - 1])
    else pieces
  }

  /**
   * Java `s.split(String.valueOf(c))` (limit 0): without any `c` the result is `[s]`
   * itself, otherwise the pieces with trailing empty strings removed.
   */
  function JavaSplit(s: string, c: char): (r: seq<string>)
    ensures c !in s ==> r == [s]
    ensures c in s ==> r <= SplitAll(s, c) && (r != [] ==> r[|r| - 1] != [])
    ensures c in s ==> forall k | |r| <= k < |SplitAll(s, c)| :: SplitAll(s, c)[k] == []
    ensures forall k | 0 <= k < |r| :: c !in r[k]
  {
    if c !in s then
      assert FirstIndex(s, c) == |s|;
      assert s[..|s|] == s;
      [s]
    else DropTrailingEmpty(SplitAll(s, c))
  }

  /** Java `String.replace` with a one-character target: every `c` becomes `by`. */
  function ReplaceChar(s: string, c: char, repl: string): (r: string)
    ensures c !in s ==> r == s
    ensures c !in repl ==> c !in r
  {
    if |s| == 0 then []
    else (if s[0] == c then repl else [s[0]]) + ReplaceChar(s[1..], c, repl)
  }

  lemma {:induction false} ReplaceCharAppend(s: string, t: string, c: char, repl: string)
    ensures ReplaceChar(s + t, c, repl) == ReplaceChar(s, c, repl) + ReplaceChar(t, c, repl)
  {
    if |s| == 0 {
      assert s + t == t;
    } else {
      assert (s + t)[1..] == s[1..] + t;
      ReplaceCharAppend(s[1..], t, c, repl);
    }
  }

  function DigitChar(d: nat): (c: char)
    requires d < 10
    ensures '0' <= c <= '9'
  {
    ('0' as int + d) as char
  }

  /** Decimal rendering of a natural number, without leading zeros. */
  function NatToString(n: nat): (s: string)
    ensures |s| >= 1
    ensures forall i | 0 <= i < |s| :: '0' <= s[i] <= '9'
    ensures s[0] == '0' ==> n == 0
    ensures (|s| == 1) <==> n < 10
  {
    if n < 10 then [DigitChar(n)] else NatToString(n / 10) + [DigitChar(n % 10)]
  }

  /** Different numbers have different decimal renderings. */
  lemma {:induction false} NatToStringInjective(m: nat, n: nat)
    requires NatToString(m) == NatToString(n)
    ensures m == n
  {
    if m >= 10 && n >= 10 {
      var sm, sn := NatToString(m), NatToString(n);
      assert sm[|sm| - 1] == DigitChar(m % 10) && sn[|sn| - 1] == DigitChar(n % 10);
      assert sm[..|sm| - 1] == NatToString(m / 10);
      assert sn[..|sn| - 1] == NatToString(n / 10);
      NatToStringInjective(m / 10, n / 10);
    }
  }

  /** Decimal rendering of an integer as JavaScript, Java and PHP print it. */
  function IntToString(n: int): (s: string)
    ensures |s| >= 1
    ensures n >= 0 ==> s == NatToString(n)
    ensures n < 0 ==> s == "-" + NatToString(-n)
  {
    if n >= 0 then NatToString(n) else "-" + NatToString(-n)
  }
}

/**
 * `formatTime` of both clients: the age of a history entry, in whole minutes
 * or hours below a day, rendered in long words (web client) or short form
 * (side panel). The local date text used past a day is an opaque parameter.
 */
module FormatTime {
  import Text

  const MinuteMs: int := 60000
  const HourMs: int := 3600000
  const DayMs: int := 86400000

  datatype Age = JustNow | Minutes(minutes: nat) | Hours(hours: nat) | Older

  /** The bucket of a difference `now - timestamp`, in milliseconds (`Math.floor` of a non-negative quotient). */
  function Bucket(diff: int): (a: Age)
    ensures a == JustNow <==> diff < MinuteMs
    ensures a.Minutes? <==> MinuteMs <= diff < HourMs
    ensures a.Hours? <==> HourMs <= diff < DayMs
    ensures a == Older <==> DayMs <= diff
    ensures a.Minutes? ==> 1 <= a.minutes < 60 && a.minutes * MinuteMs <= diff < (a.minutes + 1) * MinuteMs
    ensures a.Hours? ==> 1 <= a.hours < 24 && a.hours * HourMs <= diff < (a.hours + 1) * HourMs
  {
    if diff < MinuteMs then JustNow
    else if diff < HourMs then Minutes(diff / MinuteMs)
    else if diff < DayMs then Hours(diff / HourMs)
    else Older
  }

  /** The whole minutes an age stands for; past a day, a day's worth. */
  function MinutesOf(a: Age): nat {
    match a
    case JustNow => 0
    case Minutes(m) => m
    case Hours(h) => 60 * h
    case Older => 1440
  }

  /** An older entry never shows as more recent than a newer one. */
  lemma BucketMonotone(d1: int, d2: int)
    requires d1 <= d2
    ensures MinutesOf(Bucket(d1)) <= MinutesOf(Bucket(d2))
  {
    var a1, a2 := Bucket(d1), Bucket(d2);
    if a1.Minutes? && a2.Minutes? {
      DivMonotone(d1, d2, MinuteMs);
    } else if a1.Hours? && a2.Hours? {
      DivMonotone(d1, d2, HourMs);
    }
  }

  lemma DivMonotone(x: int, y: int, k: int)
    requires 0 <= x <= y && k > 0
    ensures x / k <= y / k
  {
    var qx, qy := x / k, y / k;
    assert qx * k <= x && y < (qy + 1) * k;
    MulCancel(qx, qy + 1, k);
  }

  lemma MulCancel(a: int, b: int, k: int)
    requires k > 0 && a * k < b * k
    ensures a < b
  {
    assert (b - a) * k == b * k - a * k;
  }

  /** script.js: "Just now", "<n> minute(s) ago", "<n> hour(s) ago", or the local date. */
  function LongText(a: Age, date: string): string {
    match a
    case JustNow => "Just now"
    case Minutes(m) => Text.NatToString(m) + " minute" + (if m > 1 then "s" else "") + " ago"
    case Hours(h) => Text.NatToString(h) + " hour" + (if h > 1 then "s" else "") + " ago"
    case Older => date
  }

  /** sidepanel.js: "Just now", "<n>m ago", "<n>h ago", or the local date. */
  function ShortText(a: Age, date: string): string {
    match a
    case JustNow => "Just now"
    case Minutes(m) => Text.NatToString(m) + "m ago"
    case Hours(h) => Text.NatToString(h) + "h ago"
    case Older => date
  }

  /** The web client's `formatTime(timestamp)` at time `now`. */
  function FormatLong(timestamp: int, now: int, date: string): (r: string)
    ensures now - timestamp < MinuteMs ==> r == "Just now"
    ensures DayMs <= now - timestamp ==> r == date
    ensures MinuteMs <= now - timestamp < 2 * MinuteMs ==> r == "1 minute ago"
    ensures HourMs <= now - timestamp < 2 * HourMs ==> r == "1 hour ago"
    ensures MinuteMs <= now - timestamp < HourMs ==>
      var m := (now - timestamp) / MinuteMs;
      r == Text.NatToString(m) + " minute" + (if m > 1 then "s" else "") + " ago"
    ensures HourMs <= now - timestamp < DayMs ==>
      var h := (now - timestamp) / HourMs;
      r == Text.NatToString(h) + " hour" + (if h > 1 then "s" else "") + " ago"
  {
    LongText(Bucket(now - timestamp), date)
  }

  /** The side panel's `formatTime(timestamp)` at time `now`. */
  function FormatShort(timestamp: int, now: int, date: string): (r: string)
    ensures now - timestamp < MinuteMs ==> r == "Just now"
    ensures DayMs <= now - timestamp ==> r == date
    ensures MinuteMs <= now - timestamp < HourMs ==> r == Text.NatToString((now - timestamp) / MinuteMs) + "m ago"
    ensures HourMs <= now - timestamp < DayMs ==> r == Text.NatToString((now - timestamp) / HourMs) + "h ago"
  {
    ShortText(Bucket(now - timestamp), date)
  }

  predicate IsDigit(c: char) {
    '0' <= c <= '9'
  }

  /** The number of leading decimal digits of `s`. */
  function DigitRun(s: string): (k: nat)
    ensures k <= |s|
    ensures forall i | 0 <= i < k :: IsDigit(s[i])
  {
    if |s| == 0 || !IsDigit(s[0]) then 0 else 1 + DigitRun(s[1..])
  }

  /** The number a run of decimal digits spells. */
  function ParseNat(s: string): nat
    requires forall i | 0 <= i < |s| :: IsDigit(s[i])
  {
    if |s| == 0 then 0
    else
      assert IsDigit(s[|s| - 1]);
      ParseNat(s[..|s| - 1]) * 10 + (s[|s| - 1] as int - '0' as int)
  }

  lemma {:induction false} ParseNatToString(n: nat)
    ensures ParseNat(Text.NatToString(n)) == n
  {
    if n >= 10 {
      var s := Text.NatToString(n);
      assert s[..|s| - 1] == Text.NatToString(n / 10);
      ParseNatToString(n / 10);
    }
  }

  lemma {:induction false} DigitRunConcat(x: string, y: string)
    requires forall i | 0 <= i < |x| :: IsDigit(x[i])
    requires |y| > 0 && !IsDigit(y[0])
    ensures DigitRun(x + y) == |x|
  {
    if |x| > 0 {
      assert (x + y)[1..] == x[1..] + y;
      DigitRunConcat(x[1..], y);
    }
  }

  /** Reads back the age the web client's wording shows (below a day). */
  function ReadLong(s: string): Age {
    var k := DigitRun(s);
    var word := s[k..];
    if k == 0 then JustNow
    else if |word| > 1 && word[1] == 'm' then Minutes(ParseNat(s[..k]))
    else Hours(ParseNat(s[..k]))
  }

  /** Reads back the age the side panel's wording shows (below a day). */
  function ReadShort(s: string): Age {
    var k := DigitRun(s);
    var word := s[k..];
    if k == 0 then JustNow
    else if |word| > 0 && word[0] == 'm' then Minutes(ParseNat(s[..k]))
    else Hours(ParseNat(s[..k]))
  }

  /** A count followed by a word: the digits read back as the count, and the word starts after them. */
  lemma ReadCount(n: nat, tail: string)
    requires |tail| > 0 && !IsDigit(tail[0])
    ensures var s := Text.NatToString(n) + tail; var k := DigitRun(s);
      k == |Text.NatToString(n)| && s[..k] == Text.NatToString(n) && ParseNat(s[..k]) == n && s[k..] == tail
  {
    var digits := Text.NatToString(n);
    DigitRunConcat(digits, tail);
    assert (digits + tail)[..|digits|] == digits;
    assert (digits + tail)[|digits|..] == tail;
    ParseNatToString(n);
  }

  /** A count followed by a word whose second character tells minutes from hours reads back as that count. */
  lemma ReadLongCount(n: nat, tail: string)
    requires |tail| > 1 && tail[0] == ' '
    ensures ReadLong(Text.NatToString(n) + tail) == if tail[1] == 'm' then Minutes(n) else Hours(n)
  {
    ReadCount(n, tail);
  }

  /** The web client's wording of a number of units: the unit, with an "s" past one, then " ago". */
  lemma LongWording(n: nat, unit: string)
    ensures Text.NatToString(n) + unit + (if n > 1 then "s" else "") + " ago"
      == Text.NatToString(n) + (unit + (if n > 1 then "s" else "") + " ago")
  {
  }

  /** Below a day, the web client's text determines the age: different ages never read alike. */
  lemma ReadLongText(a: Age, date: string)
    requires a != Older
    ensures ReadLong(LongText(a, date)) == a
  {
    match a
    case JustNow =>
      assert DigitRun("Just now") == 0;
    case Minutes(n) =>
      var tail := " minute" + (if n > 1 then "s" else "") + " ago";
      LongWording(n, " minute");
      assert tail[1] == 'm';
      ReadLongCount(n, tail);
    case Hours(n) =>
      var tail := " hour" + (if n > 1 then "s" else "") + " ago";
      LongWording(n, " hour");
      assert tail[1] == 'h';
      ReadLongCount(n, tail);
  }

  /** Below a day, the side panel's text determines the age. */
  lemma ReadShortText(a: Age, date: string)
    requires a != Older
    ensures ReadShort(ShortText(a, date)) == a
  {
    if a != JustNow {
      var n := if a.Minutes? then a.minutes else a.hours;
      var tail := if a.Minutes? then "m ago" else "h ago";
      assert ShortText(a, date) == Text.NatToString(n) + tail;
      ReadCount(n, tail);
    }
  }

  /** The two clients tell apart exactly the same ages: they differ only in wording. */
  lemma SameBuckets(d1: int, d2: int, date: string)
    requires d1 < DayMs && d2 < DayMs
    ensures LongText(Bucket(d1), date) == LongText(Bucket(d2), date)
        <==> ShortText(Bucket(d1), date) == ShortText(Bucket(d2), date)
  {
    ReadLongText(Bucket(d1), date);
    ReadLongText(Bucket(d2), date);
    ReadShortText(Bucket(d1), date);
    ReadShortText(Bucket(d2), date);
  }
}

/**
 * Clock-time text of the slot controller: `getMinutes` reads "HH:MM" into
 * minutes since midnight and `formatTime` writes minutes back as zero-padded
 * "HH:MM". Strings are sequences of characters; only decimal digits and the
 * colon are given meaning.
 */
module TimeFormat {

  const Colon: char := ':'

  predicate IsDigit(c: char) {
    '0' <= c <= '9'
  }

  predicate AllDigits(s: string) {
    forall i :: 0 <= i < |s| ==> IsDigit(s[i])
  }

  /** A non-empty run of decimal digits: text that `Number` reads without NaN. */
  predicate IsDigits(s: string) {
    |s| > 0 && AllDigits(s)
  }

  function DigitValue(c: char): (v: nat)
    requires IsDigit(c)
    ensures v < 10
  {
    c as int - '0' as int
  }

  function DigitChar(v: nat): (c: char)
    requires v < 10
    ensures IsDigit(c) && DigitValue(c) == v
  {
    ('0' as int + v) as char
  }

  /** The base-10 value of a digit string; leading zeros add nothing. */
  function Number(s: string): nat
    requires AllDigits(s)
  {
    if |s| == 0 then 0 else Number(s[..|s| - 1]) * 10 + DigitValue(s[|s| - 1])
  }

  /** Decimal text of `n` without leading zeros, as `toString` writes an integer. */
  function DecimalText(n: nat): (s: string)
    ensures IsDigits(s)
    ensures n < 10 ==> |s| == 1
    ensures 10 <= n < 100 ==> |s| == 2
  {
    if n < 10 then [DigitChar(n)] else DecimalText(n / 10) + [DigitChar(n % 10)]
  }

  /** `s.padStart(width, '0')`: zeros in front until the text is `width` long. */
  function PadStart(s: string, width: nat): string
    decreases width - |s|
  {
    if |s| >= width then s else PadStart([ '0' ] + s, width)
  }

  /** Index of the first colon, or `|s|` when there is none. */
  function ColonIndex(s: string): (i: nat)
    ensures i <= |s|
    ensures i < |s| ==> s[i] == Colon
    ensures forall j :: 0 <= j < i ==> s[j] != Colon
  {
    if |s| == 0 || s[0] == Colon then 0 else 1 + ColonIndex(s[1..])
  }

  /** The first field of `s.split(':')`. */
  function HoursText(s: string): string {
    s[..ColonIndex(s)]
  }

  /** The second field of `s.split(':')`. */
  function MinutesText(s: string): string
    requires ColonIndex(s) < |s|
  {
    s[ColonIndex(s) + 1..]
  }

  /** Digits, one colon, digits: the text on which `getMinutes` yields a number. */
  predicate IsTimeString(s: string) {
    ColonIndex(s) < |s| && IsDigits(HoursText(s)) && IsDigits(MinutesText(s))
  }

  /** `getMinutes`: hours times sixty plus minutes. With a minute field below
      60 the hours and minutes of the text are the quotient and remainder of
      the result by 60. */
  function GetMinutes(s: string): (r: nat)
    requires IsTimeString(s)
    ensures Number(MinutesText(s)) < 60 ==>
              r / 60 == Number(HoursText(s)) && r % 60 == Number(MinutesText(s))
  {
    Number(HoursText(s)) * 60 + Number(MinutesText(s))
  }

  /** `formatTime`: the hour count and the minute remainder, each padded to two
      digits. */
  function FormatTime(minutes: nat): string {
    PadStart(DecimalText(minutes / 60), 2) + [Colon] + PadStart(DecimalText(minutes % 60), 2)
  }

  /** The text is readable by `GetMinutes`, with at least two hour digits and
      exactly two minute digits. */
  lemma FormatTimeShape(minutes: nat)
    ensures IsTimeString(FormatTime(minutes))
    ensures |HoursText(FormatTime(minutes))| >= 2 && |MinutesText(FormatTime(minutes))| == 2
  {
    PadStartDigits(DecimalText(minutes / 60), 2);
    PadStartDigits(DecimalText(minutes % 60), 2);
    GetMinutesOfParts(PadStart(DecimalText(minutes / 60), 2), PadStart(DecimalText(minutes % 60), 2));
  }

  /** Reading the text back gives the minutes it was written from, for every
      non-negative count (hours beyond 23 included). */
  lemma FormatTimeRoundTrip(minutes: nat)
    ensures IsTimeString(FormatTime(minutes)) && GetMinutes(FormatTime(minutes)) == minutes
  {
    var hs, ms := DecimalText(minutes / 60), DecimalText(minutes % 60);
    NumberOfDecimalText(minutes / 60);
    NumberOfDecimalText(minutes % 60);
    PadStartDigits(hs, 2);
    PadStartDigits(ms, 2);
    GetMinutesOfParts(PadStart(hs, 2), PadStart(ms, 2));
  }

  /** The texts `formatTime` writes: at least two hour digits with no leading
      zero beyond two, and two minute digits below 60. */
  predicate IsCanonicalTime(s: string) {
    IsTimeString(s)
    && |HoursText(s)| >= 2 && (|HoursText(s)| == 2 || HoursText(s)[0] != '0')
    && |MinutesText(s)| == 2 && Number(MinutesText(s)) < 60
  }

  /** The other direction of the round trip: a canonical text is written back
      exactly as it was read. */
  lemma GetMinutesRoundTrip(s: string)
    requires IsCanonicalTime(s)
    ensures FormatTime(GetMinutes(s)) == s
  {
    var h, m := HoursText(s), MinutesText(s);
    PadStartOfNumber(h);
    PadStartOfNumber(m);
    assert s == h + [Colon] + m by {
      assert s == s[..ColonIndex(s)] + [s[ColonIndex(s)]] + s[ColonIndex(s) + 1..];
    }
  }

  /** Sample texts: single-digit fields get a leading zero, and hours past a
      day are written as they are. */
  lemma FormatTimeExamples()
    ensures FormatTime(540) == "09:00"
    ensures FormatTime(605) == "10:05"
    ensures FormatTime(1500) == "25:00"
  {
    FormatTimeOf(9, 0, "09", "00");
    FormatTimeOf(10, 5, "10", "05");
    FormatTimeOf(25, 0, "25", "00");
  }

  lemma FormatTimeOf(hours: nat, mins: nat, h: string, m: string)
    requires mins < 60
    requires PadStart(DecimalText(hours), 2) == h && PadStart(DecimalText(mins), 2) == m
    ensures FormatTime(hours * 60 + mins) == h + [Colon] + m
  {
    var n := hours * 60 + mins;
    assert n / 60 == hours && n % 60 == mins;
  }

  /** Distinct minute counts are written as distinct texts. */
  lemma FormatTimeInjective(a: nat, b: nat)
    requires FormatTime(a) == FormatTime(b)
    ensures a == b
  {
    FormatTimeRoundTrip(a);
    FormatTimeRoundTrip(b);
  }

  /** For any digit fields `h` and `m`, "h:m" is read as `h * 60 + m`. */
  lemma GetMinutesOfParts(h: string, m: string)
    requires IsDigits(h) && IsDigits(m)
    ensures ColonIndex(h + [Colon] + m) == |h|
    ensures HoursText(h + [Colon] + m) == h && MinutesText(h + [Colon] + m) == m
    ensures IsTimeString(h + [Colon] + m)
    ensures GetMinutes(h + [Colon] + m) == Number(h) * 60 + Number(m)
  {
    var s := h + [Colon] + m;
    assert s[|h|] == Colon;
    assert forall j :: 0 <= j < |h| ==> s[j] == h[j];
    assert s[..|h|] == h;
    assert s[|h| + 1..] == m;
  }

  lemma {:induction false} NumberOfDecimalText(n: nat)
    ensures Number(DecimalText(n)) == n
  {
    if n >= 10 {
      var s := DecimalText(n / 10) + [DigitChar(n % 10)];
      assert s[..|s| - 1] == DecimalText(n / 10);
      NumberOfDecimalText(n / 10);
    }
  }

  /** A leading zero does not change the value of a digit string. */
  lemma {:induction false} NumberOfLeadingZero(s: string)
    requires AllDigits(s)
    ensures AllDigits([ '0' ] + s) && Number([ '0' ] + s) == Number(s)
  {
    var z := [ '0' ] + s;
    if |s| > 0 {
      assert z[..|z| - 1] == [ '0' ] + s[..|s| - 1];
      NumberOfLeadingZero(s[..|s| - 1]);
    }
  }

  /** Padding reaches the width (or keeps a longer text), keeps a digit
      string a digit string, and keeps its value. */
  lemma {:induction false} PadStartDigits(s: string, width: nat)
    requires IsDigits(s)
    ensures |PadStart(s, width)| == if |s| < width then width else |s|
    ensures IsDigits(PadStart(s, width)) && Number(PadStart(s, width)) == Number(s)
    decreases width - |s|
  {
    if |s| < width {
      NumberOfLeadingZero(s);
      PadStartDigits([ '0' ] + s, width);
    }
  }

  /** A digit string without leading zeros reads to a positive value. */
  lemma {:induction false} NumberPositive(s: string)
    requires IsDigits(s) && s[0] != '0'
    ensures Number(s) > 0
  {
    if |s| > 1 {
      NumberPositive(s[..|s| - 1]);
    }
  }

  /** A digit string with no leading zero is the decimal text of its value. */
  lemma {:induction false} DecimalTextOfNumber(s: string)
    requires IsDigits(s) && (|s| == 1 || s[0] != '0')
    ensures DecimalText(Number(s)) == s
  {
    if |s| > 1 {
      var init := s[..|s| - 1];
      NumberPositive(init);
      DecimalTextOfNumber(init);
      assert s == init + [s[|s| - 1]];
    }
  }

  /** Two digits, or more without a leading zero, survive reading and padding
      back to two digits unchanged. */
  lemma PadStartOfNumber(s: string)
    requires IsDigits(s) && |s| >= 2 && (|s| == 2 || s[0] != '0')
    ensures PadStart(DecimalText(Number(s)), 2) == s
  {
    if s[0] == '0' {
      var t := s[1..];
      assert s == [ '0' ] + t;
      NumberOfLeadingZero(t);
      DecimalTextOfNumber(t);
    } else {
      DecimalTextOfNumber(s);
    }
  }
}

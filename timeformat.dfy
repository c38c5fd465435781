/** The elapsed-time display: whole seconds as minutes and seconds, each
    padded with zeros to at least two decimal digits, separated by ':'. */
module TimeFormat {

  datatype Option<T> = None | Some(value: T)

  predicate IsDigit(c: char)
  {
    '0' <= c <= '9'
  }

  predicate AllDigits(s: string)
  {
    forall k :: 0 <= k < |s| ==> IsDigit(s[k])
  }

  function DigitChar(d: nat): (c: char)
    requires d < 10
    ensures IsDigit(c) && DigitValue(c) == d
  {
    "0123456789"[d]
  }

  function DigitValue(c: char): (v: nat)
    requires IsDigit(c)
  {
    c as int - '0' as int
  }

  /** The decimal text of a number without sign or leading zeros, as
      JavaScript's `String(n)` writes a non-negative integer. */
  function DecimalString(n: nat): (s: string)
    ensures 1 <= |s| && AllDigits(s)
    ensures |s| == 1 <==> n < 10
    ensures n < 100 ==> |s| <= 2
  {
    if n < 10 then [DigitChar(n)] else DecimalString(n / 10) + [DigitChar(n % 10)]
  }

  /** The number a string of decimal digits denotes (leading zeros allowed). */
  function DecimalValue(s: string): (v: nat)
    requires AllDigits(s)
  {
    if s == [] then 0 else 10 * DecimalValue(s[..|s| - 1]) + DigitValue(s[|s| - 1])
  }

  /** `padStart(2, '0')`: zeros in front until the text is two long; text
      already two or more long is returned as it is. */
  function PadStart2(s: string): (padded: string)
    ensures |padded| == if |s| >= 2 then |s| else 2
    ensures padded[|padded| - |s|..] == s
    ensures forall k :: 0 <= k < |padded| - |s| ==> padded[k] == '0'
  {
    if |s| >= 2 then s else if |s| == 1 then ['0'] + s else "00"
  }

  /** A number written in decimal and zero padded to at least two places. */
  function Padded(n: nat): (p: string)
    ensures |p| >= 2 && AllDigits(p)
    ensures n < 100 ==> |p| == 2
  {
    PadStart2(DecimalString(n))
  }

  /** Minutes and seconds fields joined by ':'. */
  function JoinClock(minutes: string, secs: string): (text: string)
    ensures |text| == |minutes| + 1 + |secs|
  {
    minutes + ":" + secs
  }

  /** The text before the colon third from the end. */
  function MinutesField(text: string): (field: string)
    requires |text| >= 3
  {
    text[..|text| - 3]
  }

  /** The last two characters. */
  function SecondsField(text: string): (field: string)
    requires |text| >= 3
  {
    text[|text| - 2..]
  }

  /** The timer text for `seconds` elapsed seconds. */
  function FormatTime(seconds: nat): (text: string)
    ensures |text| >= 5
  {
    JoinClock(Padded(seconds / 60), Padded(seconds % 60))
  }

  /** Reads a timer text back: digits, ':', exactly two digits. */
  function ParseClock(text: string): (parsed: Option<nat>)
    ensures parsed.Some? ==> |text| >= 4 && text[|text| - 3] == ':'
  {
    if |text| < 4 || text[|text| - 3] != ':' then None
    else if AllDigits(MinutesField(text)) && AllDigits(SecondsField(text))
    then Some(60 * DecimalValue(MinutesField(text)) + DecimalValue(SecondsField(text)))
    else None
  }

  /** Writing a number in decimal and reading it back gives the number. */
  lemma {:induction false} DecimalRoundTrip(n: nat)
    ensures DecimalValue(DecimalString(n)) == n
  {
    if n >= 10 {
      var s := DecimalString(n);
      assert s[..|s| - 1] == DecimalString(n / 10);
      DecimalRoundTrip(n / 10);
    }
  }

  /** The decimal text has no leading zero, except for zero itself. */
  lemma {:induction false} DecimalNoLeadingZero(n: nat)
    ensures DecimalString(n)[0] != '0' || n == 0
  {
    if n >= 10 {
      assert DecimalString(n)[0] == DecimalString(n / 10)[0];
      DecimalNoLeadingZero(n / 10);
    }
  }

  /** A leading zero does not change the value of a digit string. */
  lemma {:induction false} LeadingZero(s: string)
    requires AllDigits(s)
    ensures AllDigits(['0'] + s) && DecimalValue(['0'] + s) == DecimalValue(s)
  {
    if s != [] {
      assert (['0'] + s)[..|s|] == ['0'] + s[..|s| - 1];
      LeadingZero(s[..|s| - 1]);
    }
  }

  /** Zero padding keeps the value of a digit string. */
  lemma PadKeepsValue(s: string)
    requires AllDigits(s)
    ensures AllDigits(PadStart2(s)) && DecimalValue(PadStart2(s)) == DecimalValue(s)
  {
    if |s| == 1 {
      LeadingZero(s);
    } else if s == [] {
      LeadingZero("0");
    }
  }

  /** A padded number reads back as the number. */
  lemma PaddedDecimal(n: nat)
    ensures DecimalValue(Padded(n)) == n
  {
    DecimalRoundTrip(n);
    PadKeepsValue(DecimalString(n));
  }

  /** Splitting "m:s" at the colon third from the end gives back m and s. */
  lemma SplitAtColon(minutes: string, secs: string)
    requires |secs| == 2
    ensures var text := JoinClock(minutes, secs);
      text[|text| - 3] == ':' && MinutesField(text) == minutes && SecondsField(text) == secs
  {
    var text := JoinClock(minutes, secs);
    assert text[..|text| - 3] == minutes;
    assert text[|text| - 2..] == secs;
  }

  /** The timer text splits into two digit fields: the minutes field reads
      as the whole minutes, the two-character seconds field as the
      remaining seconds, below 60. */
  lemma FormatTimeFields(seconds: nat)
    ensures var text := FormatTime(seconds);
      text[|text| - 3] == ':' &&
      AllDigits(MinutesField(text)) && DecimalValue(MinutesField(text)) == seconds / 60 &&
      AllDigits(SecondsField(text)) && DecimalValue(SecondsField(text)) == seconds % 60 < 60
  {
    PaddedDecimal(seconds / 60);
    PaddedDecimal(seconds % 60);
    SplitAtColon(Padded(seconds / 60), Padded(seconds % 60));
  }

  /** Reading the timer text back gives the elapsed time. */
  lemma FormatTimeRoundTrip(seconds: nat)
    ensures ParseClock(FormatTime(seconds)) == Some(seconds)
  {
    FormatTimeFields(seconds);
  }

  /** Below 100 minutes the timer text is exactly "MM:SS". */
  lemma FormatTimeFiveChars(seconds: nat)
    requires seconds < 6000
    ensures |FormatTime(seconds)| == 5 && FormatTime(seconds)[2] == ':'
  {
    FormatTimeFields(seconds);
  }
}

/**
 * Two pure helpers of the media library: the duration formatter
 * `getSecondsInDDHHMMSS` and the quote-escaping `clean` used on radio-station
 * metadata. Each comes with a reader that undoes it.
 */
module LibraryUtils {

  import opened Results
  import opened JavaStrings

  // ---------------------------------------------------------------------
  // getSecondsInDDHHMMSS

  const SecondsPerDay := 86400
  const SecondsPerHour := 3600
  const SecondsPerMinute := 60

  /** `(n < 10) ? "0" + n : String.valueOf(n)`. */
  function Pad2(n: nat): (r: string)
    ensures n < 100 ==> r == [DigitChar(n / 10), DigitChar(n % 10)]
  {
    if n < 10 then "0" + DecimalString(n)
    else
      assert n < 100 ==> DecimalString(n / 10) == [DigitChar(n / 10)];
      DecimalString(n)
  }

  /** A two-digit field reads back as the number it was padded from. */
  lemma Pad2RoundTrip(n: nat)
    requires n < 100
    ensures |Pad2(n)| == 2 && AllDigits(Pad2(n)) && TwoDigitValue(Pad2(n)) == n
  {
    DigitRoundTrip(n / 10);
    DigitRoundTrip(n % 10);
  }

  /** The value of a two-digit field. */
  function TwoDigitValue(r: string): nat
    requires |r| == 2 && AllDigits(r)
  {
    10 * DigitValue(r[0]) + DigitValue(r[1])
  }

  /**
   * `getSecondsInDDHHMMSS(s)`: a negative count is read as zero; a day or
   * more prints only the whole days ("1 day", "3 days"); otherwise
   * "HH:MM:SS" when there is at least one hour, else "MM:SS".
   */
  function SecondsInDDHHMMSS(s: int): (r: string)
    ensures s < SecondsPerHour ==> |r| == 5 && r[2] == ':'
    ensures SecondsPerHour <= s < SecondsPerDay ==> |r| == 8 && r[2] == ':' && r[5] == ':'
    ensures SecondsPerDay <= s ==> ':' !in r && (EndsWith(r, " day") || EndsWith(r, " days"))
  {
    var s := if s < 0 then 0 else s;
    var days := s / SecondsPerDay;
    var hours := (s % SecondsPerDay) / SecondsPerHour;
    var r := s % SecondsPerHour;
    var minutes := r / SecondsPerMinute;
    var seconds := r % SecondsPerMinute;
    if days > 0 then
      DecimalString(days) + " day" + (if days > 1 then "s" else "")
    else
      (if hours > 0 then Pad2(hours) + ":" else "") + Pad2(minutes) + ":" + Pad2(seconds)
  }

  /** Reads "MM:SS" or "HH:MM:SS" back into a number of seconds. */
  function ParseClock(r: string): Option<nat> {
    if |r| == 5 && r[2] == ':' && AllDigits(r[..2]) && AllDigits(r[3..]) then
      Some(60 * TwoDigitValue(r[..2]) + TwoDigitValue(r[3..]))
    else if |r| == 8 && r[2] == ':' && r[5] == ':' && AllDigits(r[..2]) && AllDigits(r[3..5]) && AllDigits(r[6..]) then
      Some(3600 * TwoDigitValue(r[..2]) + 60 * TwoDigitValue(r[3..5]) + TwoDigitValue(r[6..]))
    else
      None
  }

  /** Reads "N day" or "N days" back into the number of days, with the plural flag. */
  function ParseDays(r: string): Option<(nat, bool)> {
    if EndsWith(r, " days") && AllDigits(r[..|r| - 5]) then
      Some((DecimalValue(r[..|r| - 5]), true))
    else if EndsWith(r, " day") && AllDigits(r[..|r| - 4]) then
      Some((DecimalValue(r[..|r| - 4]), false))
    else
      None
  }

  /** A negative count prints as zero seconds. */
  lemma NegativeIsZero(s: int)
    requires s < 0
    ensures SecondsInDDHHMMSS(s) == SecondsInDDHHMMSS(0) == "00:00"
  {
  }

  /** Under an hour the result is "MM:SS": five characters, minutes then seconds, each below 60. */
  lemma {:induction false} UnderAnHour(s: int)
    requires 0 <= s < 3600
    ensures var r := SecondsInDDHHMMSS(s);
      && |r| == 5 && r[2] == ':' && AllDigits(r[..2]) && AllDigits(r[3..])
      && TwoDigitValue(r[..2]) == s / 60 < 60
      && TwoDigitValue(r[3..]) == s % 60 < 60
  {
    var r := SecondsInDDHHMMSS(s);
    assert s / 86400 == 0 && s % 86400 == s && s % 3600 == s && s / 3600 == 0;
    assert r == Pad2(s / 60) + ":" + Pad2(s % 60);
    Pad2RoundTrip(s / 60);
    Pad2RoundTrip(s % 60);
    assert r[..2] == Pad2(s / 60);
    assert r[3..] == Pad2(s % 60);
  }

  /** From one hour up to a day the result is "HH:MM:SS", each field two digits. */
  lemma {:induction false} UnderADay(s: int)
    requires 3600 <= s < 86400
    ensures var r := SecondsInDDHHMMSS(s);
      && |r| == 8 && r[2] == ':' && r[5] == ':'
      && AllDigits(r[..2]) && AllDigits(r[3..5]) && AllDigits(r[6..])
      && TwoDigitValue(r[..2]) == s / 3600 < 24
      && TwoDigitValue(r[3..5]) == (s % 3600) / 60 < 60
      && TwoDigitValue(r[6..]) == s % 60 < 60
  {
    var r := SecondsInDDHHMMSS(s);
    assert s / 86400 == 0 && s % 86400 == s && 1 <= s / 3600 < 24;
    ModOfMod(s);
    Pad2RoundTrip(s / 3600);
    Pad2RoundTrip((s % 3600) / 60);
    Pad2RoundTrip(s % 60);
    assert r == Pad2(s / 3600) + ":" + Pad2((s % 3600) / 60) + ":" + Pad2(s % 60);
    assert r[..2] == Pad2(s / 3600);
    assert r[3..5] == Pad2((s % 3600) / 60);
    assert r[6..] == Pad2(s % 60);
  }

  /** Below a day, reading the clock back gives the original count of seconds. */
  lemma ClockRoundTrip(s: int)
    requires 0 <= s < 86400
    ensures ParseClock(SecondsInDDHHMMSS(s)) == Some(s)
  {
    if s < 3600 {
      ShortClockRoundTrip(s);
    } else {
      LongClockRoundTrip(s);
    }
  }

  lemma ShortClockRoundTrip(s: int)
    requires 0 <= s < 3600
    ensures ParseClock(SecondsInDDHHMMSS(s)) == Some(s)
  {
    UnderAnHour(s);
    var r := SecondsInDDHHMMSS(s);
    ReadShortClock(r, TwoDigitValue(r[..2]), TwoDigitValue(r[3..]), s);
  }

  lemma LongClockRoundTrip(s: int)
    requires 3600 <= s < 86400
    ensures ParseClock(SecondsInDDHHMMSS(s)) == Some(s)
  {
    UnderADay(s);
    var r := SecondsInDDHHMMSS(s);
    ReadLongClock(r, TwoDigitValue(r[..2]), TwoDigitValue(r[3..5]), TwoDigitValue(r[6..]), s);
  }

  lemma ReadShortClock(r: string, m: nat, sec: nat, s: int)
    requires |r| == 5 && r[2] == ':' && AllDigits(r[..2]) && AllDigits(r[3..])
    requires m == TwoDigitValue(r[..2]) && sec == TwoDigitValue(r[3..])
    requires 0 <= s && m == s / 60 && sec == s % 60
    ensures ParseClock(r) == Some(s)
  {
    ParseShortClock(r);
    DivMod(s, 60);
  }

  lemma ReadLongClock(r: string, h: nat, m: nat, sec: nat, s: int)
    requires |r| == 8 && r[2] == ':' && r[5] == ':'
    requires AllDigits(r[..2]) && AllDigits(r[3..5]) && AllDigits(r[6..])
    requires h == TwoDigitValue(r[..2]) && m == TwoDigitValue(r[3..5]) && sec == TwoDigitValue(r[6..])
    requires 0 <= s && h == s / 3600 && m == (s % 3600) / 60 && sec == s % 60
    ensures ParseClock(r) == Some(s)
  {
    ParseLongClock(r);
    HoursMinutesSeconds(s, h, m, sec);
  }

  lemma HoursMinutesSeconds(s: int, h: int, m: int, sec: int)
    requires 0 <= s && h == s / 3600 && m == (s % 3600) / 60 && sec == s % 60
    ensures 3600 * h + 60 * m + sec == s
  {
    DivMod(s, 3600);
    DivMod(s % 3600, 60);
    ModOfMod(s);
  }

  lemma ParseShortClock(r: string)
    requires |r| == 5 && r[2] == ':' && AllDigits(r[..2]) && AllDigits(r[3..])
    ensures ParseClock(r) == Some(60 * TwoDigitValue(r[..2]) + TwoDigitValue(r[3..]))
  {
  }

  lemma ParseLongClock(r: string)
    requires |r| == 8 && r[2] == ':' && r[5] == ':'
    requires AllDigits(r[..2]) && AllDigits(r[3..5]) && AllDigits(r[6..])
    ensures ParseClock(r) == Some(3600 * TwoDigitValue(r[..2]) + 60 * TwoDigitValue(r[3..5]) + TwoDigitValue(r[6..]))
  {
  }

  lemma DivMod(x: int, d: int)
    requires d > 0
    ensures d * (x / d) + x % d == x
  {
  }

  lemma ModOfMod(s: int)
    ensures s % 3600 % 60 == s % 60
  {
    var q, r := s / 3600, s % 3600;
    var m, t := r / 60, r % 60;
    assert s == 60 * (60 * q + m) + t;
  }

  /** From a day up, only the whole days are printed, with "s" exactly when there is more than one. */
  lemma {:induction false} DaysRoundTrip(s: int)
    requires s >= 86400
    ensures ParseDays(SecondsInDDHHMMSS(s)) == Some((s / 86400, s / 86400 > 1))
  {
    var days := s / 86400;
    var d := DecimalString(days);
    var r := SecondsInDDHHMMSS(s);
    DecimalRoundTrip(days);
    if days > 1 {
      assert r == d + " days";
      assert r[..|r| - 5] == d;
    } else {
      assert r == d + " day";
      assert r[..|r| - 4] == d;
      assert r[|r| - 5] == d[|d| - 1];
      assert IsDigit(d[|d| - 1]);
    }
  }

  // ---------------------------------------------------------------------
  // clean

  const Quote := "\""
  const EscapedQuote := "\\\""

  /** `str.trim().replace("\"", "\\\"")`. */
  function Clean(str: string): (r: string)
    ensures forall i :: 0 <= i < |r| && r[i] == '"' ==> 0 < i && r[i - 1] == '\\'
  {
    var t := Trim(str);
    var r := ReplaceAll(t, Quote, EscapedQuote);
    EscapeQuotesMarksEachQuote(t, r);
    r
  }

  lemma {:induction false} EscapeQuotesMarksEachQuote(t: string, r: string)
    requires r == ReplaceAll(t, Quote, EscapedQuote)
    ensures forall i :: 0 <= i < |r| && r[i] == '"' ==> 0 < i && r[i - 1] == '\\'
  {
    if t != [] {
      var tail := ReplaceAll(t[1..], Quote, EscapedQuote);
      EscapeQuotesMarksEachQuote(t[1..], tail);
      EscapeNeverStartsWithQuote(t[1..]);
      if t[..1] == Quote {
        assert r == EscapedQuote + tail;
      } else {
        assert r == [t[0]] + tail;
        assert t[0] != '"';
      }
    }
  }

  lemma EscapeNeverStartsWithQuote(t: string)
    ensures var r := ReplaceAll(t, Quote, EscapedQuote);
      r == [] || r[0] != '"'
  {
  }

  /** Undoes the escaping: each backslash directly followed by a quote is dropped. */
  function Unescape(r: string): string {
    if |r| >= 2 && r[0] == '\\' && r[1] == '"' then "\"" + Unescape(r[2..])
    else if r == [] then []
    else [r[0]] + Unescape(r[1..])
  }

  /** Escaping loses nothing: unescaping gives back the original text. */
  lemma {:induction false} EscapeRoundTrip(t: string)
    ensures Unescape(ReplaceAll(t, Quote, EscapedQuote)) == t
  {
    if t != [] {
      var tail := ReplaceAll(t[1..], Quote, EscapedQuote);
      EscapeRoundTrip(t[1..]);
      EscapeNeverStartsWithQuote(t[1..]);
      if t[..1] == Quote {
        assert ReplaceAll(t, Quote, EscapedQuote) == EscapedQuote + tail;
        assert (EscapedQuote + tail)[2..] == tail;
      } else {
        assert ReplaceAll(t, Quote, EscapedQuote) == [t[0]] + tail;
        assert ([t[0]] + tail)[1..] == tail;
      }
    }
  }

  /** `clean` keeps the trimmed text intact: unescaping its result gives `str.trim()`. */
  lemma CleanRoundTrip(str: string)
    ensures Unescape(Clean(str)) == Trim(str)
  {
    EscapeRoundTrip(Trim(str));
  }

  /** Text with no quotes and no surrounding whitespace comes back unchanged. */
  lemma CleanLeavesPlainText(str: string)
    requires !Contains(str, Quote)
    requires str == [] || (!IsTrimmable(str[0]) && !IsTrimmable(str[|str| - 1]))
    ensures Clean(str) == str
  {
    TrimLeavesTidyString(str);
  }
}

/**
 * The duration formatter `formatar_tempo` (main.py:13-17): a time span
 * truncated to whole seconds and written as hours, minutes and seconds
 * separated by colons, each field zero-padded to two digits, the hour
 * field growing past two digits without bound.
 */
module Duration {
  import opened Wrappers
  import opened Numerals

  const MicrosPerSecond: nat := 1_000_000
  const SecondsPerHour: nat := 3600
  const SecondsPerMinute: nat := 60

  /** `formatar_tempo` once the span is a whole number of seconds. */
  function FormatSeconds(total: nat): (r: string)
    ensures IsClock(r)
  {
    var h, m, s := total / SecondsPerHour, total % SecondsPerHour / SecondsPerMinute, total % SecondsPerMinute;
    Pad2Small(m);
    Pad2Small(s);
    Pad2Value(h);
    Pad2(h) + ":" + Pad2(m) + ":" + Pad2(s)
  }

  /**
   * `formatar_tempo(delta)` for a non-negative span given in microseconds:
   * `int(delta.total_seconds())` drops the fraction of a second.
   */
  function FormatSpan(micros: nat): (r: string)
    ensures IsClock(r)
  {
    FormatSeconds(micros / MicrosPerSecond)
  }

  /** The field of a clock text that holds the hours. */
  function HourText(r: string): string
    requires |r| >= 8
  {
    r[..|r| - 6]
  }

  function MinuteText(r: string): string
    requires |r| >= 8
  {
    r[|r| - 5..|r| - 3]
  }

  function SecondText(r: string): string
    requires |r| >= 8
  {
    r[|r| - 2..]
  }

  /**
   * The texts the formatter can write, `^\d{2,}:[0-5]\d:[0-5]\d$` with
   * the hour field written as `Pad2` writes it (no leading zero beyond
   * two digits).
   */
  predicate IsClock(r: string) {
    |r| >= 8 && r[|r| - 6] == ':' && r[|r| - 3] == ':' &&
    PaddedNumeral(HourText(r)) &&
    AllDigits(MinuteText(r)) && r[|r| - 5] <= '5' &&
    AllDigits(SecondText(r)) && r[|r| - 2] <= '5'
  }

  /** Reads a clock text back into a whole number of seconds. */
  function ParseClock(r: string): Option<nat> {
    if IsClock(r) then
      Some(ValueOf(HourText(r)) * SecondsPerHour + ValueOf(MinuteText(r)) * SecondsPerMinute + ValueOf(SecondText(r)))
    else
      None
  }

  /**
   * The three fields of `formatar_tempo`'s text hold `divmod`'s
   * quotients: whole hours, then minutes and seconds, each below 60.
   */
  lemma FormatFields(total: nat)
    ensures var r := FormatSeconds(total);
      ValueOf(HourText(r)) == total / 3600 &&
      ValueOf(MinuteText(r)) == total % 3600 / 60 < 60 &&
      ValueOf(SecondText(r)) == total % 60 &&
      |MinuteText(r)| == 2 && |SecondText(r)| == 2 &&
      (|HourText(r)| == 2 <==> total < 360000)
  {
    var r := FormatSeconds(total);
    var h, m, s := total / 3600, total % 3600 / 60, total % 60;
    assert r == Pad2(h) + ":" + Pad2(m) + ":" + Pad2(s);
    assert HourText(r) == Pad2(h);
    assert MinuteText(r) == Pad2(m);
    assert SecondText(r) == Pad2(s);
    Pad2Value(h);
    Pad2Value(m);
    Pad2Value(s);
    if h >= 100 {
      assert |Decimal(h)| >= 3 by {
        assert |Decimal(h / 10)| >= 2;
      }
    }
  }

  /** Quotient and remainder by an hour's seconds are the only such pair. */
  lemma DivideByHour(x: nat, q: nat, r: nat)
    requires x == q * 3600 + r && r < 3600
    ensures x / 3600 == q && x % 3600 == r
  {
  }

  /** Quotient and remainder by a minute's seconds are the only such pair. */
  lemma DivideByMinute(x: nat, q: nat, r: nat)
    requires x == q * 60 + r && r < 60
    ensures x / 60 == q && x % 60 == r
  {
  }

  /** A count of seconds is its hours, minutes and seconds put back together. */
  lemma ClockParts(total: nat)
    ensures total == total / 3600 * 3600 + total % 3600 / 60 * 60 + total % 60
  {
    var hours, low := total / 3600, total % 3600;
    var minutes, seconds := low / 60, low % 60;
    DivideByMinute(total, hours * 60 + minutes, seconds);
  }

  /** Reading the formatter's text back gives the number of seconds. */
  lemma ParseFormat(total: nat)
    ensures ParseClock(FormatSeconds(total)) == Some(total)
  {
    var r := FormatSeconds(total);
    FormatFields(total);
    ClockParts(total);
  }

  /** `divmod` recovers hours, minutes and seconds from their total. */
  lemma ClockArithmetic(total: nat, h: nat, m: nat, s: nat)
    requires total == h * 3600 + m * 60 + s && m < 60 && s < 60
    ensures total / 3600 == h && total % 3600 / 60 == m && total % 60 == s
  {
    DivideByHour(total, h, m * 60 + s);
    DivideByMinute(m * 60 + s, m, s);
    DivideByMinute(total, h * 60 + m, s);
  }

  /** The formatter writes hours, minutes and seconds as the three padded fields. */
  lemma FormatOfFields(total: nat, h: nat, m: nat, s: nat)
    requires total == h * 3600 + m * 60 + s && m < 60 && s < 60
    ensures FormatSeconds(total) == Pad2(h) + ":" + Pad2(m) + ":" + Pad2(s)
  {
    ClockArithmetic(total, h, m, s);
  }

  /** Three padded fields, minutes and seconds below 60, are how the formatter writes their total. */
  lemma FormatOfTexts(total: nat, hText: string, mText: string, sText: string)
    requires PaddedNumeral(hText) && PaddedNumeral(mText) && PaddedNumeral(sText)
    requires ValueOf(mText) < 60 && ValueOf(sText) < 60
    requires total == ValueOf(hText) * 3600 + ValueOf(mText) * 60 + ValueOf(sText)
    ensures FormatSeconds(total) == hText + ":" + mText + ":" + sText
  {
    Pad2OfValue(hText);
    Pad2OfValue(mText);
    Pad2OfValue(sText);
    FormatOfFields(total, ValueOf(hText), ValueOf(mText), ValueOf(sText));
  }

  /** A clock text is its three fields joined by colons. */
  lemma ClockFields(r: string)
    requires IsClock(r)
    ensures r == HourText(r) + ":" + MinuteText(r) + ":" + SecondText(r)
  {
  }

  /** Every clock text is the formatter's rendering of what it reads as. */
  lemma FormatParse(r: string)
    requires ParseClock(r).Some?
    ensures FormatSeconds(ParseClock(r).value) == r
  {
    var h, m, s := HourText(r), MinuteText(r), SecondText(r);
    assert ValueOf(m) < 60 && ValueOf(s) < 60 by {
      assert m[0] <= '5' && s[0] <= '5';
      ValueOfTwo(m);
      ValueOfTwo(s);
    }
    FormatOfTexts(ParseClock(r).value, h, m, s);
    ClockFields(r);
  }

  /** Distinct whole-second counts are written differently. */
  lemma FormatSecondsInjective(a: nat, b: nat)
    ensures FormatSeconds(a) == FormatSeconds(b) <==> a == b
  {
    ParseFormat(a);
    ParseFormat(b);
  }

  /**
   * The formatter sees only the truncated whole-second count: two spans
   * print alike exactly when they agree in whole seconds.
   */
  lemma FormatSpanTruncates(a: nat, b: nat)
    ensures FormatSpan(a) == FormatSpan(b) <==> a / MicrosPerSecond == b / MicrosPerSecond
  {
    FormatSecondsInjective(a / MicrosPerSecond, b / MicrosPerSecond);
  }
}

/**
 * Worked cases of the engine: deadlines ahead, behind and on the
 * current date, a text that is no deadline, and the leniency and
 * strictness of the two `strptime` formats, a date that does not exist.
 */
module Scenarios {
  import opened Wrappers
  import opened Numerals
  import opened Duration
  import opened Calendar
  import opened DeadlineParser
  import opened RowStatus
  import opened TableAnnotator
  import opened DeadlineSpelling

  function Blank(termino: string): Row {
    map[ItemColumn := Value("peça"), OperadorColumn := Value("Ana"), TerminoColumn := Value(termino),
        RestanteColumn := Value(""), ExcedenteColumn := Value("")]
  }

  // ----- Literal texts, character by character -----

  /** Minutes and seconds after an hour text, written out character by character. */
  lemma ClockCharacters(hText: string, m: nat, s: nat)
    requires m < 100 && s < 100
    ensures hText + ":" + Pad2(m) + ":" + Pad2(s) ==
      hText + [':', DigitChar(m / 10), DigitChar(m % 10), ':', DigitChar(s / 10), DigitChar(s % 10)]
  {
    Pad2Small(m);
    Pad2Small(s);
  }

  /** A zero-padded time of day, written out character by character. */
  lemma TimeOfDayCharacters(h: nat, m: nat, s: nat)
    requires h < 100 && m < 100 && s < 100
    ensures FormatTimeOfDay(h, m, s) ==
      [DigitChar(h / 10), DigitChar(h % 10), ':', DigitChar(m / 10), DigitChar(m % 10), ':', DigitChar(s / 10), DigitChar(s % 10)]
  {
    Pad2Small(h);
    ClockCharacters(Pad2(h), m, s);
  }

  /** A date and time in the full format, written out character by character. */
  lemma FullCharacters(t: DateTime)
    requires ValidDateTime(t)
    ensures var d, mo, y := t.date.day, t.date.month, t.date.year;
      FormatFull(t) ==
        [DigitChar(d / 10), DigitChar(d % 10), '/', DigitChar(mo / 10), DigitChar(mo % 10), '/',
         DigitChar(y / 100 / 10), DigitChar(y / 100 % 10), DigitChar(y % 100 / 10), DigitChar(y % 100 % 10), ' '] +
        FormatTimeOfDay(t.hour, t.minute, t.second)
  {
    var d, mo, y := t.date.day, t.date.month, t.date.year;
    Pad2Small(d);
    Pad2Small(mo);
    Pad2Small(y / 100);
    Pad2Small(y % 100);
    DateCharacters(DigitChar(d / 10), DigitChar(d % 10), DigitChar(mo / 10), DigitChar(mo % 10),
      DigitChar(y / 100 / 10), DigitChar(y / 100 % 10), DigitChar(y % 100 / 10), DigitChar(y % 100 % 10));
  }

  /** The date part of the full format, from the two-character pieces it is joined from. */
  lemma DateCharacters(d0: char, d1: char, m0: char, m1: char, c0: char, c1: char, y0: char, y1: char)
    ensures [d0, d1] + "/" + [m0, m1] + "/" + ([c0, c1] + [y0, y1]) + " " ==
      [d0, d1, '/', m0, m1, '/', c0, c1, y0, y1, ' ']
  {
  }

  /** The date part and the clock part of the full format joined, character by character. */
  lemma DateAndClock(date: string, clock: string)
    requires |date| == 11 && |clock| == 8
    ensures date + clock ==
      [date[0], date[1], date[2], date[3], date[4], date[5], date[6], date[7], date[8], date[9], date[10],
       clock[0], clock[1], clock[2], clock[3], clock[4], clock[5], clock[6], clock[7]]
  {
  }

  lemma MinuteClockText()
    ensures FormatSeconds(60) == "00:01:00"
  {
    FormatOfFields(60, 0, 1, 0);
    Pad2Small(0);
    ClockCharacters(Pad2(0), 1, 0);
  }

  lemma FourteenThirtyText()
    ensures FormatTimeOfDay(14, 30, 0) == "14:30:00"
  {
    TimeOfDayCharacters(14, 30, 0);
  }

  lemma FourteenThirtyToday()
    ensures ParseDeadline("14:30:00", Date(2024, 6, 1)) == Some(DateTime(Date(2024, 6, 1), 14, 30, 0))
  {
    FourteenThirtyText();
    TimeOnlyOnToday(14, 30, 0, Date(2024, 6, 1));
  }

  lemma TerminoOfBlank()
    ensures TerminoText(Blank("14:30:00")) == Some("14:30:00")
  {
  }

  lemma MinuteApart()
    ensures var today := Date(2024, 6, 1);
      DeadlineMicros(DateTime(today, 14, 30, 0)) == DeadlineMicros(DateTime(today, 14, 29, 0)) + 60 * MicrosPerSecond
  {
  }

  /** A time of day on today's date, a minute ahead: one minute remains. */
  lemma TimeOfDayAheadOfNow()
    ensures var today := Date(2024, 6, 1);
      var now := DeadlineMicros(DateTime(today, 14, 29, 0));
      DecideRow(Blank("14:30:00"), Reading(today, now)) == Write("00:01:00", DentroDoTempo)
  {
    var today := Date(2024, 6, 1);
    var now := DeadlineMicros(DateTime(today, 14, 29, 0));
    var deadline := DateTime(today, 14, 30, 0);
    FourteenThirtyToday();
    TerminoOfBlank();
    MinuteApart();
    MinuteClockText();
    var st := Classify(DeadlineMicros(deadline), now);
    assert st == Pending(60 * MicrosPerSecond);
    assert DerivedCells(st) == ("00:01:00", DentroDoTempo);
  }

  lemma NewYear2020Text()
    ensures FormatFull(DateTime(Date(2020, 1, 1), 0, 0, 0)) == "01/01/2020 00:00:00"
  {
    FullCharacters(DateTime(Date(2020, 1, 1), 0, 0, 0));
    TimeOfDayCharacters(0, 0, 0);
    DateAndClock("01/01/2020 ", "00:00:00");
  }

  lemma FourYearsInHours()
    ensures FormatSeconds(1461 * 86400) == "35064:00:00"
  {
    FormatOfFields(1461 * 86400, 35064, 0, 0);
    HoursOfFourYears();
    ClockCharacters(Pad2(35064), 0, 0);
  }

  lemma HoursOfFourYears()
    ensures Pad2(35064) == "35064"
  {
    assert Decimal(3) == [DigitChar(3)];
    assert Decimal(35) == [DigitChar(3), DigitChar(5)];
    assert Decimal(350) == [DigitChar(3), DigitChar(5), DigitChar(0)];
    assert Decimal(3506) == [DigitChar(3), DigitChar(5), DigitChar(0), DigitChar(6)];
    assert Decimal(35064) == [DigitChar(3), DigitChar(5), DigitChar(0), DigitChar(6), DigitChar(4)];
  }

  lemma FourYearsOfDays()
    ensures DayNumber(Date(2024, 1, 1)) == DayNumber(Date(2020, 1, 1)) + 1461
  {
  }

  lemma NewYear2020Parsed(today: CivilDate)
    ensures ParseDeadline("01/01/2020 00:00:00", today) == Some(DateTime(Date(2020, 1, 1), 0, 0, 0))
  {
    NewYear2020Text();
    FullRoundTrip(DateTime(Date(2020, 1, 1), 0, 0, 0), today);
  }

  lemma NewYear2020Termino()
    ensures TerminoText(Blank("01/01/2020 00:00:00")) == Some("01/01/2020 00:00:00")
  {
  }

  /** At midnight a deadline is its day number in whole days of microseconds. */
  lemma MidnightMicros(t: DateTime)
    requires ValidDateTime(t) && t.hour == 0 && t.minute == 0 && t.second == 0
    ensures DeadlineMicros(t) == DayNumber(t.date) * 86_400_000_000
  {
    assert SecondsOf(t) == DayNumber(t.date) * 86400;
  }

  /** Two midnights some days apart are that many days of microseconds apart. */
  lemma MidnightsApart(a: DateTime, b: DateTime, days: nat)
    requires ValidDateTime(a) && a.hour == 0 && a.minute == 0 && a.second == 0
    requires ValidDateTime(b) && b.hour == 0 && b.minute == 0 && b.second == 0
    requires DayNumber(b.date) == DayNumber(a.date) + days
    ensures DeadlineMicros(b) == DeadlineMicros(a) + days * 86_400_000_000
  {
    MidnightMicros(a);
    MidnightMicros(b);
  }

  /** Four years of days, 1461 of them, as a span of microseconds between the two midnights. */
  lemma FourYearsOfMicros()
    ensures DeadlineMicros(DateTime(Date(2024, 1, 1), 0, 0, 0)) ==
      DeadlineMicros(DateTime(Date(2020, 1, 1), 0, 0, 0)) + 1461 * 86400 * MicrosPerSecond
  {
    assert 1461 * 86400 * MicrosPerSecond == 1461 * 86_400_000_000;
    FourYearsOfDays();
    MidnightsApart(DateTime(Date(2020, 1, 1), 0, 0, 0), DateTime(Date(2024, 1, 1), 0, 0, 0), 1461);
  }

  lemma FourYearsLate()
    ensures var deadline := DateTime(Date(2020, 1, 1), 0, 0, 0);
      DerivedCells(Classify(DeadlineMicros(deadline), DeadlineMicros(DateTime(Date(2024, 1, 1), 0, 0, 0)))) ==
        (Expirado, "35064:00:00")
  {
    var span := 1461 * 86400 * MicrosPerSecond;
    var deadline, now := DeadlineMicros(DateTime(Date(2020, 1, 1), 0, 0, 0)), DeadlineMicros(DateTime(Date(2024, 1, 1), 0, 0, 0));
    assert Classify(deadline, now) == Expired(span) by {
      FourYearsOfMicros();
    }
    assert FormatSpan(span) == "35064:00:00" by {
      assert span / MicrosPerSecond == 1461 * 86400;
      FourYearsInHours();
    }
  }

  /** A deadline four years back: expired by 35064 whole hours. */
  lemma FullDateLongExpired()
    ensures var today := Date(2024, 1, 1);
      var now := DeadlineMicros(DateTime(today, 0, 0, 0));
      DecideRow(Blank("01/01/2020 00:00:00"), Reading(today, now)) == Write(Expirado, "35064:00:00")
  {
    NewYear2020Parsed(Date(2024, 1, 1));
    NewYear2020Termino();
    FourYearsLate();
  }

  /** A text that is no deadline is reported and its row left as it was. */
  lemma NotADateIsReported(reading: Reading)
    ensures DecideRow(Blank("not-a-date"), reading) == Reject("not-a-date")
    ensures AnnotateRow(Blank("not-a-date"), reading) == Blank("not-a-date")
  {
    NotADateTermino();
    NotADateUnparsed(reading.today);
  }

  lemma NotADateTermino()
    ensures TerminoText(Blank("not-a-date")) == Some("not-a-date")
  {
  }

  lemma NotADateHasNoSeparators()
    ensures ':' !in "not-a-date" && '/' !in "not-a-date"
  {
    var s := "not-a-date";
    assert forall i :: 0 <= i < |s| ==> s[i] != ':' && s[i] != '/';
  }

  lemma NotADateUnparsed(today: CivilDate)
    ensures ParseDeadline("not-a-date", today) == None
  {
    NotADateHasNoSeparators();
    NoSlashMeansToday("not-a-date", today);
    assert SplitAt("not-a-date", ':').None?;
  }

  lemma AprilTexts()
    ensures Pad2(31) == "31" && Pad2(4) == "04" && Pad4(2024) == "2024"
    ensures "2024 10:00:00" == Pad4(2024) + " " + FormatTimeOfDay(10, 0, 0)
  {
    Pad2Small(31);
    Pad2Small(4);
    Pad2Small(20);
    Pad2Small(24);
    TimeOfDayCharacters(10, 0, 0);
    assert Pad4(2024) == [DigitChar(2), DigitChar(0), DigitChar(2), DigitChar(4)];
    YearAndClock(Pad4(2024), FormatTimeOfDay(10, 0, 0));
  }

  /** A year and a clock joined by a space, character by character. */
  lemma YearAndClock(year: string, clock: string)
    requires |year| == 4 && |clock| == 8
    ensures year + " " + clock ==
      [year[0], year[1], year[2], year[3], ' ', clock[0], clock[1], clock[2], clock[3], clock[4], clock[5], clock[6], clock[7]]
  {
  }

  /**
   * "31/04/2024 10:00:00" matches every directive of the full format,
   * but April has 30 days, so `datetime` refuses it; it has slashes, so
   * the time-of-day format refuses it too.
   */
  lemma ThirtyFirstOfAprilUnparsed(today: CivilDate)
    ensures ParseFull("31/04/2024 10:00:00") == None
    ensures ParseDeadline("31/04/2024 10:00:00", today) == None
  {
    var s := "31/04/2024 10:00:00";
    assert ParseFull(s) == None by {
      AprilSplit();
      AprilFieldsRefused();
    }
    assert '/' in s by {
      assert s[2] == '/';
    }
    SlashMeansFullFormat(s, today);
  }

  /** The text cut at its two slashes. */
  lemma AprilSplit()
    ensures ParseFull("31/04/2024 10:00:00") == ParseFullFields("31", "04", "2024 10:00:00")
  {
    assert "31/04/2024 10:00:00" == "31" + "/" + ("04" + "/" + "2024 10:00:00");
    FullSplit("31", "04", "2024 10:00:00");
  }

  /** Every field reads, but the date they make does not exist. */
  lemma AprilFieldsRefused()
    ensures ParseFullFields("31", "04", "2024 10:00:00") == None
  {
    AprilFields();
    assert !ValidDate(Date(2024, 4, 31)) by {
      assert DaysInMonth(2024, 4) == 30;
    }
  }

  /** Each field of "31/04/2024 10:00:00" is read: day 31, month 4, year 2024, 10:00:00. */
  lemma AprilFields()
    ensures var rest := "2024 10:00:00";
      |rest| >= 5 && IsSpace(rest[4]) &&
      DayField("31") == Some(31) && MonthField("04") == Some(4) &&
      YearField(rest[..4]) == Some(2024) && ParseTimeFields(SkipSpaces(rest[4..])) == Some((10, 0, 0))
  {
    var clock := PaddedClock(10, 0, 0);
    AprilTexts();
    assert AllSpaces(" ") by {
      assert " " == [' '];
    }
    RestParses(2024, " ", clock, 10, 0, 0);
    DayFieldSpelled("31", 31);
    NumericFieldSpelled("04", 1, 12, 4);
  }

  /** The row holding a date that does not exist is reported and left as it was. */
  lemma ThirtyFirstOfAprilDecided(reading: Reading)
    ensures var row := Blank("31/04/2024 10:00:00");
      DecideRow(row, reading) == Reject("31/04/2024 10:00:00") && AnnotateRow(row, reading) == row
  {
    assert TerminoText(Blank("31/04/2024 10:00:00")) == Some("31/04/2024 10:00:00");
    ThirtyFirstOfAprilUnparsed(reading.today);
  }

  /** In a one-row sheet, that report names line 2 and the text. */
  lemma ThirtyFirstOfAprilReported(clock: nat -> Reading)
    ensures ParseErrors([Blank("31/04/2024 10:00:00")], clock) == [ParseError(2, "31/04/2024 10:00:00")]
  {
    var rows := [Blank("31/04/2024 10:00:00")];
    var actions := RowActions(rows, clock);
    ThirtyFirstOfAprilDecided(clock(0));
    assert actions[0] == Reject("31/04/2024 10:00:00");
    ReportsStep(actions, 0);
    assert actions[..1] == actions && actions[..0] == [];
  }
}

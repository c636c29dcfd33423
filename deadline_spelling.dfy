/**
 * The texts each of the two deadline formats accepts, described
 * independently of the parser: which spellings of a field `_strptime`'s
 * patterns admit, how the fields are separated, and which date and time
 * a text spells. The lemmas prove that the parser accepts exactly these
 * texts and returns exactly the value they spell.
 */
module DeadlineSpelling {
  import opened Wrappers
  import opened Numerals
  import opened Calendar
  import opened DeadlineParser

  /** The spellings of a one- or two-digit directive for `v`: one digit, or two digits zero-padded. */
  predicate SpellsField(t: string, v: int) {
    0 <= v < 100 && (t == Pad2(v) || t == Decimal(v))
  }

  /** `%d` also admits a space before a single non-zero digit. */
  predicate SpellsDay(t: string, d: int) {
    SpellsField(t, d) || (1 <= d <= 9 && t == [' ', DigitChar(d)])
  }

  predicate AllSpaces(s: string) {
    forall i :: 0 <= i < |s| ==> IsSpace(s[i])
  }

  /** The three fields of a `%H:%M:%S` text as they are spelled. */
  datatype ClockSpelling = ClockSpelling(hourText: string, minuteText: string, secondText: string)

  function ClockText(sp: ClockSpelling): string {
    sp.hourText + ":" + sp.minuteText + ":" + sp.secondText
  }

  predicate SpellsClock(sp: ClockSpelling, h: int, m: int, sec: int) {
    SpellsField(sp.hourText, h) && SpellsField(sp.minuteText, m) && SpellsField(sp.secondText, sec)
  }

  /** `s` spells the hour, minute and second `h`, `m`, `sec` in the `%H:%M:%S` format. */
  ghost predicate SpellsTimeOfDay(s: string, h: int, m: int, sec: int) {
    exists sp :: ClockText(sp) == s && SpellsClock(sp, h, m, sec)
  }

  /**
   * The parts of a `%d/%m/%Y %H:%M:%S` text that may be spelled in more
   * than one way: day, month, the whitespace run, and the time of day.
   */
  datatype DateSpelling = DateSpelling(dayText: string, monthText: string, gap: string, clock: ClockSpelling)

  function DateText(sp: DateSpelling, year: nat): string
    requires year <= 9999
  {
    sp.dayText + "/" + sp.monthText + "/" + Pad4(year) + sp.gap + ClockText(sp.clock)
  }

  predicate SpellsDateTimeFields(sp: DateSpelling, t: DateTime) {
    SpellsDay(sp.dayText, t.date.day) && SpellsField(sp.monthText, t.date.month) &&
    sp.gap != [] && AllSpaces(sp.gap) && SpellsClock(sp.clock, t.hour, t.minute, t.second)
  }

  /** `s` spells the valid date and time `t` in the `%d/%m/%Y %H:%M:%S` format. */
  ghost predicate SpellsDateTime(s: string, t: DateTime) {
    ValidDateTime(t) && exists sp :: DateText(sp, t.date.year) == s && SpellsDateTimeFields(sp, t)
  }

  // ----- The zero-padded spellings, the ones a writer of either format produces -----

  /** A time of day with every field zero-padded to two digits. */
  function PaddedClock(h: nat, m: nat, sec: nat): ClockSpelling {
    ClockSpelling(Pad2(h), Pad2(m), Pad2(sec))
  }

  /** A date and time with day and month zero-padded and one space before the time of day. */
  function PaddedDate(t: DateTime): DateSpelling
    requires ValidDateTime(t)
  {
    DateSpelling(Pad2(t.date.day), Pad2(t.date.month), " ", PaddedClock(t.hour, t.minute, t.second))
  }

  /** A time of day written in the `%H:%M:%S` format, every field zero-padded. */
  function FormatTimeOfDay(h: nat, m: nat, sec: nat): string {
    ClockText(PaddedClock(h, m, sec))
  }

  /** A date and time written in the `%d/%m/%Y %H:%M:%S` format, zero-padded, the year to four digits. */
  function FormatFull(t: DateTime): string
    requires ValidDateTime(t)
  {
    DateText(PaddedDate(t), t.date.year)
  }

  // ----- Fields -----

  lemma DigitCharOfValue(c: char)
    requires IsDigit(c)
    ensures DigitChar(DigitValue(c)) == c
  {
  }

  /** A spelled field is one or two digits, so it holds neither separator. */
  lemma SpelledFieldDigits(t: string, v: int)
    ensures SpellsField(t, v) ==> 1 <= |t| <= 2 && AllDigits(t) && '/' !in t && ':' !in t
  {
  }

  lemma SpelledDayNoSlash(t: string, d: int)
    ensures SpellsDay(t, d) ==> '/' !in t
  {
    SpelledFieldDigits(t, d);
  }

  /** A one- or two-digit directive reads `v` from exactly the spellings of `v` within its bounds. */
  lemma NumericFieldSpelled(t: string, lo: nat, hi: nat, v: int)
    requires lo <= hi && 9 <= hi < 100
    ensures NumericField(t, lo, hi) == Some(v) <==> lo <= v <= hi && SpellsField(t, v)
  {
    if NumericField(t, lo, hi) == Some(v) {
      if |t| == 1 {
        DigitCharOfValue(t[0]);
        assert t == Decimal(v);
      } else {
        ValueOfTwo(t);
        Pad2OfValue(t);
      }
    }
    if lo <= v <= hi && SpellsField(t, v) {
      Pad2Value(v);
      if v < 10 && t == Decimal(v) {
        assert t == [DigitChar(v)];
      } else {
        assert t == Pad2(v);
      }
    }
  }

  /** `%d` reads `d` from exactly the spellings of a day `d` in 1..31. */
  lemma DayFieldSpelled(t: string, d: int)
    ensures DayField(t) == Some(d) <==> 1 <= d <= 31 && SpellsDay(t, d)
  {
    SpelledFieldDigits(t, d);
    if |t| == 2 && t[0] == ' ' && '1' <= t[1] <= '9' {
      DigitCharOfValue(t[1]);
    } else {
      NumericFieldSpelled(t, 1, 31, d);
    }
  }

  /** Two more digits after a numeral multiply its value by 100. */
  lemma ValueOfAppendTwo(a: string, b: string)
    requires AllDigits(a) && AllDigits(b) && |b| == 2
    ensures AllDigits(a + b) && ValueOf(a + b) == ValueOf(a) * 100 + ValueOf(b)
  {
    var ab := a + b;
    assert ab[..|ab| - 1] == a + [b[0]];
    assert (a + [b[0]])[..|a|] == a;
    ValueOfTwo(b);
  }

  /** Every four-digit text is the four-digit rendering of its value. */
  lemma Pad4OfValue(t: string)
    requires |t| == 4 && AllDigits(t)
    ensures ValueOf(t) <= 9999 && Pad4(ValueOf(t)) == t
  {
    var hi, lo := t[..2], t[2..];
    assert t == hi + lo;
    ValueOfAppendTwo(hi, lo);
    ValueOfTwo(hi);
    ValueOfTwo(lo);
    var v := ValueOf(t);
    assert v / 100 == ValueOf(hi) && v % 100 == ValueOf(lo);
    Pad2OfValue(hi);
    Pad2OfValue(lo);
  }

  /** `%Y` reads `y` from exactly the four-digit rendering of `y`. */
  lemma YearFieldSpelled(t: string, y: int)
    ensures YearField(t) == Some(y) <==> 0 <= y <= 9999 && t == Pad4(y)
  {
    if |t| == 4 && AllDigits(t) {
      Pad4OfValue(t);
    }
    if 0 <= y <= 9999 {
      Pad4Value(y);
    }
  }

  // ----- Whitespace -----

  /** A run of whitespace before a text that starts with a non-space is skipped, and only it. */
  lemma {:induction false} SkipSpacesRun(gap: string, rest: string)
    requires AllSpaces(gap) && (rest == [] || !IsSpace(rest[0]))
    ensures SkipSpaces(gap + rest) == rest
    decreases |gap|
  {
    if gap != [] {
      assert (gap + rest)[1..] == gap[1..] + rest;
      SkipSpacesRun(gap[1..], rest);
    } else {
      assert gap + rest == rest;
    }
  }

  /** Whitespace skipping drops at least the leading whitespace character. */
  lemma SkipSpacesDrops(s: string)
    requires s != [] && IsSpace(s[0])
    ensures |SkipSpaces(s)| < |s|
  {
  }

  // ----- The `%H:%M:%S` format -----

  /**
   * The time fields read (h, m, sec) from exactly the texts that spell
   * them, hour up to 23, minute up to 59, second up to 61.
   */
  lemma TimeFieldsSpelled(s: string, h: nat, m: nat, sec: nat)
    ensures ParseTimeFields(s) == Some((h, m, sec)) <==>
      h <= 23 && m <= 59 && sec <= 61 && SpellsTimeOfDay(s, h, m, sec)
  {
    if ParseTimeFields(s) == Some((h, m, sec)) {
      var hr := SplitAt(s, ':').value;
      var ms := SplitAt(hr.1, ':').value;
      NumericFieldSpelled(hr.0, 0, 23, h);
      NumericFieldSpelled(ms.0, 0, 59, m);
      NumericFieldSpelled(ms.1, 0, 61, sec);
      var sp := ClockSpelling(hr.0, ms.0, ms.1);
      assert ClockText(sp) == s;
    }
    if h <= 23 && m <= 59 && sec <= 61 && SpellsTimeOfDay(s, h, m, sec) {
      var sp :| ClockText(sp) == s && SpellsClock(sp, h, m, sec);
      TimeSpellingParses(sp, h, m, sec);
    }
  }

  lemma TimeSpellingParses(sp: ClockSpelling, h: nat, m: nat, sec: nat)
    requires h <= 23 && m <= 59 && sec <= 61 && SpellsClock(sp, h, m, sec)
    ensures ParseTimeFields(ClockText(sp)) == Some((h, m, sec))
  {
    var hText, mText, sText := sp.hourText, sp.minuteText, sp.secondText;
    SpelledFieldDigits(hText, h);
    SpelledFieldDigits(mText, m);
    var tail := mText + ":" + sText;
    assert ClockText(sp) == hText + [':'] + tail;
    SplitAtConcat(hText, ':', tail);
    assert tail == mText + [':'] + sText;
    SplitAtConcat(mText, ':', sText);
    NumericFieldSpelled(hText, 0, 23, h);
    NumericFieldSpelled(mText, 0, 59, m);
    NumericFieldSpelled(sText, 0, 61, sec);
  }

  /**
   * `strptime(s, '%H:%M:%S')` succeeds with (h, m, sec) exactly when `s`
   * spells them and they make a time of day (second 60 and 61 refused).
   */
  lemma TimeOnlySpelled(s: string, h: nat, m: nat, sec: nat)
    ensures ParseTimeOnly(s) == Some((h, m, sec)) <==>
      h < 24 && m < 60 && sec < 60 && SpellsTimeOfDay(s, h, m, sec)
  {
    TimeFieldsSpelled(s, h, m, sec);
  }

  /** A time-of-day text holds no slash. */
  lemma TimeOfDayHasNoSlash(s: string)
    ensures ParseTimeOnly(s).Some? ==> '/' !in s
  {
    if ParseTimeOnly(s).Some? {
      var hms := ParseTimeOnly(s).value;
      TimeOnlySpelled(s, hms.0, hms.1, hms.2);
      var sp :| ClockText(sp) == s && SpellsClock(sp, hms.0, hms.1, hms.2);
      SpelledFieldDigits(sp.hourText, hms.0);
      SpelledFieldDigits(sp.minuteText, hms.1);
      SpelledFieldDigits(sp.secondText, hms.2);
    }
  }

  /** A text with a slash is a deadline exactly when the full format reads it, as that date-time. */
  lemma SlashMeansFullFormat(s: string, today: Date)
    requires ValidDate(today) && '/' in s
    ensures ParseDeadline(s, today) == ParseFull(s)
  {
    TimeOfDayHasNoSlash(s);
  }

  // ----- The `%d/%m/%Y %H:%M:%S` format -----

  /** Every spelling of a valid date and time is read as that date and time. */
  lemma DateSpellingParses(sp: DateSpelling, t: DateTime)
    requires ValidDateTime(t) && SpellsDateTimeFields(sp, t)
    ensures ParseFull(DateText(sp, t.date.year)) == Some(t)
  {
    var y: nat := t.date.year;
    var rest := Pad4(y) + sp.gap + ClockText(sp.clock);
    SpelledDayNoSlash(sp.dayText, t.date.day);
    SpelledFieldDigits(sp.monthText, t.date.month);
    Regroup(sp.dayText, sp.monthText, Pad4(y), sp.gap, ClockText(sp.clock));
    FullSplit(sp.dayText, sp.monthText, rest);
    RestParses(y, sp.gap, sp.clock, t.hour, t.minute, t.second);
    DayFieldSpelled(sp.dayText, t.date.day);
    NumericFieldSpelled(sp.monthText, 1, 12, t.date.month);
    FullFieldsOf(sp.dayText, sp.monthText, rest, t);
  }

  /** After the second slash: the year, the whitespace run and the time of day each read back. */
  lemma RestParses(y: nat, gap: string, clock: ClockSpelling, h: nat, m: nat, sec: nat)
    requires y <= 9999 && gap != [] && AllSpaces(gap)
    requires h <= 23 && m <= 59 && sec <= 61 && SpellsClock(clock, h, m, sec)
    ensures var rest := Pad4(y) + gap + ClockText(clock);
      |rest| >= 5 && IsSpace(rest[4]) && YearField(rest[..4]) == Some(y) &&
      ParseTimeFields(SkipSpaces(rest[4..])) == Some((h, m, sec))
  {
    var c := ClockText(clock);
    Pad4Value(y);
    YearFieldSpelled(Pad4(y), y);
    SpelledFieldDigits(clock.hourText, h);
    assert c[0] == clock.hourText[0];
    DigitIsNotSpace(c[0]);
    RestSplits(Pad4(y), gap, c);
    TimeSpellingParses(clock, h, m, sec);
  }

  lemma DigitIsNotSpace(c: char)
    requires IsDigit(c)
    ensures !IsSpace(c)
  {
  }

  /** Four characters, a whitespace run, then a text that starts with a non-space: each part is found where the format looks for it. */
  lemma RestSplits(yearText: string, gap: string, clockText: string)
    requires |yearText| == 4 && gap != [] && AllSpaces(gap)
    requires clockText != [] && !IsSpace(clockText[0])
    ensures var rest := yearText + gap + clockText;
      |rest| >= 5 && IsSpace(rest[4]) && rest[..4] == yearText && SkipSpaces(rest[4..]) == clockText
  {
    var rest := yearText + gap + clockText;
    assert rest[4] == gap[0];
    assert rest[..4] == yearText;
    assert rest[4..] == gap + clockText;
    SkipSpacesRun(gap, clockText);
  }

  /** The full format on a text cut at its two slashes. */
  lemma FullSplit(dayText: string, monthText: string, rest: string)
    requires '/' !in dayText && '/' !in monthText
    ensures ParseFull(dayText + "/" + (monthText + "/" + rest)) == ParseFullFields(dayText, monthText, rest)
  {
    SplitAtConcat(dayText, '/', monthText + "/" + rest);
    SplitAtConcat(monthText, '/', rest);
  }

  /** Fields that each read back make the date and time they spell, when it is valid. */
  lemma FullFieldsOf(dayText: string, monthText: string, rest: string, t: DateTime)
    requires ValidDateTime(t) && |rest| >= 5 && IsSpace(rest[4])
    requires DayField(dayText) == Some(t.date.day) && MonthField(monthText) == Some(t.date.month)
    requires YearField(rest[..4]) == Some(t.date.year)
    requires ParseTimeFields(SkipSpaces(rest[4..])) == Some((t.hour, t.minute, t.second))
    ensures ParseFullFields(dayText, monthText, rest) == Some(t)
  {
  }

  /** Whatever the full format accepts is a spelling of the date and time it returns. */
  lemma ParsedDateIsSpelled(s: string, t: DateTime)
    requires ParseFull(s) == Some(t)
    ensures SpellsDateTime(s, t)
  {
    var dr := SplitAt(s, '/').value;
    var mr := SplitAt(dr.1, '/').value;
    assert s == dr.0 + "/" + (mr.0 + "/" + mr.1);
    FullFieldsRead(dr.0, mr.0, mr.1, t);
    FieldsAreSpelled(dr.0, mr.0, mr.1, t);
  }

  /** The full format's fields, once cut at the slashes, spell the date and time they are read as. */
  lemma FieldsAreSpelled(dayText: string, monthText: string, rest: string, t: DateTime)
    requires ValidDateTime(t) && |rest| >= 5 && IsSpace(rest[4])
    requires DayField(dayText) == Some(t.date.day) && MonthField(monthText) == Some(t.date.month)
    requires YearField(rest[..4]) == Some(t.date.year)
    requires ParseTimeFields(SkipSpaces(rest[4..])) == Some((t.hour, t.minute, t.second))
    ensures SpellsDateTime(dayText + "/" + (monthText + "/" + rest), t)
  {
    var gap, clock := RestIsSpelled(rest, t.date.year, t.hour, t.minute, t.second);
    var sp := DateSpelling(dayText, monthText, gap, clock);
    assert DateText(sp, t.date.year) == dayText + "/" + (monthText + "/" + rest) by {
      Regroup(dayText, monthText, Pad4(t.date.year), gap, ClockText(clock));
    }
    assert SpellsDateTimeFields(sp, t) by {
      DayFieldSpelled(dayText, t.date.day);
      NumericFieldSpelled(monthText, 1, 12, t.date.month);
    }
  }

  lemma Regroup(day: string, month: string, year: string, gap: string, clock: string)
    ensures day + "/" + month + "/" + year + gap + clock == day + "/" + (month + "/" + (year + gap + clock))
  {
  }

  /** What the full format's fields read when it accepts them. */
  lemma FullFieldsRead(dayText: string, monthText: string, rest: string, t: DateTime)
    requires ParseFullFields(dayText, monthText, rest) == Some(t)
    ensures ValidDateTime(t) && |rest| >= 5 && IsSpace(rest[4])
    ensures DayField(dayText) == Some(t.date.day) && MonthField(monthText) == Some(t.date.month)
    ensures YearField(rest[..4]) == Some(t.date.year)
    ensures ParseTimeFields(SkipSpaces(rest[4..])) == Some((t.hour, t.minute, t.second))
  {
  }

  /** What follows the month's slash, split into the year, the whitespace run and the time of day's spelling. */
  lemma RestIsSpelled(rest: string, y: nat, h: nat, m: nat, sec: nat) returns (gap: string, clock: ClockSpelling)
    requires |rest| >= 5 && IsSpace(rest[4]) && YearField(rest[..4]) == Some(y)
    requires ParseTimeFields(SkipSpaces(rest[4..])) == Some((h, m, sec))
    ensures y <= 9999 && rest == Pad4(y) + gap + ClockText(clock)
    ensures gap != [] && AllSpaces(gap) && SpellsClock(clock, h, m, sec)
  {
    YearFieldSpelled(rest[..4], y);
    clock := ClockSpellingOf(SkipSpaces(rest[4..]), h, m, sec);
    gap := GapBefore(rest[4..]);
    Reassemble(rest, gap, ClockText(clock));
  }

  /** The spelling of the fields a time-of-day text is read as. */
  lemma ClockSpellingOf(clockText: string, h: nat, m: nat, sec: nat) returns (clock: ClockSpelling)
    requires ParseTimeFields(clockText) == Some((h, m, sec))
    ensures ClockText(clock) == clockText && SpellsClock(clock, h, m, sec)
  {
    TimeFieldsSpelled(clockText, h, m, sec);
    clock :| ClockText(clock) == clockText && SpellsClock(clock, h, m, sec);
  }

  lemma Reassemble(rest: string, gap: string, clockText: string)
    requires |rest| >= 4 && rest[4..] == gap + clockText
    ensures rest == rest[..4] + gap + clockText
  {
    assert rest == rest[..4] + rest[4..];
  }

  /** The whitespace run a text starts with, when it starts with whitespace. */
  function GapBefore(s: string): (gap: string)
    requires s != [] && IsSpace(s[0])
    ensures gap != [] && AllSpaces(gap) && s == gap + SkipSpaces(s)
  {
    SkipSpacesDrops(s);
    var k := |s| - |SkipSpaces(s)|;
    var gap := s[..k];
    assert AllSpaces(gap) by {
      forall i | 0 <= i < k
        ensures IsSpace(gap[i])
      {
        assert gap[i] == s[i];
      }
    }
    assert s == gap + s[k..];
    gap
  }

  /**
   * `strptime(s, '%d/%m/%Y %H:%M:%S')` succeeds with `t` exactly when `s`
   * spells the valid date and time `t`.
   */
  lemma FullSpelled(s: string, t: DateTime)
    ensures ParseFull(s) == Some(t) <==> SpellsDateTime(s, t)
  {
    if ParseFull(s) == Some(t) {
      ParsedDateIsSpelled(s, t);
    }
    if SpellsDateTime(s, t) {
      var sp :| DateText(sp, t.date.year) == s && SpellsDateTimeFields(sp, t);
      DateSpellingParses(sp, t);
    }
  }

  /**
   * The deadline of a text: the date and time it spells in the full
   * format, or else the time of day it spells on the current date.
   */
  lemma DeadlineSpelled(s: string, today: Date, t: DateTime)
    requires ValidDate(today)
    ensures ParseDeadline(s, today) == Some(t) <==>
      SpellsDateTime(s, t) ||
      (t.date == today && 0 <= t.hour < 24 && 0 <= t.minute < 60 && 0 <= t.second < 60 &&
       SpellsTimeOfDay(s, t.hour, t.minute, t.second))
  {
    FullSpelled(s, t);
    TimeOfDayHasNoSlash(s);
    if ParseFull(s).Some? {
      FullSpelled(s, ParseFull(s).value);
    } else if ParseTimeOnly(s).Some? {
      var hms := ParseTimeOnly(s).value;
      TimeOnlySpelled(s, hms.0, hms.1, hms.2);
    }
    if 0 <= t.hour < 24 && 0 <= t.minute < 60 && 0 <= t.second < 60 {
      TimeOnlySpelled(s, t.hour, t.minute, t.second);
    }
  }

  /**
   * A text no format accepts: neither a spelling of any date and time
   * nor of any time of day.
   */
  lemma RefusedSpellsNothing(s: string, today: Date)
    requires ValidDate(today) && ParseDeadline(s, today).None?
    ensures forall t :: !SpellsDateTime(s, t)
    ensures forall h: nat, m: nat, sec: nat :: h < 24 && m < 60 && sec < 60 ==> !SpellsTimeOfDay(s, h, m, sec)
  {
    forall t
      ensures !SpellsDateTime(s, t)
    {
      FullSpelled(s, t);
    }
    forall h: nat, m: nat, sec: nat | h < 24 && m < 60 && sec < 60
      ensures !SpellsTimeOfDay(s, h, m, sec)
    {
      TimeOnlySpelled(s, h, m, sec);
    }
  }

  // ----- Round trips of the zero-padded spellings -----

  /**
   * Round trip of the full format: every valid date and time, written
   * with `%d/%m/%Y %H:%M:%S`, parses back to itself, and so is taken as
   * a deadline whatever the current date is.
   */
  lemma FullRoundTrip(t: DateTime, today: Date)
    requires ValidDateTime(t) && ValidDate(today)
    ensures ParseFull(FormatFull(t)) == Some(t)
    ensures ParseDeadline(FormatFull(t), today) == Some(t)
  {
    var sp := PaddedDate(t);
    assert AllSpaces(sp.gap) by {
      assert sp.gap == [' '];
    }
    DateSpellingParses(sp, t);
  }

  /**
   * A time of day written with `%H:%M:%S` fails the full format and is
   * taken as that time on the current date.
   */
  lemma TimeOnlyOnToday(h: nat, m: nat, sec: nat, today: Date)
    requires h < 24 && m < 60 && sec < 60 && ValidDate(today)
    ensures ParseFull(FormatTimeOfDay(h, m, sec)) == None
    ensures ParseDeadline(FormatTimeOfDay(h, m, sec), today) == Some(DateTime(today, h, m, sec))
  {
    var sp := PaddedClock(h, m, sec);
    TimeSpellingParses(sp, h, m, sec);
    SpelledFieldDigits(sp.hourText, h);
    SpelledFieldDigits(sp.minuteText, m);
    SpelledFieldDigits(sp.secondText, sec);
    assert '/' !in ClockText(sp);
  }
}

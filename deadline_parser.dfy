/**
 * The deadline parser of `calcular_tempo` (main.py:33-43). The raw text
 * of a `Termino` cell is read with `strptime(text, '%d/%m/%Y %H:%M:%S')`
 * and, when that fails, with `strptime(text, '%H:%M:%S')` placed on the
 * current date. Each directive matches what Python's `_strptime` regular
 * expression for it matches; the space in the first format matches one
 * or more whitespace characters; the whole text must be consumed; and
 * the fields must then make a date and time `datetime` accepts.
 */
module DeadlineParser {
  import opened Wrappers
  import opened Numerals
  import opened Calendar

  /** The characters `\s` matches in a `str` pattern (those `str.isspace()` accepts). */
  predicate IsSpace(c: char) {
    c == ' ' || '\t' <= c <= '\r' || '\U{1c}' <= c <= '\U{1f}' ||
    c == '\U{85}' || c == '\U{a0}' || c == '\U{1680}' || '\U{2000}' <= c <= '\U{200a}' ||
    c == '\U{2028}' || c == '\U{2029}' || c == '\U{202f}' || c == '\U{205f}' || c == '\U{3000}'
  }

  /**
   * A one- or two-digit directive: a single digit at least `lo`, or two
   * digits whose value lies in `lo..hi`.
   */
  function NumericField(t: string, lo: nat, hi: nat): (r: Option<nat>)
    ensures r.Some? ==> lo <= r.value && (r.value <= hi || r.value < 10)
  {
    if |t| == 1 && IsDigit(t[0]) && lo <= DigitValue(t[0]) then Some(DigitValue(t[0]))
    else if |t| == 2 && AllDigits(t) && lo <= ValueOf(t) <= hi then Some(ValueOf(t))
    else None
  }

  /** `%d`: `3[01]|[12]\d|0[1-9]|[1-9]| [1-9]`. */
  function DayField(t: string): (r: Option<nat>)
    ensures r.Some? ==> 1 <= r.value <= 31
  {
    if |t| == 2 && t[0] == ' ' && '1' <= t[1] <= '9' then Some(DigitValue(t[1]))
    else NumericField(t, 1, 31)
  }

  /** `%m`: `1[0-2]|0[1-9]|[1-9]`. */
  function MonthField(t: string): (r: Option<nat>)
    ensures r.Some? ==> 1 <= r.value <= 12
  {
    NumericField(t, 1, 12)
  }

  /** `%Y`: exactly four digits. */
  function YearField(t: string): Option<nat> {
    if |t| == 4 && AllDigits(t) then Some(ValueOf(t)) else None
  }

  /** `%H`: `2[0-3]|[0-1]\d|\d`. */
  function HourField(t: string): (r: Option<nat>)
    ensures r.Some? ==> r.value <= 23
  {
    NumericField(t, 0, 23)
  }

  /** `%M`: `[0-5]\d|\d`. */
  function MinuteField(t: string): (r: Option<nat>)
    ensures r.Some? ==> r.value <= 59
  {
    NumericField(t, 0, 59)
  }

  /** `%S`: `6[0-1]|[0-5]\d|\d`; the pattern admits 60 and 61, which `datetime` then refuses. */
  function SecondField(t: string): (r: Option<nat>)
    ensures r.Some? ==> r.value <= 61
  {
    NumericField(t, 0, 61)
  }

  /** Splits at the first occurrence of `sep`. */
  function SplitAt(s: string, sep: char): (r: Option<(string, string)>)
    ensures r.Some? ==> s == r.value.0 + [sep] + r.value.1 && sep !in r.value.0
    ensures r.None? ==> sep !in s
  {
    if s == [] then None
    else if s[0] == sep then Some(([], s[1..]))
    else
      match SplitAt(s[1..], sep)
      case None => None
      case Some(parts) => Some(([s[0]] + parts.0, parts.1))
  }

  /** The text after the leading run of whitespace. */
  function SkipSpaces(s: string): (r: string)
    ensures |r| <= |s| && r == s[|s| - |r|..]
    ensures forall i :: 0 <= i < |s| - |r| ==> IsSpace(s[i])
    ensures r != [] ==> !IsSpace(r[0])
  {
    if s != [] && IsSpace(s[0]) then SkipSpaces(s[1..]) else s
  }

  /** `%H:%M:%S` read to the end of the text, as (hour, minute, second). */
  function ParseTimeFields(s: string): Option<(nat, nat, nat)>
  {
    match SplitAt(s, ':')
    case None => None
    case Some(hr) =>
      match SplitAt(hr.1, ':')
      case None => None
      case Some(ms) =>
        match (HourField(hr.0), MinuteField(ms.0), SecondField(ms.1))
        case (Some(h), Some(m), Some(sec)) => Some((h, m, sec))
        case _ => None
  }

  /** `datetime.strptime(s, '%d/%m/%Y %H:%M:%S')`, or `None` where it raises `ValueError`. */
  function ParseFull(s: string): (r: Option<DateTime>)
    ensures r.Some? ==> ValidDateTime(r.value)
  {
    match SplitAt(s, '/')
    case None => None
    case Some(dr) =>
      match SplitAt(dr.1, '/')
      case None => None
      case Some(mr) => ParseFullFields(dr.0, mr.0, mr.1)
  }

  /**
   * The full format once the text is cut at its two slashes: day, month,
   * and the rest (`%Y`, whitespace, `%H:%M:%S`).
   */
  function ParseFullFields(dayText: string, monthText: string, rest: string): (r: Option<DateTime>)
    ensures r.Some? ==> ValidDateTime(r.value)
  {
    if |rest| < 5 || !IsSpace(rest[4]) then None
    else
      match (DayField(dayText), MonthField(monthText), YearField(rest[..4]), ParseTimeFields(SkipSpaces(rest[4..])))
      case (Some(d), Some(mo), Some(y), Some(hms)) =>
        var t := DateTime(Date(y, mo, d), hms.0, hms.1, hms.2);
        if ValidDateTime(t) then Some(t) else None
      case _ => None
  }

  /** `datetime.strptime(s, '%H:%M:%S').time()`, or `None` where it raises `ValueError`. */
  function ParseTimeOnly(s: string): (r: Option<(nat, nat, nat)>)
    ensures r.Some? ==> r.value.0 < 24 && r.value.1 < 60 && r.value.2 < 60
  {
    match ParseTimeFields(s)
    case Some(hms) => if hms.2 < 60 then Some(hms) else None
    case None => None
  }

  /**
   * The deadline a `Termino` text denotes (main.py:34-41): the full
   * format first; failing that, a time of day on `today`, the date
   * `date.today()` returns; `None` when both raise.
   */
  function ParseDeadline(s: string, today: Date): (r: Option<DateTime>)
    requires ValidDate(today)
    ensures r.Some? ==> ValidDateTime(r.value)
    ensures ParseFull(s).Some? ==> r == ParseFull(s)
    ensures ParseFull(s).None? && r.Some? ==> r.value.date == today
    ensures ParseFull(s).None? && ParseTimeOnly(s).Some? ==>
      var hms := ParseTimeOnly(s).value;
      r == Some(DateTime(today, hms.0, hms.1, hms.2))
    ensures r.None? <==> ParseFull(s).None? && ParseTimeOnly(s).None?
  {
    match ParseFull(s)
    case Some(t) => Some(t)
    case None =>
      match ParseTimeOnly(s)
      case Some(hms) => Some(DateTime(today, hms.0, hms.1, hms.2))
      case None => None
  }

  // ----- The year written with four digits -----

  /** `%Y` written with four digits. */
  function Pad4(y: nat): (s: string)
    requires y <= 9999
  {
    Pad2(y / 100) + Pad2(y % 100)
  }

  // ----- Lemmas -----

  lemma {:induction false} SplitAtConcat(a: string, sep: char, b: string)
    requires sep !in a
    ensures SplitAt(a + [sep] + b, sep) == Some((a, b))
    decreases |a|
  {
    var s := a + [sep] + b;
    if a == [] {
      assert s[1..] == b;
    } else {
      assert s[1..] == a[1..] + [sep] + b;
      SplitAtConcat(a[1..], sep, b);
      assert [a[0]] + a[1..] == a;
    }
  }

  lemma Pad4Value(y: nat)
    requires y <= 9999
    ensures |Pad4(y)| == 4 && AllDigits(Pad4(y)) && ValueOf(Pad4(y)) == y
  {
    var hi, lo := Pad2(y / 100), Pad2(y % 100);
    var s := Pad4(y);
    Pad2Small(y / 100);
    Pad2Small(y % 100);
    Pad2Value(y / 100);
    Pad2Value(y % 100);
    ValueOfTwo(hi);
    ValueOfTwo(lo);
    assert s[..3] == hi + lo[..1];
    assert s[..3][..2] == hi;
    assert ValueOf(s[..3]) == ValueOf(hi) * 10 + DigitValue(lo[0]);
    assert ValueOf(s) == ValueOf(hi) * 100 + ValueOf(lo);
  }

  /**
   * A text with no slash is never a full date and time: it is a deadline
   * only as a time of day on the current date.
   */
  lemma NoSlashMeansToday(s: string, today: Date)
    requires ValidDate(today) && '/' !in s
    ensures ParseFull(s) == None
    ensures ParseDeadline(s, today).Some? <==> ParseTimeOnly(s).Some?
    ensures ParseDeadline(s, today).Some? ==> ParseDeadline(s, today).value.date == today
  {
  }
}

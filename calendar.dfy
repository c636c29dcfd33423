/**
 * Proleptic Gregorian civil dates and wall-clock instants, numbered the
 * way Python's `datetime` numbers them: day 0 is 0001-01-01 and an
 * instant is a count of seconds on one civil clock.
 */
module Calendar {

  datatype Date = Date(year: int, month: int, day: int)

  datatype DateTime = DateTime(date: Date, hour: int, minute: int, second: int)

  const SecondsPerDay: nat := 86400

  predicate IsLeapYear(y: int) {
    y % 4 == 0 && (y % 100 != 0 || y % 400 == 0)
  }

  function DaysInYear(y: int): nat {
    if IsLeapYear(y) then 366 else 365
  }

  function DaysInMonth(y: int, m: int): (n: nat)
    requires 1 <= m <= 12
    ensures 28 <= n <= 31
  {
    if m == 2 then (if IsLeapYear(y) then 29 else 28)
    else if m == 4 || m == 6 || m == 9 || m == 11 then 30
    else 31
  }

  /** The dates `datetime.date` accepts: years 1 to 9999 and a day that exists in its month. */
  predicate ValidDate(d: Date) {
    1 <= d.year <= 9999 && 1 <= d.month <= 12 && 1 <= d.day <= DaysInMonth(d.year, d.month)
  }

  predicate ValidDateTime(t: DateTime) {
    ValidDate(t.date) && 0 <= t.hour < 24 && 0 <= t.minute < 60 && 0 <= t.second < 60
  }

  /** Days in the years before `y`, in closed form. */
  function DaysBeforeYear(y: int): nat
    requires y >= 1
  {
    var p := y - 1;
    p * 365 + p / 4 - p / 100 + p / 400
  }

  /** Days in the months of year `y` before month `m`. */
  function DaysBeforeMonth(y: int, m: int): nat
    requires 1 <= m <= 12
  {
    (if m == 1 then 0 else if m == 2 then 31 else if m == 3 then 59
     else if m == 4 then 90 else if m == 5 then 120 else if m == 6 then 151
     else if m == 7 then 181 else if m == 8 then 212 else if m == 9 then 243
     else if m == 10 then 273 else if m == 11 then 304 else 334)
    + (if m > 2 && IsLeapYear(y) then 1 else 0)
  }

  /** Days since 0001-01-01 (Python's `toordinal() - 1`); a date's number falls within its year. */
  function DayNumber(d: Date): (n: nat)
    requires ValidDate(d)
    ensures DaysBeforeYear(d.year) <= n < DaysBeforeYear(d.year + 1)
  {
    MonthsWithinYear(d.year, d.month);
    YearStep(d.year);
    DaysBeforeYear(d.year) + DaysBeforeMonth(d.year, d.month) + d.day - 1
  }

  /** Seconds since 0001-01-01 00:00:00 on the civil clock; an instant falls within its day. */
  function SecondsOf(t: DateTime): (s: nat)
    requires ValidDateTime(t)
    ensures DayNumber(t.date) * SecondsPerDay <= s < (DayNumber(t.date) + 1) * SecondsPerDay
  {
    var timeOfDay := t.hour * 3600 + t.minute * 60 + t.second;
    assert timeOfDay < SecondsPerDay by {
      assert t.hour * 3600 <= 23 * 3600 && t.minute * 60 <= 59 * 60;
    }
    DayNumber(t.date) * SecondsPerDay + timeOfDay
  }

  /** The order `datetime` compares dates in: year, then month, then day. */
  predicate DateBefore(a: Date, b: Date) {
    a.year < b.year ||
    (a.year == b.year && (a.month < b.month || (a.month == b.month && a.day < b.day)))
  }

  /** The order `datetime` compares same-zone instants in: date, then time of day. */
  predicate DateTimeBefore(a: DateTime, b: DateTime) {
    DateBefore(a.date, b.date) ||
    (a.date == b.date &&
      (a.hour < b.hour || (a.hour == b.hour &&
        (a.minute < b.minute || (a.minute == b.minute && a.second < b.second)))))
  }

  /** The closed form of `DaysBeforeYear` adds one year's length per year. */
  lemma YearStep(y: int)
    requires y >= 1
    ensures DaysBeforeYear(y + 1) == DaysBeforeYear(y) + DaysInYear(y)
  {
    var p := y - 1;
    assert y / 4 == p / 4 + (if y % 4 == 0 then 1 else 0);
    assert y / 100 == p / 100 + (if y % 100 == 0 then 1 else 0);
    assert y / 400 == p / 400 + (if y % 400 == 0 then 1 else 0);
    assert y % 400 == 0 ==> y % 100 == 0 && y % 4 == 0;
    assert y % 100 == 0 ==> y % 4 == 0;
  }

  /** The month table is the running sum of the month lengths, ending at the year's length. */
  lemma MonthStep(y: int, m: int)
    requires 1 <= m <= 12
    ensures DaysBeforeMonth(y, m) + DaysInMonth(y, m) ==
            if m < 12 then DaysBeforeMonth(y, m + 1) else DaysInYear(y)
  {
  }

  /** A month ends no later than its year does. */
  lemma MonthsWithinYear(y: int, m: int)
    requires 1 <= m <= 12
    ensures DaysBeforeMonth(y, m) + DaysInMonth(y, m) <= DaysInYear(y)
  {
    MonthStep(y, m);
    if m < 12 {
      DaysBeforeMonthMonotone(y, m, 12);
      MonthStep(y, 12);
    }
  }

  lemma {:induction false} DaysBeforeYearMonotone(a: int, b: int)
    requires 1 <= a <= b
    ensures DaysBeforeYear(a) + 365 * (b - a) <= DaysBeforeYear(b)
    decreases b - a
  {
    if a < b {
      DaysBeforeYearMonotone(a, b - 1);
      YearStep(b - 1);
    }
  }

  lemma {:induction false} DaysBeforeMonthMonotone(y: int, a: int, b: int)
    requires 1 <= a < b <= 12
    ensures DaysBeforeMonth(y, a) + DaysInMonth(y, a) <= DaysBeforeMonth(y, b)
    decreases b - a
  {
    MonthStep(y, a);
    if a + 1 < b {
      DaysBeforeMonthMonotone(y, a + 1, b);
    }
  }

  /** A date's number lies within its year's and its month's span of day numbers. */
  lemma DayNumberBounds(d: Date)
    requires ValidDate(d)
    ensures DaysBeforeYear(d.year) + DaysBeforeMonth(d.year, d.month) <= DayNumber(d)
    ensures DayNumber(d) < DaysBeforeYear(d.year) + DaysBeforeMonth(d.year, d.month) + DaysInMonth(d.year, d.month)
    ensures DayNumber(d) < DaysBeforeYear(d.year + 1)
  {
    MonthsWithinYear(d.year, d.month);
    YearStep(d.year);
  }

  lemma DayNumberBefore(a: Date, b: Date)
    requires ValidDate(a) && ValidDate(b) && DateBefore(a, b)
    ensures DayNumber(a) < DayNumber(b)
  {
    DayNumberBounds(a);
    DayNumberBounds(b);
    if a.year < b.year {
      DaysBeforeYearMonotone(a.year + 1, b.year);
    } else if a.month < b.month {
      DaysBeforeMonthMonotone(a.year, a.month, b.month);
    }
  }

  /** Day numbers order dates exactly as `datetime` compares them. */
  lemma DayNumberOrder(a: Date, b: Date)
    requires ValidDate(a) && ValidDate(b)
    ensures DayNumber(a) < DayNumber(b) <==> DateBefore(a, b)
    ensures DayNumber(a) == DayNumber(b) <==> a == b
  {
    if DateBefore(a, b) {
      DayNumberBefore(a, b);
    } else if DateBefore(b, a) {
      DayNumberBefore(b, a);
    }
  }

  /**
   * Instants in seconds order wall-clock date-times exactly as Python
   * compares two aware datetimes that share one `tzinfo`: field by field.
   */
  lemma SecondsOrder(a: DateTime, b: DateTime)
    requires ValidDateTime(a) && ValidDateTime(b)
    ensures SecondsOf(a) < SecondsOf(b) <==> DateTimeBefore(a, b)
    ensures SecondsOf(a) == SecondsOf(b) <==> a == b
  {
    DayNumberOrder(a.date, b.date);
    var da, db := DayNumber(a.date), DayNumber(b.date);
    var ta, tb := a.hour * 3600 + a.minute * 60 + a.second, b.hour * 3600 + b.minute * 60 + b.second;
    assert ta < SecondsPerDay && tb < SecondsPerDay;
    if da < db {
      assert da * SecondsPerDay + SecondsPerDay <= db * SecondsPerDay;
    } else if db < da {
      assert db * SecondsPerDay + SecondsPerDay <= da * SecondsPerDay;
    }
  }
}

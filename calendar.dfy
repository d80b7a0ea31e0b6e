/**
 * Proleptic Gregorian calendar arithmetic as Python's `datetime` and
 * `calendar.timegm` perform it: the broken-down date-time that `strptime`
 * produces, the range checks of the `datetime` constructor, and the
 * conversion of a date-time read as UTC to seconds since the epoch.
 */
module Calendar {

  /** A broken-down date and time, the fields of a naive `datetime`. */
  datatype DateTime = DateTime(year: int, month: int, day: int, hour: int, minute: int, second: int)

  predicate IsLeapYear(y: int) {
    y % 4 == 0 && (y % 100 != 0 || y % 400 == 0)
  }

  function DaysInMonth(y: int, m: int): int
    requires 1 <= m <= 12
  {
    if m == 2 then (if IsLeapYear(y) then 29 else 28)
    else if m == 4 || m == 6 || m == 9 || m == 11 then 30
    else 31
  }

  function DaysInYear(y: int): int {
    if IsLeapYear(y) then 366 else 365
  }

  /**
   * What the `datetime` constructor accepts: years 1 to 9999, a real day of
   * the month, and no leap seconds.
   */
  predicate Valid(t: DateTime) {
    && 1 <= t.year <= 9999
    && 1 <= t.month <= 12
    && 1 <= t.day <= DaysInMonth(t.year, t.month)
    && 0 <= t.hour <= 23
    && 0 <= t.minute <= 59
    && 0 <= t.second <= 59
  }

  /** Days in the years before `year` (Python's `_days_before_year`). */
  function DaysBeforeYear(year: int): int
    requires year >= 1
  {
    var y := year - 1;
    y * 365 + y / 4 - y / 100 + y / 400
  }

  /** Days in the months of `year` before `month` (Python's `_days_before_month`). */
  function DaysBeforeMonth(year: int, month: int): int
    requires 1 <= month <= 12
  {
    [0, 31, 59, 90, 120, 151, 181, 212, 243, 273, 304, 334][month - 1]
      + (if month > 2 && IsLeapYear(year) then 1 else 0)
  }

  /** `date.toordinal()`: 0001-01-01 is day 1. */
  function Ordinal(year: int, month: int, day: int): int
    requires year >= 1 && 1 <= month <= 12
  {
    DaysBeforeYear(year) + DaysBeforeMonth(year, month) + day
  }

  /** `date(1970, 1, 1).toordinal()`. */
  const EpochOrdinal := 719163

  /**
   * `calendar.timegm(t.utctimetuple())` for a naive date-time: its fields are
   * read as UTC, with no time-zone shift.
   */
  function TimeGm(t: DateTime): int
    requires Valid(t)
  {
    var days := Ordinal(t.year, t.month, 1) - EpochOrdinal + t.day - 1;
    var hours := days * 24 + t.hour;
    var minutes := hours * 60 + t.minute;
    minutes * 60 + t.second
  }

  /** Chronological order of broken-down date-times: field by field. */
  predicate Before(a: DateTime, b: DateTime) {
    if a.year != b.year then a.year < b.year
    else if a.month != b.month then a.month < b.month
    else if a.day != b.day then a.day < b.day
    else if a.hour != b.hour then a.hour < b.hour
    else if a.minute != b.minute then a.minute < b.minute
    else a.second < b.second
  }

  lemma EpochIsZero()
    ensures Valid(DateTime(1970, 1, 1, 0, 0, 0)) && TimeGm(DateTime(1970, 1, 1, 0, 0, 0)) == 0
  {
  }

  /** One year further on, the count grows by that year's length. */
  lemma DaysBeforeNextYear(year: int)
    requires year >= 1
    ensures DaysBeforeYear(year + 1) == DaysBeforeYear(year) + DaysInYear(year)
  {
    LeapStep(year);
    var y := year - 1;
    assert DaysBeforeYear(year) == y * 365 + y / 4 - y / 100 + y / 400;
    assert DaysBeforeYear(year + 1) == year * 365 + year / 4 - year / 100 + year / 400;
  }

  /** Of the three counts in `DaysBeforeYear`, their net growth at `year` is one exactly in a leap year. */
  lemma LeapStep(year: int)
    requires year >= 1
    ensures (year / 4 - (year - 1) / 4) - (year / 100 - (year - 1) / 100) + (year / 400 - (year - 1) / 400)
            == if IsLeapYear(year) then 1 else 0
  {
    QuarterStep(year);
    CenturyStep(year);
    QuadricentennialStep(year);
    MultiplesNest(year);
  }

  /** A multiple of 400 is a multiple of 100, and a multiple of 100 is a multiple of 4. */
  lemma MultiplesNest(year: int)
    ensures year % 400 == 0 ==> year % 100 == 0
    ensures year % 100 == 0 ==> year % 4 == 0
  {
    if year % 400 == 0 {
      MultipleOfHundred(year / 400 * 4, year);
    }
    if year % 100 == 0 {
      MultipleOfFour(year / 100 * 25, year);
    }
  }

  lemma MultipleOfHundred(m: int, year: int)
    requires year == 100 * m
    ensures year % 100 == 0
  {
  }

  lemma MultipleOfFour(m: int, year: int)
    requires year == 4 * m
    ensures year % 4 == 0
  {
  }

  /** The count of multiples of 4 up to `year` grows exactly when `year` is one. */
  lemma QuarterStep(year: int)
    requires year >= 1
    ensures year / 4 == (year - 1) / 4 + (if year % 4 == 0 then 1 else 0)
  {
    var q, r := (year - 1) / 4, (year - 1) % 4;
    assert year - 1 == 4 * q + r && 0 <= r < 4;
  }

  /** The same step for multiples of 100. */
  lemma CenturyStep(year: int)
    requires year >= 1
    ensures year / 100 == (year - 1) / 100 + (if year % 100 == 0 then 1 else 0)
  {
    var q, r := (year - 1) / 100, (year - 1) % 100;
    assert year - 1 == 100 * q + r && 0 <= r < 100;
  }

  /** The same step for multiples of 400. */
  lemma QuadricentennialStep(year: int)
    requires year >= 1
    ensures year / 400 == (year - 1) / 400 + (if year % 400 == 0 then 1 else 0)
  {
    var q, r := (year - 1) / 400, (year - 1) % 400;
    assert year - 1 == 400 * q + r && 0 <= r < 400;
  }

  /** A date of an earlier year has a smaller day count than any day of a later year. */
  lemma {:induction false} DaysBeforeYearGrows(a: int, b: int)
    requires 1 <= a < b
    ensures DaysBeforeYear(a) + DaysInYear(a) <= DaysBeforeYear(b)
    decreases b - a
  {
    DaysBeforeNextYear(a);
    if a + 1 < b {
      DaysBeforeYearGrows(a + 1, b);
    }
  }

  /** The months of a year tile it: each ends where the next one starts. */
  lemma MonthEnds(year: int, month: int)
    requires 1 <= month <= 12
    ensures month < 12 ==> DaysBeforeMonth(year, month) + DaysInMonth(year, month) == DaysBeforeMonth(year, month + 1)
    ensures month == 12 ==> DaysBeforeMonth(year, month) + DaysInMonth(year, month) == DaysInYear(year)
  {
  }

  lemma {:induction false} DaysBeforeMonthGrows(year: int, a: int, b: int)
    requires 1 <= a < b <= 12
    ensures DaysBeforeMonth(year, a) + DaysInMonth(year, a) <= DaysBeforeMonth(year, b)
    decreases b - a
  {
    MonthEnds(year, a);
    if a + 1 < b {
      DaysBeforeMonthGrows(year, a + 1, b);
      MonthEnds(year, a + 1);
    }
  }

  /** Ordinals of valid dates follow the calendar order. */
  lemma OrdinalMonotone(a: DateTime, b: DateTime)
    requires Valid(a) && Valid(b)
    requires a.year < b.year || (a.year == b.year && (a.month < b.month || (a.month == b.month && a.day < b.day)))
    ensures Ordinal(a.year, a.month, a.day) < Ordinal(b.year, b.month, b.day)
  {
    MonthEnds(a.year, a.month);
    if a.year < b.year {
      if a.month < 12 {
        DaysBeforeMonthGrows(a.year, a.month, 12);
        MonthEnds(a.year, 12);
      }
      DaysBeforeYearGrows(a.year, b.year);
    } else if a.month < b.month {
      DaysBeforeMonthGrows(a.year, a.month, b.month);
    }
  }

  /**
   * `timegm` is an order embedding on valid date-times: one date-time is
   * earlier than another exactly when its timestamp is smaller.
   */
  lemma TimeGmOrder(a: DateTime, b: DateTime)
    requires Valid(a) && Valid(b)
    ensures Before(a, b) <==> TimeGm(a) < TimeGm(b)
  {
    var da := Ordinal(a.year, a.month, a.day);
    var db := Ordinal(b.year, b.month, b.day);
    assert TimeGm(a) == (da - EpochOrdinal) * 86400 + a.hour * 3600 + a.minute * 60 + a.second;
    assert TimeGm(b) == (db - EpochOrdinal) * 86400 + b.hour * 3600 + b.minute * 60 + b.second;
    if a.year < b.year || (a.year == b.year && (a.month < b.month || (a.month == b.month && a.day < b.day))) {
      OrdinalMonotone(a, b);
    } else if b.year < a.year || (a.year == b.year && (b.month < a.month || (a.month == b.month && b.day < a.day))) {
      OrdinalMonotone(b, a);
    }
  }

  /** Distinct valid date-times have distinct timestamps. */
  lemma TimeGmInjective(a: DateTime, b: DateTime)
    requires Valid(a) && Valid(b)
    requires TimeGm(a) == TimeGm(b)
    ensures a == b
  {
    TimeGmOrder(a, b);
    TimeGmOrder(b, a);
  }

  /** Every valid date-time after the epoch has a positive timestamp. */
  lemma AfterEpochPositive(t: DateTime)
    requires Valid(t) && Before(DateTime(1970, 1, 1, 0, 0, 0), t)
    ensures TimeGm(t) > 0
  {
    EpochIsZero();
    TimeGmOrder(DateTime(1970, 1, 1, 0, 0, 0), t);
  }
}

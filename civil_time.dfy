/** UTC date-times of the proleptic Gregorian calendar and the integer
    arithmetic behind `datetime + timedelta`: days-in-month and leap-year
    rules, a day number, and adding a signed number of seconds with carry. */
module CivilTime {

  /** A timezone-free (UTC) date-time with whole seconds. */
  datatype DateTime = DateTime(year: int, month: int, day: int, hour: int, minute: int, second: int)

  const SecondsPerDay := 86400

  /** Python's `datetime.MINYEAR` and `datetime.MAXYEAR`. */
  const MinYear := 1
  const MaxYear := 9999

  predicate IsLeapYear(y: int) { y % 4 == 0 && (y % 100 != 0 || y % 400 == 0) }

  function DaysInYear(y: int): int { if IsLeapYear(y) then 366 else 365 }

  function DaysInMonth(y: int, m: int): int
    requires 1 <= m <= 12
  {
    if m == 2 then (if IsLeapYear(y) then 29 else 28)
    else if m == 4 || m == 6 || m == 9 || m == 11 then 30
    else 31
  }

  /** A calendar date and a time of day that exist. */
  predicate Valid(t: DateTime)
  {
    1 <= t.month <= 12 && 1 <= t.day <= DaysInMonth(t.year, t.month) &&
    0 <= t.hour < 24 && 0 <= t.minute < 60 && 0 <= t.second < 60
  }

  /** A valid date-time that Python's `datetime` can hold. */
  predicate Representable(t: DateTime) { Valid(t) && MinYear <= t.year <= MaxYear }

  /** Days in the years before `y`, counted from 0001-01-01 (the formula of
      Python's `datetime` module; negative for years before 1, which only
      intermediate carries reach). */
  function DaysBeforeYear(y: int): int
  {
    var p := y - 1;
    365 * p + p / 4 - p / 100 + p / 400
  }

  /** Days in the months of year `y` before month `m`. */
  function DaysBeforeMonth(y: int, m: int): int
    requires 1 <= m <= 12
  {
    (if m == 1 then 0 else if m == 2 then 31 else if m == 3 then 59
     else if m == 4 then 90 else if m == 5 then 120 else if m == 6 then 151
     else if m == 7 then 181 else if m == 8 then 212 else if m == 9 then 243
     else if m == 10 then 273 else if m == 11 then 304 else 334)
    + (if m > 2 && IsLeapYear(y) then 1 else 0)
  }

  /** The day number of a date: 0001-01-01 is day 1 (Python's `toordinal`). */
  function DayNumber(t: DateTime): int
    requires 1 <= t.month <= 12
  {
    DaysBeforeYear(t.year) + DaysBeforeMonth(t.year, t.month) + t.day
  }

  function SecondOfDay(t: DateTime): int { t.hour * 3600 + t.minute * 60 + t.second }

  /** Seconds elapsed since 0001-01-01T00:00:00: the instant a date-time names. */
  function Seconds(t: DateTime): int
    requires 1 <= t.month <= 12
  {
    (DayNumber(t) - 1) * SecondsPerDay + SecondOfDay(t)
  }

  lemma DaysBeforeYearStep(y: int)
    ensures DaysBeforeYear(y + 1) == DaysBeforeYear(y) + DaysInYear(y)
  {
    QuotientSteps(y - 1);
  }

  /** Floor division by 4, 100 and 400 moves up by one exactly when the
      dividend reaches a multiple. */
  lemma QuotientSteps(p: int)
    ensures (p + 1) / 4 == p / 4 + (if (p + 1) % 4 == 0 then 1 else 0)
    ensures (p + 1) / 100 == p / 100 + (if (p + 1) % 100 == 0 then 1 else 0)
    ensures (p + 1) / 400 == p / 400 + (if (p + 1) % 400 == 0 then 1 else 0)
  {
  }

  /** The first day of the month after `t`'s. */
  function NextMonthStart(t: DateTime): (r: DateTime)
    requires Valid(t)
    ensures Valid(r) && r.day == 1 && SecondOfDay(r) == SecondOfDay(t)
    ensures DayNumber(r) == DayNumber(t) + (DaysInMonth(t.year, t.month) - t.day) + 1
  {
    if t.month == 12 then
      DaysBeforeYearStep(t.year);
      t.(year := t.year + 1, month := 1, day := 1)
    else
      t.(month := t.month + 1, day := 1)
  }

  /** The last day of the month before `t`'s. */
  function PrevMonthEnd(t: DateTime): (r: DateTime)
    requires Valid(t)
    ensures Valid(r) && r.day == DaysInMonth(r.year, r.month) && SecondOfDay(r) == SecondOfDay(t)
    ensures DayNumber(r) == DayNumber(t) - t.day
  {
    if t.month == 1 then
      DaysBeforeYearStep(t.year - 1);
      t.(year := t.year - 1, month := 12, day := 31)
    else
      t.(month := t.month - 1, day := DaysInMonth(t.year, t.month - 1))
  }

  /** Moves the date of `t` by `k` days (negative: backwards), month by month,
      carrying into the year; the time of day stays. */
  function AddDays(t: DateTime, k: int): (r: DateTime)
    requires Valid(t)
    ensures Valid(r) && SecondOfDay(r) == SecondOfDay(t)
    ensures r.hour == t.hour && r.minute == t.minute && r.second == t.second
    ensures DayNumber(r) == DayNumber(t) + k
    decreases if k >= 0 then k else -k
  {
    if k == 0 then t
    else if k > 0 then
      var left := DaysInMonth(t.year, t.month) - t.day;
      if k <= left then t.(day := t.day + k)
      else AddDays(NextMonthStart(t), k - left - 1)
    else
      if -k < t.day then t.(day := t.day + k)
      else AddDays(PrevMonthEnd(t), k + t.day)
  }

  /** `t + timedelta(seconds=n)`: the second of day carries into whole days,
      which `AddDays` carries into months and years. */
  function AddSeconds(t: DateTime, n: int): (r: DateTime)
    requires Valid(t)
    ensures Valid(r)
    ensures Seconds(r) == Seconds(t) + n
  {
    var total := SecondOfDay(t) + n;
    var sod := total % SecondsPerDay;
    var d := AddDays(t, total / SecondsPerDay);
    var r := d.(hour := sod / 3600, minute := sod % 3600 / 60, second := sod % 60);
    assert SecondOfDay(r) == sod;
    assert DayNumber(r) == DayNumber(d);
    r
  }

  /** A shift that stays inside the day only moves the clock. */
  lemma AddSecondsWithinDay(t: DateTime, n: int)
    requires Valid(t) && 0 <= SecondOfDay(t) + n < SecondsPerDay
    ensures var sod := SecondOfDay(t) + n;
            AddSeconds(t, n) == t.(hour := sod / 3600, minute := sod % 3600 / 60, second := sod % 60)
  {
    assert AddDays(t, (SecondOfDay(t) + n) / SecondsPerDay) == t;
  }

  /** Adding a whole number of minutes keeps the seconds field. */
  lemma AddMinutesKeepsSecond(t: DateTime, minutes: int)
    requires Valid(t)
    ensures AddSeconds(t, 60 * minutes).second == t.second
  {
    var total := SecondOfDay(t) + 60 * minutes;
    var sod := total % SecondsPerDay;
    assert total == (t.hour * 60 + t.minute + minutes) * 60 + t.second;
    assert sod % 60 == t.second by {
      assert total == (total / SecondsPerDay) * SecondsPerDay + sod;
      assert sod == ((t.hour * 60 + t.minute + minutes) - (total / SecondsPerDay) * 1440) * 60 + t.second;
    }
  }

  lemma DaysBeforeYearMonotone(a: int, b: int)
    requires a <= b
    ensures DaysBeforeYear(a) + (b - a) * 365 <= DaysBeforeYear(b)
    decreases b - a
  {
    if a < b {
      DaysBeforeYearStep(a);
      DaysBeforeYearMonotone(a + 1, b);
    }
  }

  lemma DaysBeforeMonthMonotone(y: int, m: int, n: int)
    requires 1 <= m < n <= 12
    ensures DaysBeforeMonth(y, m) + DaysInMonth(y, m) <= DaysBeforeMonth(y, n)
  {
  }

  /** A valid date's day number falls inside its own year. */
  lemma DayNumberWithinYear(t: DateTime)
    requires Valid(t)
    ensures DaysBeforeYear(t.year) < DayNumber(t) <= DaysBeforeYear(t.year) + DaysInYear(t.year)
  {
  }

  /** Different valid dates have different day numbers. */
  lemma DayNumberInjective(a: DateTime, b: DateTime)
    requires Valid(a) && Valid(b) && DayNumber(a) == DayNumber(b)
    ensures a.year == b.year && a.month == b.month && a.day == b.day
  {
    DayNumberSameYear(a, b);
    if a.month < b.month {
      DaysBeforeMonthMonotone(a.year, a.month, b.month);
      assert false;
    } else if b.month < a.month {
      DaysBeforeMonthMonotone(a.year, b.month, a.month);
      assert false;
    }
  }

  lemma DayNumberSameYear(a: DateTime, b: DateTime)
    requires Valid(a) && Valid(b) && DayNumber(a) == DayNumber(b)
    ensures a.year == b.year
  {
    DayNumberWithinYear(a);
    DayNumberWithinYear(b);
    if a.year < b.year {
      DaysBeforeYearStep(a.year);
      DaysBeforeYearMonotone(a.year + 1, b.year);
      assert false;
    } else if b.year < a.year {
      DaysBeforeYearStep(b.year);
      DaysBeforeYearMonotone(b.year + 1, a.year);
      assert false;
    }
  }

  /** `Seconds` names each valid date-time uniquely, so the contract of
      `AddSeconds` determines its result. */
  lemma SecondsInjective(a: DateTime, b: DateTime)
    requires Valid(a) && Valid(b) && Seconds(a) == Seconds(b)
    ensures a == b
  {
    var da, db := DayNumber(a), DayNumber(b);
    var sa, sb := SecondOfDay(a), SecondOfDay(b);
    assert 0 <= sa < SecondsPerDay && 0 <= sb < SecondsPerDay;
    assert da == db by {
      assert (da - db) * SecondsPerDay == sb - sa;
    }
    DayNumberInjective(a, b);
    ClockInjective(a, b);
  }

  /** The second of the day determines hour, minute and second. */
  lemma ClockInjective(a: DateTime, b: DateTime)
    requires Valid(a) && Valid(b) && SecondOfDay(a) == SecondOfDay(b)
    ensures a.hour == b.hour && a.minute == b.minute && a.second == b.second
  {
  }

  /** Shifting forth and back by the same amount restores the date-time. */
  lemma AddSecondsInverse(t: DateTime, n: int)
    requires Valid(t)
    ensures AddSeconds(AddSeconds(t, n), -n) == t
  {
    SecondsInjective(AddSeconds(AddSeconds(t, n), -n), t);
  }
}

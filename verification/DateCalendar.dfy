/**
 The Gregorian calendar by counting: days before a year in closed form, days before a
 month by adding up the months.  Dates count years from 1900 and months from 0.
 */
module DateCalendar {

  datatype Date = Date(year: int, mon: int, mday: int, hour: int, min: int, sec: int)

  predicate Leap(y: int) {
    y % 4 == 0 && (y % 100 != 0 || y % 400 == 0)
  }

  function YearLength(year: int): int {
    if Leap(year + 1900) then 366 else 365
  }

  function MonthLength(year: int, mon: int): (n: int)
    requires 0 <= mon < 12
    ensures 28 <= n <= 31
  {
    if mon == 1 then (if Leap(year + 1900) then 29 else 28)
    else if mon == 3 || mon == 5 || mon == 8 || mon == 10 then 30
    else 31
  }

  predicate ValidDay(d: Date) {
    0 <= d.mon < 12 && 1 <= d.mday <= MonthLength(d.year, d.mon)
  }

  predicate ValidDate(d: Date) {
    ValidDay(d) && 0 <= d.hour < 24 && 0 <= d.min < 60 && 0 <= d.sec < 60
  }

  // Days from a fixed day to the first of January: 365 a year and one for each leap year.
  function DaysBeforeYear(year: int): int {
    var y := year + 1899;
    365 * y + y / 4 - y / 100 + y / 400
  }

  function DaysBeforeMonth(year: int, mon: int): int
    requires 0 <= mon <= 12
  {
    if mon == 0 then 0 else DaysBeforeMonth(year, mon - 1) + MonthLength(year, mon - 1)
  }

  function Days(d: Date): int
    requires ValidDay(d)
  {
    DaysBeforeYear(d.year) + DaysBeforeMonth(d.year, d.mon) + d.mday - 1
  }

  function Hours(d: Date): int
    requires ValidDay(d)
  {
    24 * Days(d) + d.hour
  }

  function Minutes(d: Date): int
    requires ValidDay(d)
  {
    60 * Hours(d) + d.min
  }

  // The civil second count.
  function Seconds(d: Date): int
    requires ValidDay(d)
  {
    60 * Minutes(d) + d.sec
  }

  function Months(d: Date): int {
    12 * d.year + d.mon
  }

  lemma YearStep(year: int)
    ensures DaysBeforeYear(year + 1) == DaysBeforeYear(year) + YearLength(year)
  {
    var y := year + 1899;
    assert (y + 1) / 4 == y / 4 + (if (y + 1) % 4 == 0 then 1 else 0);
    assert (y + 1) / 100 == y / 100 + (if (y + 1) % 100 == 0 then 1 else 0);
    assert (y + 1) / 400 == y / 400 + (if (y + 1) % 400 == 0 then 1 else 0);
    assert (y + 1) % 400 == 0 ==> (y + 1) % 100 == 0;
    assert (y + 1) % 100 == 0 ==> (y + 1) % 4 == 0;
  }

  lemma MonthsAddUp(year: int)
    ensures DaysBeforeMonth(year, 12) == YearLength(year)
  {
    assert DaysBeforeMonth(year, 1) == DaysBeforeMonth(year, 0) + 31;
    assert DaysBeforeMonth(year, 2) == 31 + MonthLength(year, 1);
    assert DaysBeforeMonth(year, 4) == DaysBeforeMonth(year, 2) + 61;
    assert DaysBeforeMonth(year, 6) == DaysBeforeMonth(year, 4) + 61;
    assert DaysBeforeMonth(year, 8) == DaysBeforeMonth(year, 6) + 62;
    assert DaysBeforeMonth(year, 10) == DaysBeforeMonth(year, 8) + 61;
  }

  /** The length of every month. */
  lemma MonthLengths(year: int)
    ensures MonthLength(year, 0) == 31 && MonthLength(year, 2) == 31 && MonthLength(year, 3) == 30
    ensures MonthLength(year, 4) == 31 && MonthLength(year, 5) == 30 && MonthLength(year, 6) == 31
    ensures MonthLength(year, 7) == 31 && MonthLength(year, 8) == 30 && MonthLength(year, 9) == 31
    ensures MonthLength(year, 10) == 30 && MonthLength(year, 11) == 31
    ensures var y := year + 1900;
      MonthLength(year, 1) == if y % 4 != 0 then 28 else if y % 100 != 0 then 29 else if y % 400 == 0 then 29 else 28
  {
  }

  // The days before each month as a table.
  lemma MonthTable(year: int, mon: int)
    requires 0 <= mon < 12
    ensures DaysBeforeMonth(year, mon) ==
      [0, 31, 59, 90, 120, 151, 181, 212, 243, 273, 304, 334][mon] + if mon > 1 then MonthLength(year, 1) - 28 else 0
  {
    assert DaysBeforeMonth(year, 1) == DaysBeforeMonth(year, 0) + 31;
    assert DaysBeforeMonth(year, 2) == 31 + MonthLength(year, 1);
    assert DaysBeforeMonth(year, 4) == DaysBeforeMonth(year, 2) + 61;
    assert DaysBeforeMonth(year, 6) == DaysBeforeMonth(year, 4) + 61;
    assert DaysBeforeMonth(year, 8) == DaysBeforeMonth(year, 6) + 62;
    assert DaysBeforeMonth(year, 10) == DaysBeforeMonth(year, 8) + 61;
  }

  // The same from March on, in closed form.
  lemma MarchTable(mon: int)
    requires 0 <= mon < 12
    ensures var m := if mon < 2 then mon + 10 else mon - 2;
      (153 * m + 2) / 5 ==
        [0, 31, 59, 90, 120, 151, 181, 212, 243, 273, 304, 334][mon] + if mon < 2 then 306 else -59
  {
  }

  // A year from March on, in which the leap day is the last.
  lemma YearFromMarch(year: int)
    ensures DaysBeforeYear(year) == 365 * (year + 1899) + (year + 1899) / 4 - (year + 1899) / 100 + (year + 1899) / 400
    ensures var y := year + 1900;
      DaysBeforeYear(year) + MonthLength(year, 1) + 337 == 365 * y + y / 4 - y / 100 + y / 400
  {
    YearStep(year);
  }

  /** The same count of days without the length of any month or year: in a year that begins in
      March the first of the m-th month is day (153 m + 2) / 5. */
  lemma DaysFromMarch(d: Date)
    requires ValidDay(d)
    ensures var y := d.year + (if d.mon < 2 then 1899 else 1900);
      var m := if d.mon < 2 then d.mon + 10 else d.mon - 2;
      Days(d) == 365 * y + y / 4 - y / 100 + y / 400 + (153 * m + 2) / 5 + d.mday - 307
  {
    hide DaysBeforeMonth, DaysBeforeYear, MonthLength;
    MonthTable(d.year, d.mon);
    MarchTable(d.mon);
    YearFromMarch(d.year);
  }

  lemma EpochDay()
    ensures ValidDay(Date(70, 0, 1, 0, 0, 0)) && Days(Date(70, 0, 1, 0, 0, 0)) == 719162
  {
    DaysFromMarch(Date(70, 0, 1, 0, 0, 0));
  }

  // Every day has 86400 seconds.
  lemma SecondsOfDay(d: Date)
    requires ValidDay(d)
    ensures Seconds(d) == 86400 * Days(d) + 3600 * d.hour + 60 * d.min + d.sec
  {
    hide Days;
  }

  /** A thousand million seconds after the first of January 1970, a Thursday, it was 1:46:40
      on September 9, 2001. */
  lemma Billennium()
    ensures var epoch, now := Date(70, 0, 1, 0, 0, 0), Date(101, 8, 9, 1, 46, 40);
      ValidDate(epoch) && ValidDate(now) && Seconds(now) - Seconds(epoch) == 1_000_000_000
  {
    DaysFromMarch(Date(70, 0, 1, 0, 0, 0));
    DaysFromMarch(Date(101, 8, 9, 1, 46, 40));
    SecondsOfDay(Date(70, 0, 1, 0, 0, 0));
    SecondsOfDay(Date(101, 8, 9, 1, 46, 40));
    hide Days, Seconds;
  }

  // From the first of one month to the first of the next.
  lemma MonthStep(d: Date, e: Date)
    requires ValidDay(d) && ValidDay(e) && d.mday == 1 && e.mday == 1 && Months(e) == Months(d) + 1
    ensures Days(e) == Days(d) + MonthLength(d.year, d.mon)
  {
    if d.mon == 11 {
      YearStep(d.year);
      MonthsAddUp(d.year);
    }
  }

  lemma {:induction false} MonthsGrow(year: int, m: int, n: int)
    requires 0 <= m <= n <= 12
    ensures DaysBeforeMonth(year, m) + 28 * (n - m) <= DaysBeforeMonth(year, n)
    decreases n - m
  {
    if m < n {
      MonthsGrow(year, m, n - 1);
    }
  }

  lemma {:induction false} YearsGrow(y: int, z: int)
    requires y <= z
    ensures DaysBeforeYear(y) + 365 * (z - y) <= DaysBeforeYear(z)
    decreases z - y
  {
    if y < z {
      YearsGrow(y, z - 1);
      YearStep(z - 1);
    }
  }

  // A day lies in its year.
  lemma DayInYear(d: Date)
    requires ValidDay(d)
    ensures DaysBeforeYear(d.year) <= Days(d) < DaysBeforeYear(d.year + 1)
  {
    MonthsGrow(d.year, 0, d.mon);
    MonthsGrow(d.year, d.mon + 1, 12);
    MonthsAddUp(d.year);
    YearStep(d.year);
  }

  lemma SameYear(d: Date, e: Date)
    requires ValidDay(d) && ValidDay(e) && Days(d) == Days(e)
    ensures d.year == e.year
  {
    DayInYear(d);
    DayInYear(e);
    if d.year < e.year {
      YearsGrow(d.year + 1, e.year);
    } else if e.year < d.year {
      YearsGrow(e.year + 1, d.year);
    }
  }

  /** The count of days determines the day. */
  lemma DaysInjective(d: Date, e: Date)
    requires ValidDay(d) && ValidDay(e) && Days(d) == Days(e)
    ensures d.year == e.year && d.mon == e.mon && d.mday == e.mday
  {
    SameYear(d, e);
    if d.mon < e.mon {
      MonthsGrow(d.year, d.mon + 1, e.mon);
    } else if e.mon < d.mon {
      MonthsGrow(d.year, e.mon + 1, d.mon);
    }
  }

  /** The civil second count determines all the fields. */
  lemma SecondsInjective(d: Date, e: Date)
    requires ValidDate(d) && ValidDate(e) && Seconds(d) == Seconds(e)
    ensures d == e
  {
    assert Minutes(d) == Minutes(e) && d.sec == e.sec;
    assert Hours(d) == Hours(e) && d.min == e.min;
    assert Days(d) == Days(e) && d.hour == e.hour;
    DaysInjective(d, e);
  }
}

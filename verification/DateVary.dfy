/**
 The -v adjustments of date: functions that change a broken-down time in place, carrying
 and borrowing from seconds up to years, proved against the civil counts.
 */
module DateVary {
  import opened DateCalendar

  datatype Sign = Plus | Minus | Assign

  datatype Outcome = Fails | Gives(date: Date)

  // The month count determines year and month.
  lemma OneMonth(y: int, m: int, y': int, m': int)
    requires 0 <= m < 12 && 0 <= m' < 12 && 12 * y + m == 12 * y' + m'
    ensures y == y' && m == m'
  {
  }

  // The days to a day of the same week, or of the next or the last.
  lemma ToWeekday(d: Date, e: Date, val: int)
    requires ValidDay(d) && ValidDay(e) && 0 <= val <= 6
    requires var n := Days(e) - Days(d) - (val - Weekday(d)); n == 0 || n == 7 || n == -7
    ensures Weekday(e) == val
  {
    hide Days;
  }

  // Seconds do not enter the minute count.
  lemma SecondsAside(d: Date, s: int)
    requires ValidDay(d)
    ensures ValidDay(d.(sec := s)) && Minutes(d.(sec := s)) == Minutes(d)
  {
  }

  lemma MinutesAside(d: Date, m: int)
    requires ValidDay(d)
    ensures ValidDay(d.(min := m)) && Hours(d.(min := m)) == Hours(d)
  {
  }

  class Tm {
    var sec: int
    var min: int
    var hour: int
    var mday: int
    var mon: int
    var year: int
    var wday: int

    constructor (d: Date, wday: int)
      ensures D() == d && this.wday == wday
    {
      sec, min, hour, mday, mon, year := d.sec, d.min, d.hour, d.mday, d.mon, d.year;
      this.wday := wday;
    }

    ghost function D(): Date
      reads this
    {
      Date(year, mon, mday, hour, min, sec)
    }

    // daysinmonth
    method DaysInMonth() returns (n: int)
      ensures n == if 0 <= mon < 12 then MonthLength(year, mon) else 0
    {
      var y := year + 1900;
      if mon == 1 {
        if y % 400 == 0 {
          n := 29;
        } else if y % 100 == 0 {
          n := 28;
        } else if y % 4 == 0 {
          n := 29;
        } else {
          n := 28;
        }
      } else if 0 <= mon < 12 {
        var mdays := [31, 0, 31, 30, 31, 30, 31, 31, 30, 31, 30, 31];
        n := mdays[mon];
      } else {
        n := 0;
      }
    }

    /** adjyear: whole years on the month count, every other field as it was, so that the date
        exists exactly when it is not February 29 in a common year; or a calendar year, with
        two digits standing for one from 1969 to 2068. */
    method AdjYear(sign: Sign, val: int)
      modifies this`year
      ensures D() == old(D()).(year := year)
      ensures sign.Plus? ==> Months(D()) == Months(old(D())) + 12 * val
      ensures sign.Minus? ==> Months(D()) == Months(old(D())) - 12 * val
      ensures sign.Assign? && 0 <= val < 100 ==> 1969 <= year + 1900 <= 2068 && (year + 1900 - val) % 100 == 0
      ensures sign.Assign? && val > 1900 ==> year + 1900 == val
      ensures sign.Assign? && 100 <= val <= 1900 ==> year == val
      ensures sign.Assign? && val < 0 ==> year == val + 100
      ensures ValidDay(old(D())) ==> (ValidDay(D()) <==> !(mon == 1 && mday == 29 && !Leap(year + 1900)))
    {
      match sign
      case Plus => year := year + val;
      case Minus => year := year - val;
      case Assign =>
        year := val;
        if year < 69 {
          year := year + 100;
        } else if year > 1900 {
          year := year - 1900;
        }
    }

    // adjmon, '+': the carry into the year
    method AddMonths(val0: int)
      requires 0 <= mon < 12 && val0 >= 0
      modifies this`year, this`mon
      ensures 0 <= mon < 12 && 12 * year + mon == 12 * old(year) + old(mon) + val0
    {
      var val := val0;
      if val != 0 {
        AdjYear(Plus, (mon + val) / 12);
        val := val % 12;
        mon := mon + val;
        if mon > 11 {
          mon := mon - 12;
        }
      }
    }

    // adjmon, '-': the borrow from the year
    method TakeMonths(val0: int)
      requires 0 <= mon < 12 && val0 >= 0
      modifies this`year, this`mon
      ensures 0 <= mon < 12 && 12 * year + mon == 12 * old(year) + old(mon) - val0
    {
      var val := val0;
      if val != 0 {
        AdjYear(Minus, val / 12);
        val := val % 12;
        if val > mon {
          AdjYear(Minus, 1);
          val := val - 12;
        }
        mon := mon - val;
      }
    }

    // The last day of the month stands in for days the month does not have.
    method ClampDay()
      requires 0 <= mon < 12
      modifies this`mday
      ensures mday == if old(mday) <= MonthLength(year, mon) then old(mday) else MonthLength(year, mon)
    {
      var lmdays := DaysInMonth();
      if mday > lmdays {
        mday := lmdays;
      }
    }

    /** adjmon: months are added to or taken from the month count, or run to the next or the
        last month of a given name; a day past the end of the new month becomes its last. */
    method AdjMon(sign: Sign, val: int, istext: bool) returns (ok: bool)
      requires ValidDay(D()) && (istext ==> 1 <= val <= 12)
      modifies this`year, this`mon, this`mday
      ensures ValidDay(D())
      ensures ok <==> val >= 0 && (sign.Assign? ==> 1 <= val <= 12)
      ensures !ok ==> D() == old(D())
      ensures ok ==> mday == if old(mday) <= MonthLength(year, mon) then old(mday) else MonthLength(year, mon)
      ensures ok && sign.Plus? && !istext ==> Months(D()) == Months(old(D())) + val
      ensures ok && sign.Minus? && !istext ==> Months(D()) == Months(old(D())) - val
      ensures ok && sign.Plus? && istext ==> mon == val - 1 && Months(old(D())) <= Months(D()) < Months(old(D())) + 12
      ensures ok && sign.Minus? && istext ==> mon == val - 1 && Months(old(D())) - 12 < Months(D()) <= Months(old(D()))
      ensures ok && sign.Assign? ==> mon == val - 1 && year == old(year)
    {
      hide MonthLength;
      if val < 0 {
        return false;
      }
      match sign {
        case Plus =>
          AddMonths(if !istext then val else if val <= mon then val + 11 - mon else val - (mon + 1));
          if istext {
            OneMonth(year, mon, old(year) + (if val <= old(mon) then 1 else 0), val - 1);
          }
        case Minus =>
          TakeMonths(if !istext then val else if val - 1 > mon then 13 - val + mon else mon - val + 1);
          if istext {
            OneMonth(year, mon, old(year) - (if val - 1 > old(mon) then 1 else 0), val - 1);
          }
        case Assign =>
          if val > 12 || val < 1 {
            return false;
          }
          mon := val - 1;
      }
      ClampDay();
      ok := true;
    }

    /** adjday: whole days are added to or taken from the day count across months and leap
        years, or a day that the month has is set; a negative number only moves the day field. */
    method AdjDay(sign: Sign, val0: int) returns (ok: bool)
      requires ValidDay(D())
      modifies this`year, this`mon, this`mday
      ensures val0 >= 0 || sign.Assign? ==> ValidDay(D())
      ensures ok <==> (sign.Assign? ==> 1 <= val0 <= MonthLength(old(year), old(mon)))
      ensures !ok ==> D() == old(D())
      ensures sign.Plus? && val0 >= 0 ==> Days(D()) == Days(old(D())) + val0
      ensures sign.Minus? && val0 >= 0 ==> Days(D()) == Days(old(D())) - val0
      ensures sign.Plus? && val0 < 0 ==> D() == old(D()).(mday := old(mday) + val0)
      ensures sign.Minus? && val0 < 0 ==> D() == old(D()).(mday := old(mday) - val0)
      ensures ok && sign.Assign? ==> D() == old(D()).(mday := val0)
    {
      var val := val0;
      match sign {
        case Plus =>
          while val != 0
            invariant val0 < 0 && val < 0 ==> val == val0 && D() == old(D())
            invariant val0 < 0 && val >= 0 ==> val == 0 && D() == old(D()).(mday := old(mday) + val0)
            invariant val0 >= 0 ==> val >= 0 && ValidDay(D()) && Days(D()) + val == Days(old(D())) + val0
            decreases if val < 0 then 1 else val
          {
            var daycount := DaysInMonth();
            if val > daycount - mday {
              val := val - (daycount - mday + 1);
              mday := 1;
              ghost var d := D();
              ok := AdjMon(Plus, 1, false);
              MonthStep(d, D());
            } else {
              mday := mday + val;
              val := 0;
            }
          }
        case Minus =>
          while val != 0
            invariant val0 < 0 && val < 0 ==> val == val0 && D() == old(D())
            invariant val0 < 0 && val >= 0 ==> val == 0 && D() == old(D()).(mday := old(mday) - val0)
            invariant val0 >= 0 ==> val >= 0 && ValidDay(D()) && Days(D()) - val == Days(old(D())) - val0
            decreases if val < 0 then 1 else val
          {
            if val >= mday {
              val := val - mday;
              mday := 1;
              ghost var d := D();
              ok := AdjMon(Minus, 1, false);
              MonthStep(D(), d);
              mday := DaysInMonth();
            } else {
              mday := mday - val;
              val := 0;
            }
          }
        case Assign =>
          var n := DaysInMonth();
          if val > 0 && val <= n {
            mday := val;
          } else {
            return false;
          }
      }
      ok := true;
    }

    // adjhour, '+': the carry into the day
    method AddHours(val: int)
      requires ValidDay(D()) && 0 <= hour < 24 && val >= 0
      modifies this`year, this`mon, this`mday, this`hour
      ensures ValidDay(D()) && 0 <= hour < 24 && Hours(D()) == Hours(old(D())) + val
    {
      hide DaysBeforeYear, DaysBeforeMonth, MonthLength;
      var days := (hour + val) / 24;
      hour := (hour + val % 24) % 24;
      assert 24 * days + hour == old(hour) + val;
      var _ := AdjDay(Plus, days);
    }

    // adjhour, '-': the borrow from the day
    method TakeHours(val: int)
      requires ValidDay(D()) && 0 <= hour < 24 && val >= 0
      modifies this`year, this`mon, this`mday, this`hour
      ensures ValidDay(D()) && 0 <= hour < 24 && Hours(D()) == Hours(old(D())) - val
    {
      hide DaysBeforeYear, DaysBeforeMonth, MonthLength;
      var days, rest := val / 24, val % 24;
      if rest > hour {
        days := days + 1;
        rest := rest - 24;
      }
      hour := hour - rest;
      assert 24 * days - hour == val - old(hour);
      var _ := AdjDay(Minus, days);
    }

    /** adjhour: hours are added to or taken from the hour count, or set. */
    method AdjHour(sign: Sign, val: int) returns (ok: bool)
      requires ValidDay(D()) && 0 <= hour < 24
      modifies this`year, this`mon, this`mday, this`hour
      ensures ValidDay(D()) && 0 <= hour < 24
      ensures ok <==> val >= 0 && (sign.Assign? ==> val <= 23)
      ensures !ok ==> D() == old(D())
      ensures ok && sign.Plus? ==> Hours(D()) == Hours(old(D())) + val
      ensures ok && sign.Minus? ==> Hours(D()) == Hours(old(D())) - val
      ensures ok && sign.Assign? ==> D() == old(D()).(hour := val)
    {
      hide DaysBeforeYear, DaysBeforeMonth, MonthLength;
      if val < 0 {
        return false;
      }
      match sign {
        case Plus =>
          if val != 0 {
            AddHours(val);
          }
        case Minus =>
          if val != 0 {
            TakeHours(val);
          }
        case Assign =>
          if val > 23 {
            return false;
          }
          hour := val;
      }
      ok := true;
    }

    /** adjmin: minutes are added to or taken from the minute count, or set. */
    method AdjMin(sign: Sign, val: int) returns (ok: bool)
      requires ValidDay(D()) && 0 <= hour < 24 && 0 <= min < 60
      modifies this`year, this`mon, this`mday, this`hour, this`min
      ensures ValidDay(D()) && 0 <= hour < 24 && 0 <= min < 60
      ensures ok <==> val >= 0 && (sign.Assign? ==> val <= 59)
      ensures !ok ==> D() == old(D())
      ensures ok && sign.Plus? ==> Minutes(D()) == Minutes(old(D())) + val
      ensures ok && sign.Minus? ==> Minutes(D()) == Minutes(old(D())) - val
      ensures ok && sign.Assign? ==> D() == old(D()).(min := val)
    {
      hide Days, MonthLength, Hours;
      if val < 0 {
        return false;
      }
      match sign {
        case Plus =>
          if val != 0 {
            ok := AdjHour(Plus, (min + val) / 60);
            ghost var d := D();
            min := min + val % 60;
            if min > 59 {
              min := min - 60;
            }
            MinutesAside(d, min);
          }
        case Minus =>
          if val != 0 {
            ok := AdjHour(Minus, val / 60);
            var rest := val % 60;
            if rest > min {
              ok := AdjHour(Minus, 1);
              rest := rest - 60;
            }
            ghost var d := D();
            min := min - rest;
            MinutesAside(d, min);
          }
        case Assign =>
          if val > 59 {
            return false;
          }
          min := val;
      }
      ok := true;
    }

    /** adjsec: seconds are added to or taken from the civil second count, or set. */
    method AdjSec(sign: Sign, val: int) returns (ok: bool)
      requires ValidDate(D())
      modifies this`year, this`mon, this`mday, this`hour, this`min, this`sec
      ensures ValidDate(D())
      ensures ok <==> val >= 0 && (sign.Assign? ==> val <= 59)
      ensures !ok ==> D() == old(D())
      ensures ok && sign.Plus? ==> Seconds(D()) == Seconds(old(D())) + val
      ensures ok && sign.Minus? ==> Seconds(D()) == Seconds(old(D())) - val
      ensures ok && sign.Assign? ==> D() == old(D()).(sec := val)
    {
      hide Days, MonthLength, Minutes;
      if val < 0 {
        return false;
      }
      match sign {
        case Plus =>
          if val != 0 {
            ok := AdjMin(Plus, (sec + val) / 60);
            ghost var d := D();
            sec := sec + val % 60;
            if sec > 59 {
              sec := sec - 60;
            }
            SecondsAside(d, sec);
          }
        case Minus =>
          if val != 0 {
            ok := AdjMin(Minus, val / 60);
            var rest := val % 60;
            if rest > sec {
              ok := AdjMin(Minus, 1);
              rest := rest - 60;
            }
            ghost var d := D();
            sec := sec - rest;
            SecondsAside(d, sec);
          }
        case Assign =>
          if val > 59 {
            return false;
          }
          sec := val;
      }
      ok := true;
    }

    /** adjwday: whole weeks, or to the next or the last day of a given name, or to the given
        day of this week, Sunday first. */
    method AdjWday(sign: Sign, val: int, istext: bool) returns (ok: bool)
      requires ValidDay(D()) && (istext ==> 0 <= val <= 6)
      requires istext || sign.Assign? ==> wday == Weekday(D())
      modifies this`year, this`mon, this`mday
      ensures ValidDay(D())
      ensures ok <==> val >= 0 && (sign.Assign? ==> val <= 6)
      ensures !ok ==> D() == old(D())
      ensures ok && sign.Plus? && !istext ==> Days(D()) == Days(old(D())) + 7 * val
      ensures ok && sign.Minus? && !istext ==> Days(D()) == Days(old(D())) - 7 * val
      ensures ok && sign.Plus? && istext ==> Weekday(D()) == val && Days(old(D())) <= Days(D()) < Days(old(D())) + 7
      ensures ok && sign.Minus? && istext ==> Weekday(D()) == val && Days(old(D())) - 7 < Days(D()) <= Days(old(D()))
      ensures ok && sign.Assign? ==> Weekday(D()) == val && Days(D()) - val == Days(old(D())) - Weekday(old(D()))
    {
      hide Weekday, Days, DaysBeforeYear, DaysBeforeMonth, MonthLength;
      if val < 0 {
        return false;
      }
      match sign
      case Plus =>
        var n := if !istext then 7 * val else if val < wday then 7 - wday + val else val - wday;
        if n == 0 {
          return true;
        }
        ok := AdjDay(Plus, n);
        if istext {
          ToWeekday(old(D()), D(), val);
        }
      case Minus =>
        var n := if !istext then 7 * val else if val > wday then 7 - val + wday else wday - val;
        if n == 0 {
          return true;
        }
        ok := AdjDay(Minus, n);
        if istext {
          ToWeekday(old(D()), D(), val);
        }
      case Assign =>
        if val < wday {
          ok := AdjDay(Minus, wday - val);
          ToWeekday(old(D()), D(), val);
        } else if val > 6 {
          return false;
        } else if val > wday {
          ok := AdjDay(Plus, val - wday);
          ToWeekday(old(D()), D(), val);
        } else {
          return true;
        }
    }

    method Load(d: Date)
      modifies this`year, this`mon, this`mday, this`hour, this`min, this`sec
      ensures D() == d
    {
      year, mon, mday, hour, min, sec := d.year, d.mon, d.mday, d.hour, d.min, d.sec;
    }

    method Read() returns (d: Date)
      ensures d == D()
    {
      d := Date(year, mon, mday, hour, min, sec);
    }

    /** domktime: while mktime fails and the year is between the limits, an hour more (or
        less) is tried.  It stops after finitely many hours, at the first one at which
        mktime succeeds or the year is outside, and leaves the fields mktime gives. */
    method DoMktime(sign: Sign, mktime: Date -> Outcome) returns (ok: bool, ghost last: Date)
      requires ValidDate(D())
      modifies this`year, this`mon, this`mday, this`hour, this`min, this`sec
      ensures ValidDate(last) && last.min == old(min) && last.sec == old(sec)
      ensures if sign.Minus? then Hours(last) <= Hours(old(D())) else Hours(old(D())) <= Hours(last)
      ensures forall d :: ValidDate(d) && d.min == old(min) && d.sec == old(sec) ==>
        var h, from, to' := Hours(d), Hours(old(D())), Hours(last);
        (if sign.Minus? then to' < h <= from else from <= h < to') ==> mktime(d) == Fails && 68 < d.year < 138
      ensures ok <==> mktime(last).Gives?
      ensures ok ==> D() == mktime(last).date
      ensures !ok ==> D() == last && !(68 < year < 138)
    {
      hide DaysBeforeYear, DaysBeforeMonth, MonthLength;
      while true
        invariant ValidDate(D()) && min == old(min) && sec == old(sec)
        invariant if sign.Minus? then Hours(D()) <= Hours(old(D())) else Hours(old(D())) <= Hours(D())
        invariant forall d ::
          ValidDate(d) && d.min == old(min) && d.sec == old(sec) && Between(old(D()), d, D(), sign) ==>
            mktime(d) == Fails && 68 < d.year < 138
        decreases if 68 < year < 138 then 1 + HoursLeft(D(), sign) else 0
      {
        last := D();
        var now := Read();
        match mktime(now) {
          case Gives(d) =>
            Load(d);
            return true, last;
          case Fails =>
        }
        if !(68 < year < 138) {
          return false, last;
        }
        HoursLeftPositive(D(), sign);
        ok := AdjHour(if sign.Minus? then Minus else Plus, 1);
        forall d | ValidDate(d) && d.min == old(min) && d.sec == old(sec) && Between(old(D()), d, D(), sign)
          ensures mktime(d) == Fails && 68 < d.year < 138
        {
          if Hours(d) == Hours(last) {
            SecondsInjective(d, last);
          }
        }
        if 68 < year < 138 {
          HoursLeftPositive(D(), sign);
        }
      }
    }
  }

  datatype Unit = SecondUnit | MinuteUnit | HourUnit | DayUnit | WeekUnit

  function UnitSeconds(u: Unit): int {
    match u
    case SecondUnit => 1
    case MinuteUnit => 60
    case HourUnit => 3600
    case DayUnit => 86400
    case WeekUnit => 604800
  }

  /** A signed number of seconds, minutes, hours, days or weeks changes the civil second count
      by exactly that many units. */
  method Shift(t: Tm, u: Unit, forward: bool, val: int)
    requires ValidDate(t.D()) && val >= 0
    modifies t
    ensures ValidDate(t.D())
    ensures Seconds(t.D()) == Seconds(old(t.D())) + (if forward then val else -val) * UnitSeconds(u)
    ensures t.wday == old(t.wday)
  {
    hide DaysBeforeYear, DaysBeforeMonth, MonthLength;
    var sign := if forward then Plus else Minus;
    var ok;
    match u
    case SecondUnit => ok := t.AdjSec(sign, val);
    case MinuteUnit => ok := t.AdjMin(sign, val);
    case HourUnit => ok := t.AdjHour(sign, val);
    case DayUnit => ok := t.AdjDay(sign, val);
    case WeekUnit => ok := t.AdjWday(sign, val, false);
  }

  /** Adding a number of units and taking it away again gives back every field, whatever
      months, leap years and centuries lie in between. */
  method ThereAndBack(t: Tm, u: Unit, val: int)
    requires ValidDate(t.D()) && val >= 0
    modifies t
    ensures t.D() == old(t.D())
  {
    hide Seconds, ValidDate, UnitSeconds;
    Shift(t, u, true, val);
    Shift(t, u, false, val);
    assert val * UnitSeconds(u) + -val * UnitSeconds(u) == 0;
    SecondsInjective(t.D(), old(t.D()));
  }

  /** Months are not like that: the way there and back gives back the date exactly when the
      month in between has the day (January 31, a month on and a month back, is not one). */
  method MonthsThereAndBack(t: Tm, val: int)
    requires ValidDay(t.D()) && val >= 0
    modifies t
    ensures ValidDay(t.D()) && Months(t.D()) == Months(old(t.D()))
    ensures var m := Months(old(t.D())) + val;
      t.D() == old(t.D()) <==> old(t.mday) <= MonthLength(m / 12, m % 12)
  {
    hide Leap;
    var ok := t.AdjMon(Plus, val, false);
    assert t.year == Months(t.D()) / 12 && t.mon == Months(t.D()) % 12;
    ok := t.AdjMon(Minus, val, false);
  }

  /** A date where it shows: January 31 of 2001, a month on and a month back, is January 28. */
  method JanuaryThirtyFirst() returns (d: Date)
    ensures d == Date(101, 0, 28, 0, 0, 0)
  {
    var t := new Tm(Date(101, 0, 31, 0, 0, 0), 3);
    var ok := t.AdjMon(Plus, 1, false);
    assert t.year == 101 && t.mon == 1 && t.mday == 28;
    ok := t.AdjMon(Minus, 1, false);
    d := t.Read();
  }

  /** Years there and back give back every field, also over a February 29 that the years in
      between do not have, as long as no mktime comes in between. */
  method YearsThereAndBack(t: Tm, val: int)
    modifies t
    ensures t.D() == old(t.D())
  {
    t.AdjYear(Plus, val);
    t.AdjYear(Minus, val);
  }

  // Sunday is 0; the day that the count starts from was a Monday.
  function Weekday(d: Date): (w: int)
    requires ValidDay(d)
    ensures 0 <= w < 7
  {
    (Days(d) + 1) % 7
  }

  lemma Weeks(n: int, k: int)
    ensures (n - 7 * k) % 7 == n % 7
  {
  }

  /** The days of the week go round from a Thursday, the first of January 1970. */
  lemma WeekdayKnown(d: Date)
    requires ValidDay(d)
    ensures var epoch := Date(70, 0, 1, 0, 0, 0);
      ValidDay(epoch) && Weekday(epoch) == 4 && Weekday(d) == (4 + Days(d) - Days(epoch)) % 7
  {
    EpochDay();
    hide Days;
    Weeks(Days(d) + 1, 102737);
  }

  // Whether d comes before `to` on the way from `from`, hour by hour.
  ghost predicate Between(from: Date, d: Date, to': Date, sign: Sign)
    requires ValidDay(from) && ValidDay(d) && ValidDay(to')
  {
    if sign.Minus? then Hours(to') < Hours(d) <= Hours(from) else Hours(from) <= Hours(d) < Hours(to')
  }

  // The hours to the limit in the direction of the search.
  ghost function HoursLeft(d: Date, sign: Sign): int
    requires ValidDay(d)
  {
    if sign.Minus? then Hours(d) - 24 * DaysBeforeYear(69) else 24 * DaysBeforeYear(138) - Hours(d)
  }

  lemma HoursLeftPositive(d: Date, sign: Sign)
    requires ValidDate(d) && 68 < d.year < 138
    ensures HoursLeft(d, sign) >= 0
  {
    DayInYear(d);
    YearsGrow(69, d.year);
    YearsGrow(d.year + 1, 138);
  }
}

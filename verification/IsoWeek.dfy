/** The ISO 8601 week of strftime: a week belongs to the year of its Thursday. */
module IsoWeek {
  import opened Calendar

  /** The part of struct tm that week numbers are made of; the year is the calendar year. */
  datatype Day = Day(year: int, mon: int, mday: int, wday: int, yday: int) {
    /** Month, day of the month and day of the year agree; any weekday can fall on a date. */
    predicate Consistent() {
      && IsDate(year, mon, mday) && 0 <= wday < 7
      && yday == DaysBeforeMonth(year, mon) + mday - 1
    }
  }

  // The Thursday of the Monday-based week of the day, as a day of the day's own year.
  function Thursday(d: Day): int {
    d.yday - (d.wday + 6) % 7 + 3
  }

  /** The year the Thursday lies in. */
  function WeekYear(d: Day): int {
    if Thursday(d) < 0 then d.year - 1
    else if Thursday(d) >= YearLength(d.year) then d.year + 1
    else d.year
  }

  /** Which Thursday of its year it is: the week number of the ISO standard. */
  function WeekOfThursday(d: Day): int {
    var t := Thursday(d);
    var ofItsYear :=
      if t < 0 then t + YearLength(d.year - 1)
      else if t >= YearLength(d.year) then t - YearLength(d.year)
      else t;
    ofItsYear / 7 + 1
  }

  lemma WeekInRange(d: Day)
    requires d.Consistent()
    ensures 1 <= WeekOfThursday(d) <= 53
  {
    hide IsLeap, DaysBeforeMonth;
    InYear(d.year, d.mon, d.mday);
  }

  /** weeknumber */
  method WeekNumber(d: Day, firstWeekday: int) returns (ret: int)
    requires d.Consistent()
    ensures ret >= 0 && ret == CountedWeek(d, firstWeekday == 1)
  {
    hide IsLeap, DaysBeforeMonth;
    InYear(d.year, d.mon, d.mday);
    var wday := d.wday;
    if firstWeekday == 1 {
      wday := if wday == 0 then 6 else wday - 1;
    }
    ret := CDiv(d.yday + 7 - wday, 7);
    ret := if ret < 0 then 0 else ret;
  }

  /** How many Mondays (or Sundays) of the year have come by the day. */
  function CountedWeek(d: Day, monday: bool): int {
    (d.yday + 7 - if monday then (d.wday + 6) % 7 else d.wday) / 7
  }

  // The week of the Thursday, were it never in the next year.
  function WeekSoFar(d: Day): int {
    (if Thursday(d) < 0 then Thursday(d) + YearLength(d.year - 1) else Thursday(d)) / 7 + 1
  }

  /** A Thursday lies in the next year exactly for the last days of December the code singles out. */
  lemma NextYearsWeek(d: Day)
    requires d.Consistent()
    ensures Thursday(d) >= YearLength(d.year) <==>
      (d.mon == 11 && ((d.wday == 1 && 29 <= d.mday <= 31) || (d.wday == 2 && (d.mday >= 30 || d.mday == 31))
                       || (d.wday == 3 && d.mday == 31)))
    ensures Thursday(d) >= YearLength(d.year) ==> WeekOfThursday(d) == 1
    ensures Thursday(d) < YearLength(d.year) ==> WeekOfThursday(d) == WeekSoFar(d)
  {
    hide IsLeap, DaysBeforeMonth;
    InYear(d.year, d.mon, d.mday);
    MonthOfDay(d);
  }

  /** iso8601wknum: the recursion, to the last day of the year before, never goes further. */
  method Iso8601WkNum(d: Day) returns (weekNum: int)
    requires d.Consistent()
    ensures weekNum == WeekOfThursday(d)
    decreases if d.mon == 11 then 0 else 1, 2
  {
    hide IsLeap, DaysBeforeMonth, WeekOfThursday, WeekSoFar, IsDate;
    weekNum := CountWeeks(d);
    NextYearsWeek(d);
    if d.mon == 11 {
      if (d.wday == 1 && 29 <= d.mday <= 31) || (d.wday == 2 && (d.mday >= 30 || d.mday == 31))
         || (d.wday == 3 && d.mday == 31) {
        weekNum := 1;
      }
    }
  }

  // The weekday of 1 January, Monday being 0.
  function FirstWeekday(d: Day): (j: int)
    ensures 0 <= j < 7
  {
    (d.wday + 6 - d.yday) % 7
  }

  /** With m full weeks before the one of the day, counted from the week of 1 January. */
  lemma FullWeeks(d: Day) returns (m: int)
    requires d.yday >= 0 && 0 <= d.wday < 7
    ensures d.yday + FirstWeekday(d) == 7 * m + (d.wday + 6) % 7
    ensures Thursday(d) == 7 * m + 3 - FirstWeekday(d)
    ensures CountedWeek(d, true) == if FirstWeekday(d) == 0 then m + 1 else m
  {
    var j, w := FirstWeekday(d), (d.wday + 6) % 7;
    m := (d.yday + j - w) / 7;
    Congruent(d.wday + 6, d.yday);
  }

  lemma Congruent(a: int, y: int)
    ensures (y + (a - y) % 7 - a % 7) % 7 == 0
  {
  }

  lemma Jan1Day(d: Day, jan1day: int)
    requires d.yday >= 0 && 0 <= d.wday < 7
    requires jan1day == var j := d.wday - d.yday % 7; if j < 0 then j + 7 else j
    ensures jan1day == (FirstWeekday(d) + 1) % 7
  {
  }

  /** The first half of iso8601wknum, by the weekday of 1 January. */
  method CountWeeks(d: Day) returns (weekNum: int)
    requires d.Consistent()
    ensures weekNum == WeekSoFar(d)
    decreases if d.mon == 11 then 0 else 1, 1
  {
    hide IsLeap, DaysBeforeMonth, WeekOfThursday, FirstWeekday, Thursday, CountedWeek;
    InYear(d.year, d.mon, d.mday);
    MonthOfDay(d);
    ghost var m := FullWeeks(d);
    weekNum := WeekNumber(d, 1);
    var jan1day := d.wday - CMod(d.yday, 7);
    if jan1day < 0 {
      jan1day := jan1day + 7;
    }
    Jan1Day(d, jan1day);
    match jan1day {
      case 1 =>
      case 2 | 3 | 4 =>
        weekNum := weekNum + 1;
      case 5 | 6 | 0 =>
        if weekNum == 0 {
          weekNum := LastWeekBefore(d, jan1day);
        }
      case _ =>
    }
  }

  /** The recursive step: the week of the last day of the year before. */
  method LastWeekBefore(d: Day, jan1day: int) returns (weekNum: int)
    requires d.Consistent() && d.mon == 0 && 0 <= jan1day < 7
    requires Thursday(d) < 0 && jan1day == (FirstWeekday(d) + 1) % 7
    ensures weekNum == WeekSoFar(d)
    decreases 0, 3
  {
    hide IsLeap, DaysBeforeMonth, WeekOfThursday;
    LastDay(d.year - 1);
    MonthOfDay(d);
    var dec31ly := Day(d.year - 1, 11, 31, if jan1day == 0 then 6 else jan1day - 1,
                       364 + if IsLeap(d.year - 1) then 1 else 0);
    NextYearsWeek(dec31ly);
    weekNum := Iso8601WkNum(dec31ly);
  }

  lemma LastDay(year: int)
    ensures DaysBeforeMonth(year, 11) + 30 == YearLength(year) - 1 && IsDate(year, 11, 31)
  {
    TableRight(year, 11);
  }

  /** January is the first 31 days, December the last 31. */
  lemma MonthOfDay(d: Day)
    requires d.Consistent()
    ensures d.mon == 0 <==> d.yday < 31
    ensures d.mon == 0 ==> d.yday == d.mday - 1
    ensures d.mon == 11 <==> d.yday >= YearLength(d.year) - 31
    ensures d.mon == 11 ==> d.yday == YearLength(d.year) - 32 + d.mday
  {
    hide IsLeap;
    LastDay(d.year);
    if d.mon > 0 {
      MonthsGrow(d.year, 0, d.mon);
    }
    if d.mon < 11 {
      MonthsGrow(d.year, d.mon, 11);
    }
    assert DaysBeforeMonth(d.year, 1) == 31;
  }

  /** %G: the year of the Thursday, from the week number and the month. */
  method IsoYear(d: Day) returns (y: int)
    requires d.Consistent()
    ensures y == WeekYear(d)
  {
    hide IsLeap, DaysBeforeMonth;
    InYear(d.year, d.mon, d.mday);
    MonthOfDay(d);
    var w := Iso8601WkNum(d);
    y := d.year;
    if d.mon == 11 && w == 1 {
      y := y + 1;
    } else if d.mon == 0 && w >= 52 {
      y := y - 1;
    }
  }
}

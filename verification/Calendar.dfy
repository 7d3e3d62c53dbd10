/** gmtime, the day count of mktime, and the proleptic Gregorian calendar both are about. */
module Calendar {

  const SECS_PER_DAY: int := 86400

  // The division and remainder of C, which truncate toward zero.
  function CDiv(a: int, b: int): int
    requires b > 0
  {
    if a >= 0 then a / b else -(-a / b)
  }

  function CMod(a: int, b: int): int
    requires b > 0
  {
    a - CDiv(a, b) * b
  }

  predicate IsLeap(year: int) {
    year % 4 == 0 && (year % 100 != 0 || year % 400 == 0)
  }

  function YearLength(year: int): int {
    if IsLeap(year) then 366 else 365
  }

  const MONTH_LENGTHS: seq<int> := [31, 28, 31, 30, 31, 30, 31, 31, 30, 31, 30, 31]

  function MonthLength(year: int, month: nat): (n: int)
    requires month < 12
    ensures 28 <= n <= 31
  {
    if month == 1 && IsLeap(year) then 29 else MONTH_LENGTHS[month]
  }

  // ---- the calendar

  /** Days from 1 January 1970 to 1 January of a year, counted year by year. */
  function DaysBeforeYear(year: int): int
    decreases if year >= 1970 then year - 1970 else 1970 - year
  {
    if year == 1970 then 0
    else if year > 1970 then DaysBeforeYear(year - 1) + YearLength(year - 1)
    else DaysBeforeYear(year + 1) - YearLength(year)
  }

  /** Days from 1 January to the first of a month; month 12 is the next year. */
  function DaysBeforeMonth(year: int, month: nat): (d: int)
    requires month <= 12
    ensures 28 * month <= d
  {
    if month == 0 then 0 else DaysBeforeMonth(year, month - 1) + MonthLength(year, month - 1)
  }

  /** The number of a day, 1 January 1970 being day 0. */
  function DayNumber(year: int, month: nat, mday: int): int
    requires month <= 12
  {
    DaysBeforeYear(year) + DaysBeforeMonth(year, month) + mday - 1
  }

  predicate IsDate(year: int, month: int, mday: int) {
    0 <= month < 12 && 1 <= mday <= MonthLength(year, month)
  }

  lemma YearIsItsMonths(year: int)
    ensures DaysBeforeMonth(year, 12) == YearLength(year)
  {
    TableRight(year, 12);
  }

  const DAYS_BEFORE_MONTH: seq<int> := [0, 31, 59, 90, 120, 151, 181, 212, 243, 273, 304, 334, 365]

  /** The table of mktime, with the leap day behind February, gives the days before each month. */
  lemma {:induction false} TableRight(year: int, month: nat)
    requires month <= 12
    ensures DaysBeforeMonth(year, month) == DAYS_BEFORE_MONTH[month] + if month > 1 && IsLeap(year) then 1 else 0
  {
    hide IsLeap;
    if month > 0 {
      TableRight(year, month - 1);
    }
  }

  /** The days of a year come before those of the next. */
  lemma {:induction false} YearsGrow(y: int, z: int)
    requires y <= z
    ensures y < z ==> DaysBeforeYear(y) + YearLength(y) <= DaysBeforeYear(z)
    decreases z - y
  {
    NextYear(y);
    if y + 1 < z {
      YearsGrow(y + 1, z);
      NextYear(y + 1);
    }
  }

  lemma NextYear(y: int)
    ensures DaysBeforeYear(y + 1) == DaysBeforeYear(y) + YearLength(y)
  {
  }

  lemma {:induction false} MonthsGrow(year: int, m: nat, n: nat)
    requires m < n <= 12
    ensures DaysBeforeMonth(year, m) + MonthLength(year, m) <= DaysBeforeMonth(year, n)
    decreases n
  {
    if m + 1 < n {
      MonthsGrow(year, m, n - 1);
    }
  }

  /** A day has one date. */
  lemma DateUnique(y: int, m: int, d: int, y': int, m': int, d': int)
    requires IsDate(y, m, d) && IsDate(y', m', d') && DayNumber(y, m, d) == DayNumber(y', m', d')
    ensures y == y' && m == m' && d == d'
  {
    hide IsLeap, DaysBeforeYear, MonthLength;
    InYear(y, m, d);
    InYear(y', m', d');
    if y < y' {
      YearsGrow(y, y');
    } else if y' < y {
      YearsGrow(y', y);
    } else if m < m' {
      MonthsGrow(y, m, m');
    } else if m' < m {
      MonthsGrow(y, m', m);
    }
  }

  lemma InYear(y: int, m: int, d: int)
    requires IsDate(y, m, d)
    ensures 0 <= DaysBeforeMonth(y, m) + d - 1 < YearLength(y)
  {
    YearIsItsMonths(y);
    if m < 12 {
      MonthsGrow(y, m, 12);
    }
  }

  // ---- gmtime

  /** struct tm; `year` is tm_year + 1900. */
  datatype Tm = Tm(sec: int, min: int, hour: int, mday: int, mon: int, year: int, wday: int, yday: int, isdst: bool,
      gmtoff: int)

  /** The fields are the calendar date, time, weekday and day of the year of a number of seconds. */
  ghost predicate Shows(tm: Tm, seconds: int) {
    && IsDate(tm.year, tm.mon, tm.mday)
    && 0 <= tm.sec < 60 && 0 <= tm.min < 60 && 0 <= tm.hour < 24
    && seconds == DayNumber(tm.year, tm.mon, tm.mday) * SECS_PER_DAY + tm.hour * 3600 + tm.min * 60 + tm.sec
    && tm.yday == DaysBeforeMonth(tm.year, tm.mon) + tm.mday - 1
    && tm.wday == (4 + DayNumber(tm.year, tm.mon, tm.mday)) % 7
  }

  /** The year loop: the year a day lies in, and its position there. */
  method FindYear(days0: int) returns (year: int, days: int)
    ensures days0 == DaysBeforeYear(year) + days && 0 <= days < YearLength(year)
  {
    hide IsLeap;
    year, days := 1970, days0;
    while true
      invariant days0 == DaysBeforeYear(year) + days
      invariant year < 1970 ==> days < YearLength(year)
      decreases days < 0, if days < 0 then -days else days
    {
      var yearLen := if IsLeap(year) then 366 else 365;
      NextYear(year);
      NextYear(year - 1);
      if days >= 0 {
        if days < yearLen {
          break;
        }
        days := days - yearLen;
        year := year + 1;
      } else {
        year := year - 1;
        yearLen := if IsLeap(year) then 366 else 365;
        days := days + yearLen;
      }
    }
  }

  /** The month loop. */
  method FindMonth(year: int, days0: int) returns (month: nat, days: int)
    requires 0 <= days0 < YearLength(year)
    ensures month < 12 && days0 == DaysBeforeMonth(year, month) + days && 0 <= days < MonthLength(year, month)
  {
    hide IsLeap;
    YearIsItsMonths(year);
    month, days := 0, days0;
    while month < 12
      invariant month <= 12 && days0 == DaysBeforeMonth(year, month) + days && 0 <= days
    {
      var dim := MONTH_LENGTHS[month];
      if month == 1 && IsLeap(year) {
        dim := dim + 1;
      }
      if days < dim {
        break;
      }
      days := days - dim;
      month := month + 1;
    }
  }

  /** What gmtime and localtime both make of a number of seconds. */
  method BreakDown(time: int, isdst: bool, gmtoff: int) returns (tm: Tm)
    ensures Shows(tm, time) && tm.isdst == isdst && tm.gmtoff == gmtoff
  {
    hide IsLeap, DaysBeforeYear, DaysBeforeMonth, MonthLength;
    var days, rem := CDiv(time, SECS_PER_DAY), CMod(time, SECS_PER_DAY);
    if rem < 0 {
      rem := rem + SECS_PER_DAY;
      days := days - 1;
    }
    assert time == days * SECS_PER_DAY + rem && 0 <= rem < SECS_PER_DAY;
    var hour := rem / 3600;
    rem := rem % 3600;
    var min, sec := rem / 60, rem % 60;
    var wday := CMod(4 + days, 7);
    if wday < 0 {
      wday := wday + 7;
    }
    var year, yday := FindYear(days);
    var month, rest := FindMonth(year, yday);
    tm := Tm(sec, min, hour, rest + 1, month, year, wday, yday, isdst, gmtoff);
  }

  /** gmtime */
  method Gmtime(time: int) returns (tm: Tm)
    ensures Shows(tm, time) && !tm.isdst && tm.gmtoff == 0
  {
    tm := BreakDown(time, false, 0);
  }

  // ---- the day count of mktime

  /** Days before a year by the formula of the code: leap years up to the year before are counted with
      divisions that truncate toward zero. */
  function ClosedForm(year: int): int {
    var leaps := CDiv(year - 1, 4) - CDiv(year - 1, 100) + CDiv(year - 1, 400);
    var epoch := 1969 / 4 - 1969 / 100 + 1969 / 400;
    (year - 1970) * 365 + (leaps - epoch)
  }

  // The same with divisions that round down.
  function FloorForm(year: int): int {
    (year - 1970) * 365 + (year - 1) / 4 - (year - 1) / 100 + (year - 1) / 400 - 477
  }

  lemma FloorStep(y: int)
    ensures FloorForm(y + 1) == FloorForm(y) + YearLength(y)
  {
    Tick(y, 4);
    Tick(y, 100);
    Tick(y, 400);
  }

  // A quotient grows exactly at the multiples.
  lemma Tick(y: int, n: int)
    requires n == 4 || n == 100 || n == 400
    ensures y / n == (y - 1) / n + if y % n == 0 then 1 else 0
  {
  }

  lemma {:induction false} FloorIsDays(year: int)
    ensures FloorForm(year) == DaysBeforeYear(year)
    decreases if year >= 1970 then year - 1970 else 1970 - year
  {
    hide YearLength;
    if year > 1970 {
      FloorIsDays(year - 1);
      FloorStep(year - 1);
    } else if year < 1970 {
      FloorIsDays(year + 1);
      FloorStep(year);
    }
  }

  /** Rounding toward zero instead of down. */
  lemma Truncated(x: int, n: int)
    requires n > 0
    ensures CDiv(x, n) == x / n + if x < 0 && x % n != 0 then 1 else 0
  {
    var q, r := x / n, x % n;
    assert x == n * q + r;
    if x < 0 {
      var q', r' := -x / n, -x % n;
      assert -x == n * q' + r';
      assert n * (q + q') == -(r + r');
      Multiple(n, q + q', r + r');
    }
  }

  lemma Multiple(n: int, k: int, r: int)
    requires n > 0 && n * k == -r && 0 <= r <= 2 * n - 2
    ensures (k == 0 && r == 0) || (k == -1 && r == n)
  {
    Multiples(n, k);
  }

  lemma Multiples(n: int, k: int)
    requires n > 0
    ensures k >= 1 ==> n * k >= n
    ensures k <= -2 ==> n * k <= -2 * n
  {
    if k <= -2 {
      assert n * k == n * (k + 2) - 2 * n;
    }
  }

  /** The formula of mktime gives the days before a year exactly from year 1 on; before that, exactly
      when the year before it is a leap year. */
  lemma ClosedFormExact(year: int)
    ensures ClosedForm(year) == DaysBeforeYear(year) <==> year >= 1 || IsLeap(year - 1)
    ensures ClosedForm(year) == DaysBeforeYear(year) || ClosedForm(year) == DaysBeforeYear(year) + 1
  {
    hide CDiv;
    FloorIsDays(year);
    Truncated(year - 1, 4);
    Truncated(year - 1, 100);
    Truncated(year - 1, 400);
    Nested(year - 1);
  }

  /** Year 0, a leap year behind one that is not, is where the formula first fails: one day too many. */
  lemma YearZeroIsOff()
    ensures ClosedForm(0) == DaysBeforeYear(0) + 1
  {
    ClosedFormExact(0);
  }

  lemma Nested(x: int)
    ensures x % 400 == 0 ==> x % 100 == 0
    ensures x % 100 == 0 ==> x % 4 == 0
  {
  }

  /** The month brought into range by the code: year, and entry of the table. */
  function NormalMonth(year: int, mon: int): (int, int) {
    if mon < 0 then (year + CDiv(mon, 12) - 1, CMod(mon, 12) + 12)
    else if mon >= 12 then (year + CDiv(mon, 12), CMod(mon, 12))
    else (year, mon)
  }

  /** A month number means that many months from January: floor division finds year and month. A negative
      multiple of 12 reaches entry 12 of the table, a whole year of the year before. */
  lemma NormalMonthRight(year: int, mon: int)
    ensures var (y, m) := NormalMonth(year, mon);
      && 0 <= m <= 12
      && (m == 12 <==> mon < 0 && mon % 12 == 0)
      && DayNumber(y, m, 1) == DayNumber(year + mon / 12, mon % 12, 1)
  {
    hide CDiv, IsLeap, DaysBeforeYear;
    var (y, m) := NormalMonth(year, mon);
    Truncated(mon, 12);
    assert mon == mon / 12 * 12 + mon % 12;
    if m == 12 {
      YearIsItsMonths(y);
      NextYear(y);
    }
  }

  // The seconds of a broken-down time, before any zone correction.
  method LocalSeconds(year0: int, mon0: int, mday: int, hour: int, min: int, sec: int) returns (seconds: int)
    ensures seconds == FieldSeconds(year0, mon0, mday, hour, min, sec)
  {
    hide CDiv, CMod, IsLeap, DaysBeforeYear, DaysBeforeMonth;
    var year, mon := year0, mon0;
    if mon < 0 {
      year := year + (CDiv(mon, 12) - 1);
      mon := CMod(mon, 12) + 12;
    } else if mon >= 12 {
      year := year + CDiv(mon, 12);
      mon := CMod(mon, 12);
    }
    NormalMonthRight(year0, mon0);
    var leapsCurrent := CDiv(year - 1, 4) - CDiv(year - 1, 100) + CDiv(year - 1, 400);
    var leapsEpoch := 1969 / 4 - 1969 / 100 + 1969 / 400;
    var totalDays := (year - 1970) * 365 + (leapsCurrent - leapsEpoch);
    totalDays := totalDays + DAYS_BEFORE_MONTH[mon];
    if mon > 1 && IsLeap(year) {
      totalDays := totalDays + 1;
    }
    TableRight(year, mon);
    totalDays := totalDays + mday - 1;
    seconds := totalDays * SECS_PER_DAY + hour * 3600 + min * 60 + sec;
  }

  /** The day count mktime makes of a year, month and day. */
  function FieldDays(year: int, mon: int, mday: int): int {
    var (y, m) := NormalMonth(year, mon);
    NormalMonthRight(year, mon);
    ClosedForm(y) + DaysBeforeMonth(y, m) + mday - 1
  }

  function FieldSeconds(year: int, mon: int, mday: int, hour: int, min: int, sec: int): int {
    FieldDays(year, mon, mday) * SECS_PER_DAY + hour * 3600 + min * 60 + sec
  }

  /** Fields beyond their ranges carry over: 60 seconds are a minute, 60 minutes an hour, 24 hours a day, and 12
      months a year where the year they are counted from is one the day formula is right for. */
  lemma FieldsCarry(year: int, mon: int, mday: int, hour: int, min: int, sec: int)
    ensures FieldSeconds(year, mon, mday, hour, min, sec + 60) == FieldSeconds(year, mon, mday, hour, min + 1, sec)
    ensures FieldSeconds(year, mon, mday, hour, min + 60, sec) == FieldSeconds(year, mon, mday, hour + 1, min, sec)
    ensures FieldSeconds(year, mon, mday, hour + 24, min, sec) == FieldSeconds(year, mon, mday + 1, hour, min, sec)
    ensures year >= 1 && mon >= 0 ==>
      FieldSeconds(year, mon + 12, mday, hour, min, sec) == FieldSeconds(year + 1, mon, mday, hour, min, sec)
  {
    hide CDiv, CMod, IsLeap, DaysBeforeYear, DaysBeforeMonth, NormalMonth, ClosedForm, FieldDays;
    DaysCarry(year, mon, mday);
  }

  lemma DaysCarry(year: int, mon: int, mday: int)
    ensures FieldDays(year, mon, mday + 1) == FieldDays(year, mon, mday) + 1
    ensures mon >= 0 ==> FieldDays(year, mon + 12, mday) == FieldDays(year + 1, mon, mday)
  {
    hide ClosedForm, DaysBeforeMonth;
  }

  /** For every month number the count is the right day, under the condition of the formula on the year
      the code counts from. */
  lemma FieldDaysRight(year: int, mon: int, mday: int)
    ensures var (y, m) := NormalMonth(year, mon);
      FieldDays(year, mon, mday) == DayNumber(year + mon / 12, mon % 12, mday) <==> y >= 1 || IsLeap(y - 1)
  {
    hide CDiv, CMod, IsLeap, DaysBeforeYear, DaysBeforeMonth, NormalMonth, ClosedForm;
    var (y, m) := NormalMonth(year, mon);
    NormalMonthRight(year, mon);
    ClosedFormExact(y);
  }

  /** Without a zone, mktime after gmtime is the identity, for every time in a year from 1 on. */
  lemma SecondsRoundTrip(tm: Tm, time: int)
    requires Shows(tm, time)
    ensures FieldSeconds(tm.year, tm.mon, tm.mday, tm.hour, tm.min, tm.sec) == time <==>
        tm.year >= 1 || IsLeap(tm.year - 1)
  {
    hide CDiv, CMod, IsLeap, DaysBeforeYear, DaysBeforeMonth, FieldDays;
    FieldDaysRight(tm.year, tm.mon, tm.mday);
  }
}

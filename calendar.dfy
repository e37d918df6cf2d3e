/**
 * The calendar arithmetic that the source gets from JavaScript `Date` and date-fns,
 * on day indices: day 0 is 1970-01-01, a Thursday, and the index goes up by one
 * per day of the proleptic Gregorian calendar. Instants are milliseconds of local
 * wall-clock time, with no time-zone or daylight-saving shifts.
 */
module Calendar {

  const MsPerSecond := 1000
  const MsPerMinute := 60000
  const MsPerHour := 3600000
  const MsPerDay := 86400000

  /** A calendar date as `getFullYear()`, `getMonth() + 1` and `getDate()` give it. */
  datatype Civil = Civil(year: int, month: int, day: int)

  predicate IsLeapYear(y: int) {
    y % 4 == 0 && (y % 100 != 0 || y % 400 == 0)
  }

  function DaysInYear(y: int): (n: int)
    ensures 365 <= n <= 366
  {
    if IsLeapYear(y) then 366 else 365
  }

  function DaysInMonth(y: int, m: int): (n: int)
    requires 1 <= m <= 12
    ensures 28 <= n <= 31
  {
    if m == 2 then (if IsLeapYear(y) then 29 else 28)
    else if m == 4 || m == 6 || m == 9 || m == 11 then 30
    else 31
  }

  /** The number of days of year `y` before the first day of month `m`. */
  function DaysBeforeMonth(y: int, m: int): (n: int)
    requires 1 <= m <= 12
    ensures m == 1 <==> n == 0
    ensures 0 <= n && n + DaysInMonth(y, m) <= DaysInYear(y)
  {
    (if m == 1 then 0 else if m == 2 then 31 else if m == 3 then 59
     else if m == 4 then 90 else if m == 5 then 120 else if m == 6 then 151
     else if m == 7 then 181 else if m == 8 then 212 else if m == 9 then 243
     else if m == 10 then 273 else if m == 11 then 304 else 334)
    + (if 2 < m && IsLeapYear(y) then 1 else 0)
  }

  /** Each month starts where the one before it ends, and December ends the year. */
  lemma MonthTable(y: int, m: int)
    requires 1 <= m <= 12
    ensures m < 12 ==> DaysBeforeMonth(y, m + 1) == DaysBeforeMonth(y, m) + DaysInMonth(y, m)
    ensures m == 12 ==> DaysBeforeMonth(y, 12) + DaysInMonth(y, 12) == DaysInYear(y)
  {
  }

  predicate ValidCivil(c: Civil) {
    1 <= c.month <= 12 && 1 <= c.day <= DaysInMonth(c.year, c.month)
  }

  /** The day index of January 1st of year `y`. */
  function YearStart(y: int): int
    decreases if y < 1970 then 1970 - y else y - 1970
  {
    if y == 1970 then 0
    else if y > 1970 then YearStart(y - 1) + DaysInYear(y - 1)
    else YearStart(y + 1) - DaysInYear(y)
  }

  /** The day index of a date whose month is in range; the day may run past the month's end. */
  function DayOfCivil(c: Civil): int
    requires 1 <= c.month <= 12
  {
    YearStart(c.year) + DaysBeforeMonth(c.year, c.month) + c.day - 1
  }

  /**
   * The date `new Date(y, monthIndex, d)` stands for: a zero-based month that may
   * lie outside 0..11 carries into the year, and a day past the month's end
   * carries into the following months.
   */
  function MakeDay(y: int, monthIndex: int, d: int): int {
    DayOfCivil(Civil(y + monthIndex / 12, monthIndex % 12 + 1, d))
  }

  /** The month of year `y` that holds day `n` of the year (0-based), searching from month `m` down. */
  function MonthOfYearDay(y: int, n: int, m: int): (r: int)
    requires 0 <= n && 1 <= m <= 12
    requires m == 12 ==> n < DaysInYear(y)
    requires m < 12 ==> n < DaysBeforeMonth(y, m + 1)
    ensures 1 <= r <= m
    ensures DaysBeforeMonth(y, r) <= n < DaysBeforeMonth(y, r) + DaysInMonth(y, r)
    decreases m
  {
    MonthTable(y, m);
    if DaysBeforeMonth(y, m) <= n then m else MonthOfYearDay(y, n, m - 1)
  }

  /** The date that lies `n` days after January 1st of year `y` (`n` may be negative). */
  function CivilFrom(y: int, n: int): (c: Civil)
    ensures ValidCivil(c) && DayOfCivil(c) == YearStart(y) + n
    decreases if n < 0 then 1 else 0, if n < 0 then -n else n
  {
    if n < 0 then
      YearStartStep(y - 1);
      CivilFrom(y - 1, n + DaysInYear(y - 1))
    else if n >= DaysInYear(y) then
      YearStartStep(y);
      CivilFrom(y + 1, n - DaysInYear(y))
    else
      var m := MonthOfYearDay(y, n, 12);
      Civil(y, m, n - DaysBeforeMonth(y, m) + 1)
  }

  /** The calendar date of day `d`. */
  function CivilOf(d: int): (c: Civil)
    ensures ValidCivil(c) && DayOfCivil(c) == d
  {
    CivilFrom(1970, d)
  }

  /** `getDay()`: 0 is Sunday, 6 is Saturday. */
  function Weekday(d: int): (w: int)
    ensures 0 <= w < 7
  {
    (d + 4) % 7
  }

  /** The weekday advances by one, modulo 7, from each day to the next. */
  lemma WeekdayNext(d: int)
    ensures Weekday(d + 1) == (Weekday(d) + 1) % 7
  {
    var q := (d + 4) / 7;
    if Weekday(d) == 6 {
      assert d + 5 == 7 * (q + 1) + 0;
    } else {
      assert d + 5 == 7 * q + (Weekday(d) + 1);
    }
  }

  /** date-fns `isWeekend`. */
  predicate IsWeekend(d: int) {
    Weekday(d) == 0 || Weekday(d) == 6
  }

  /** The day an instant falls on. */
  function DayOf(t: int): (d: int)
    ensures DayStart(d) <= t < DayStart(d) + MsPerDay
  {
    t / MsPerDay
  }

  /** Midnight at the start of day `d`. */
  function DayStart(d: int): int {
    d * MsPerDay
  }

  /** date-fns `startOfMonth`. */
  function MonthStart(d: int): (r: int)
    ensures r <= d && d - r < DaysInMonth(CivilOf(d).year, CivilOf(d).month)
    ensures CivilOf(r) == Civil(CivilOf(d).year, CivilOf(d).month, 1)
  {
    var c := CivilOf(d);
    var first := Civil(c.year, c.month, 1);
    CivilOfDayOfCivil(first);
    DayOfCivil(first)
  }

  /** date-fns `endOfMonth`, as the day it falls on. */
  function MonthEnd(d: int): (r: int)
    ensures d <= r
    ensures r - MonthStart(d) + 1 == DaysInMonth(CivilOf(d).year, CivilOf(d).month)
  {
    var c := CivilOf(d);
    DayOfCivil(Civil(c.year, c.month, DaysInMonth(c.year, c.month)))
  }

  /** date-fns `startOfWeek` with `weekStartsOn: 1`: the Monday of `d`'s week. */
  function WeekStart(d: int): (r: int)
    ensures Weekday(r) == 1 && r <= d < r + 7
  {
    var w := Weekday(d);
    var q := (d + 4) / 7;
    var back := (w + 6) % 7;
    assert back == if w == 0 then 6 else w - 1;
    assert d - back + 4 == if w == 0 then 7 * (q - 1) + 1 else 7 * q + 1;
    d - back
  }

  /** date-fns `endOfWeek` with `weekStartsOn: 1`, as the day it falls on: the Sunday. */
  function WeekEnd(d: int): (r: int)
    ensures Weekday(r) == 0 && r - WeekStart(d) == 6
  {
    var m := WeekStart(d);
    assert m + 4 == 7 * ((m + 4) / 7) + 1;
    assert m + 6 + 4 == 7 * ((m + 4) / 7 + 1) + 0;
    m + 6
  }

  /** The year and month after those of `c`. */
  function NextMonth(c: Civil): (r: Civil)
    requires 1 <= c.month <= 12
    ensures 1 <= r.month <= 12 && r.day == 1
  {
    if c.month == 12 then Civil(c.year + 1, 1, 1) else Civil(c.year, c.month + 1, 1)
  }

  /**
   * date-fns `addMonths(date, 1)`: the same day of the next month, or that month's
   * last day when it is shorter.
   */
  function AddOneMonth(d: int): (r: int)
    ensures MonthEnd(d) < r
    ensures var c := CivilOf(d); var n := NextMonth(c);
            CivilOf(r) == Civil(n.year, n.month, if c.day < DaysInMonth(n.year, n.month) then c.day else DaysInMonth(n.year, n.month))
  {
    var c := CivilOf(d);
    var n := NextMonth(c);
    var last := DaysInMonth(n.year, n.month);
    var target := Civil(n.year, n.month, if c.day >= last then last else c.day);
    NextMonthStart(d);
    CivilOfDayOfCivil(target);
    DayOfCivil(target)
  }

  // ---------------------------------------------------------------------------
  // lemmas

  lemma YearStartStep(y: int)
    ensures YearStart(y + 1) == YearStart(y) + DaysInYear(y)
  {
  }

  /** Later years start later: every day of year `a` comes before year `b` starts. */
  lemma {:induction false} YearStartMonotone(a: int, b: int)
    requires a < b
    ensures YearStart(a) + DaysInYear(a) <= YearStart(b)
    decreases b - a
  {
    YearStartStep(a);
    if a + 1 < b {
      YearStartMonotone(a + 1, b);
    }
  }

  /** The days of an earlier month of the same year all come before a later month starts. */
  lemma {:induction false} DaysBeforeMonthMonotone(y: int, a: int, b: int)
    requires 1 <= a < b <= 12
    ensures DaysBeforeMonth(y, a) + DaysInMonth(y, a) <= DaysBeforeMonth(y, b)
    decreases b - a
  {
    MonthTable(y, a);
    if a + 1 < b {
      DaysBeforeMonthMonotone(y, a + 1, b);
    }
  }

  /** Lexicographic order on valid dates. */
  predicate CivilBefore(a: Civil, b: Civil) {
    a.year < b.year || (a.year == b.year && (a.month < b.month || (a.month == b.month && a.day < b.day)))
  }

  /** A date earlier on the calendar has a smaller day index. */
  lemma DayOfCivilMonotone(a: Civil, b: Civil)
    requires ValidCivil(a) && ValidCivil(b) && CivilBefore(a, b)
    ensures DayOfCivil(a) < DayOfCivil(b)
  {
    if a.year < b.year {
      YearStartMonotone(a.year, b.year);
      if a.month < 12 {
        DaysBeforeMonthMonotone(a.year, a.month, 12);
      }
    } else if a.month < b.month {
      DaysBeforeMonthMonotone(a.year, a.month, b.month);
    }
  }

  lemma DayOfCivilInjective(a: Civil, b: Civil)
    requires ValidCivil(a) && ValidCivil(b) && DayOfCivil(a) == DayOfCivil(b)
    ensures a == b
  {
    if CivilBefore(a, b) {
      DayOfCivilMonotone(a, b);
    } else if CivilBefore(b, a) {
      DayOfCivilMonotone(b, a);
    }
  }

  /** Day index and calendar date are inverse on valid dates. */
  lemma CivilOfDayOfCivil(c: Civil)
    requires ValidCivil(c)
    ensures CivilOf(DayOfCivil(c)) == c
  {
    DayOfCivilInjective(CivilOf(DayOfCivil(c)), c);
  }

  lemma CivilOfInjective(a: int, b: int)
    requires CivilOf(a) == CivilOf(b)
    ensures a == b
  {
  }

  /** The month after `d`'s month starts the day after `d`'s month ends. */
  lemma NextMonthStart(d: int)
    ensures DayOfCivil(NextMonth(CivilOf(d))) == MonthEnd(d) + 1
  {
    var c := CivilOf(d);
    MonthTable(c.year, c.month);
    if c.month == 12 {
      YearStartStep(c.year);
    }
  }

  /** The day `k` days after the first of `d`'s month is day `k + 1` of that month. */
  lemma DayOfMonth(d: int, k: int)
    requires 0 <= k < DaysInMonth(CivilOf(d).year, CivilOf(d).month)
    ensures CivilOf(MonthStart(d) + k) == Civil(CivilOf(d).year, CivilOf(d).month, k + 1)
  {
    var c := CivilOf(d);
    var t := Civil(c.year, c.month, k + 1);
    assert DayOfCivil(t) == MonthStart(d) + k;
    CivilOfDayOfCivil(t);
  }

  /** The day `k` days after `d`'s month ends is day `k + 1` of the next month. */
  lemma DayOfNextMonth(d: int, k: int)
    requires var n := NextMonth(CivilOf(d)); 0 <= k < DaysInMonth(n.year, n.month)
    ensures var n := NextMonth(CivilOf(d)); CivilOf(MonthEnd(d) + 1 + k) == Civil(n.year, n.month, k + 1)
  {
    var n := NextMonth(CivilOf(d));
    var t := Civil(n.year, n.month, k + 1);
    NextMonthStart(d);
    assert DayOfCivil(t) == DayOfCivil(n) + k;
    CivilOfDayOfCivil(t);
  }
}

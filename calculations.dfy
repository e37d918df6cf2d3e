/**
 * The earnings and countdown engine: today's, this week's and this month's
 * accrued pay, today's work progress, the hourly rate, and the countdowns to the
 * next payday, the end of the workday, the weekend and the next holiday.
 *
 * The source reads the clock and its module-level holiday state implicitly;
 * here `now` (local milliseconds) and the state `EngineState` are parameters,
 * and the class `Engine` holds the state that `initializeHolidayData` assigns.
 */
module Calculations {
  import opened Wrappers
  import opened JsStrings
  import opened Calendar
  import opened HolidayApi

  /** The user's schedule. Amounts of money are exact reals. */
  datatype Settings = Settings(
    monthlySalary: real,
    workStartTime: string,
    workEndTime: string,
    lunchBreakStart: string,
    lunchBreakEnd: string,
    payDay: int)

  const DefaultSettings := Settings(10000.0, "09:00", "18:00", "12:00", "13:00", 15)

  /** The holiday state the engine reads: `currentHolidayData` and `isHolidayDataLoaded`. */
  datatype EngineState = EngineState(data: HolidayData, loaded: bool)

  /** The label `getTimeUntilNextHoliday` gives a day that is already off. */
  const CurrentHolidayName := "当前假期"

  // ---------------------------------------------------------------------------
  // time strings

  /** `timeStringToMinutes`: `split(':').map(Number)`, then hours * 60 + minutes; None is NaN. */
  function TimeStringToMinutes(t: string): Option<int> {
    ClockMinutes(Split(t, ':'))
  }

  /** The fields of a split time string: the first two as hours and minutes, the rest ignored. */
  function ClockMinutes(parts: seq<string>): Option<int> {
    if |parts| < 2 then None
    else
      match (Number(parts[0]), Number(parts[1]))
      case (Some(h), Some(m)) => Some(h * 60 + m)
      case _ => None
  }

  /**
   * `minutesToTimeString`: `Math.floor(minutes / 60)` and `minutes % 60` (which
   * keeps the dividend's sign in JavaScript), each padded to two digits.
   */
  function MinutesToTimeString(minutes: int): string {
    var hours := minutes / 60;
    var mins := if minutes < 0 && minutes % 60 != 0 then minutes % 60 - 60 else minutes % 60;
    PadStart2(Itoa(hours)) + ":" + PadStart2(Itoa(mins))
  }

  /** Any `H:M` made of decimal digits reads as H * 60 + M. */
  lemma DigitTimeValue(hh: string, mm: string)
    requires AllDigits(hh) && AllDigits(mm)
    ensures TimeStringToMinutes(hh + ":" + mm) == Some(DigitsValue(hh) * 60 + DigitsValue(mm))
  {
    var t := hh + ":" + mm;
    SeparatorNotInDigits(hh, ':');
    SeparatorNotInDigits(mm, ':');
    assert t == hh + [':'] + mm;
    SplitTwo(hh, ':', mm);
    ReadSplitTime(t, hh, mm);
  }

  lemma ReadSplitTime(t: string, hh: string, mm: string)
    requires Split(t, ':') == [hh, mm] && AllDigits(hh) && AllDigits(mm)
    ensures TimeStringToMinutes(t) == Some(DigitsValue(hh) * 60 + DigitsValue(mm))
  {
    ReadClockFields(hh, mm);
  }

  lemma ReadClockFields(hh: string, mm: string)
    requires AllDigits(hh) && AllDigits(mm)
    ensures ClockMinutes([hh, mm]) == Some(DigitsValue(hh) * 60 + DigitsValue(mm))
  {
    var h, m := Number(hh), Number(mm);
    assert h == Some(DigitsValue(hh)) && m == Some(DigitsValue(mm));
  }

  /** Formatting minutes and reading them back gives the same number of minutes. */
  lemma MinutesRoundTrip(m: nat)
    ensures TimeStringToMinutes(MinutesToTimeString(m)) == Some(m)
  {
    var h, r := m / 60, m % 60;
    var hh, mm := PadStart2(Itoa(h)), PadStart2(Itoa(r));
    assert MinutesToTimeString(m) == hh + ":" + mm;
    NumberOfPadded(h);
    NumberOfPadded(r);
    ReadClock(MinutesToTimeString(m), hh, mm, h, r);
    assert h * 60 + r == m;
  }

  /** `HH:MM` whose fields are the digits of `h` and `r` reads as `h * 60 + r`. */
  lemma ReadClock(t: string, hh: string, mm: string, h: nat, r: nat)
    requires t == hh + ":" + mm && AllDigits(hh) && AllDigits(mm)
    requires Number(hh) == Some(h) && Number(mm) == Some(r)
    ensures TimeStringToMinutes(t) == Some(h * 60 + r)
  {
    DigitTimeValue(hh, mm);
  }

  /** Below 100 hours the text has the `HH:MM` shape: two digits, a colon, two digits. */
  lemma MinutesTextShape(m: nat)
    requires m < 6000
    ensures var t := MinutesToTimeString(m);
      |t| == 5 && t[2] == ':' && AllDigits(t[..2]) && AllDigits(t[3..])
  {
    var t := MinutesToTimeString(m);
    var hh, mm := PadStart2(Itoa(m / 60)), PadStart2(Itoa(m % 60));
    assert t == hh + ":" + mm;
    HoursBelow100(m);
    TwoDigitText(m / 60);
    TwoDigitText(m % 60);
    ClockShape(t, hh, mm);
  }

  lemma HoursBelow100(m: nat)
    requires m < 6000
    ensures m / 60 < 100 && m % 60 < 60
  {
  }

  /** A number below 100, padded, is exactly two digits. */
  lemma TwoDigitText(n: nat)
    requires n < 100
    ensures |PadStart2(Itoa(n))| == 2 && AllDigits(PadStart2(Itoa(n)))
  {
    PaddedLength(n);
    NumberOfPadded(n);
  }

  lemma ClockShape(t: string, hh: string, mm: string)
    requires t == hh + ":" + mm && |hh| == 2 && |mm| == 2 && AllDigits(hh) && AllDigits(mm)
    ensures |t| == 5 && t[2] == ':' && AllDigits(t[..2]) && AllDigits(t[3..])
  {
    assert t[..2] == hh && t[3..] == mm;
  }

  // ---------------------------------------------------------------------------
  // the schedule

  /** All four times of the schedule read as numbers (no NaN). */
  predicate Parsed(s: Settings) {
    && TimeStringToMinutes(s.workStartTime).Some?
    && TimeStringToMinutes(s.workEndTime).Some?
    && TimeStringToMinutes(s.lunchBreakStart).Some?
    && TimeStringToMinutes(s.lunchBreakEnd).Some?
  }

  function StartMinutes(s: Settings): int requires Parsed(s) { TimeStringToMinutes(s.workStartTime).value }
  function EndMinutes(s: Settings): int requires Parsed(s) { TimeStringToMinutes(s.workEndTime).value }
  function LunchStartMinutes(s: Settings): int requires Parsed(s) { TimeStringToMinutes(s.lunchBreakStart).value }
  function LunchEndMinutes(s: Settings): int requires Parsed(s) { TimeStringToMinutes(s.lunchBreakEnd).value }

  /** Minutes of work in a day: the working span less the lunch break. */
  function WorkMinutes(s: Settings): int
    requires Parsed(s)
  {
    EndMinutes(s) - StartMinutes(s) - (LunchEndMinutes(s) - LunchStartMinutes(s))
  }

  /** A schedule whose daily work time is not zero, so the ratios are defined. */
  predicate WellFormed(s: Settings) {
    if Parsed(s) then WorkMinutes(s) != 0 else false
  }

  /** The schedule shape the settings form is meant to produce. */
  predicate Ordered(s: Settings) {
    && Parsed(s)
    && 0 <= StartMinutes(s) <= LunchStartMinutes(s) <= LunchEndMinutes(s) <= EndMinutes(s)
    && 0 < WorkMinutes(s)
  }

  /** `timeStringToTimestamp(timeStr, date)`: the given time of day on day `d`. */
  function TimeStringToTimestamp(t: string, d: int): (r: int)
    requires TimeStringToMinutes(t).Some?
    ensures 0 <= TimeStringToMinutes(t).value < 24 * 60 ==> DayOf(r) == d
    ensures 0 <= TimeStringToMinutes(t).value ==> DayStart(d) <= r
  {
    var r := DayStart(d) + TimeStringToMinutes(t).value * MsPerMinute;
    assert 0 <= TimeStringToMinutes(t).value < 24 * 60 ==> DayStart(d) <= r < DayStart(d + 1);
    DayOfUnique(r, d);
    r
  }

  /** An instant within day `d` belongs to day `d`. */
  lemma DayOfUnique(t: int, d: int)
    ensures DayStart(d) <= t < DayStart(d + 1) ==> DayOf(t) == d
  {
    var e := DayOf(t);
    assert e * MsPerDay <= t < e * MsPerDay + MsPerDay;
  }

  // ---------------------------------------------------------------------------
  // the workday rule and a day's four instants

  /** `isWorkday(date)`: the holiday rule once loaded, else the plain weekend rule. */
  predicate IsWorkday(st: EngineState, d: int) {
    if st.loaded then IsWorkdayWithHoliday(d, st.data) else !IsWeekend(d)
  }

  /** Loaded with an empty calendar (a failed fetch) behaves like not loaded. */
  lemma EmptyLoadedIsFallback(d: int)
    ensures IsWorkday(EngineState(map[], true), d) == IsWorkday(EngineState(map[], false), d)
  {
    EmptyCalendarIsWeekendRule(d);
  }

  datatype TimestampRange = TimestampRange(start: int, end: int, lunchStart: int, lunchEnd: int)

  /** `getWorkdayTimestampRange(settings, date)`: absent exactly on non-workdays. */
  function GetWorkdayTimestampRange(st: EngineState, s: Settings, d: int): (r: Option<TimestampRange>)
    requires Parsed(s)
    ensures r.None? <==> !IsWorkday(st, d)
    ensures r.Some? ==> TotalWorkMs(r.value) == WorkMinutes(s) * MsPerMinute
    ensures r.Some? && Ordered(s) ==>
      DayStart(d) <= r.value.start <= r.value.lunchStart <= r.value.lunchEnd <= r.value.end
  {
    if !IsWorkday(st, d) then None
    else
      Some(TimestampRange(
        TimeStringToTimestamp(s.workStartTime, d),
        TimeStringToTimestamp(s.workEndTime, d),
        TimeStringToTimestamp(s.lunchBreakStart, d),
        TimeStringToTimestamp(s.lunchBreakEnd, d)))
  }

  /** `end - start - (lunchEnd - lunchStart)`. */
  function TotalWorkMs(r: TimestampRange): int {
    r.end - r.start - (r.lunchEnd - r.lunchStart)
  }

  /** `workedTime` after the lunch deduction, for an instant at or after the start. */
  function WorkedMs(r: TimestampRange, now: int): int {
    var worked := now - r.start;
    if now > r.lunchEnd then worked - (r.lunchEnd - r.lunchStart)
    else if now > r.lunchStart then worked - (now - r.lunchStart)
    else worked
  }

  /** The length of the overlap of two intervals [a1, a2) and [b1, b2). */
  function Overlap(a1: int, a2: int, b1: int, b2: int): (n: int)
    ensures 0 <= n
    ensures n <= a2 - a1 || a2 < a1
  {
    var lo := if a1 < b1 then b1 else a1;
    var hi := if a2 < b2 then a2 else b2;
    if lo < hi then hi - lo else 0
  }

  /** For an ordered day, the staged deduction is the time since the start spent outside lunch. */
  lemma WorkedMsIsTimeOutsideLunch(r: TimestampRange, now: int)
    requires r.start <= r.lunchStart <= r.lunchEnd && r.start <= now
    ensures WorkedMs(r, now) == (now - r.start) - Overlap(r.start, now, r.lunchStart, r.lunchEnd)
  {
  }

  /** Within an ordered day, worked time lies between 0 and the day's work time. */
  lemma WorkedMsBounds(r: TimestampRange, now: int)
    requires r.start <= r.lunchStart <= r.lunchEnd <= r.end && r.start <= now <= r.end
    ensures 0 <= WorkedMs(r, now) <= TotalWorkMs(r)
  {
  }

  /** Worked time never decreases as the day goes on. */
  lemma WorkedMsMonotone(r: TimestampRange, a: int, b: int)
    requires r.lunchStart <= r.lunchEnd && a <= b
    ensures WorkedMs(r, a) <= WorkedMs(r, b)
  {
  }

  // ---------------------------------------------------------------------------
  // workdays in a month

  /** The number of workdays among days lo .. hi - 1. */
  function CountWorkdays(data: HolidayData, lo: int, hi: int): (n: nat)
    decreases hi - lo
  {
    if hi <= lo then 0
    else CountWorkdays(data, lo, hi - 1) + (if IsWorkdayWithHoliday(hi - 1, data) then 1 else 0)
  }

  lemma {:induction false} CountWorkdaysAtMostDays(data: HolidayData, lo: int, hi: int)
    requires lo <= hi
    ensures CountWorkdays(data, lo, hi) <= hi - lo
    decreases hi - lo
  {
    if lo < hi {
      CountWorkdaysAtMostDays(data, lo, hi - 1);
    }
  }

  /** `getMonthWorkdays(date, holidayData)`: the month's workday count, or 22 when it is zero. */
  function MonthWorkdays(d: int, data: HolidayData): (n: int)
    ensures 1 <= n <= 31
    ensures var count := CountWorkdays(data, MonthStart(d), MonthEnd(d) + 1);
      (n == count <==> 0 < count) && (count == 0 ==> n == 22)
  {
    var count := CountWorkdays(data, MonthStart(d), MonthEnd(d) + 1);
    CountWorkdaysAtMostDays(data, MonthStart(d), MonthEnd(d) + 1);
    if count == 0 then 22 else count
  }

  /** `getMonthWorkdays(date, holidayData)`: the count over `d`'s month, with 22 in place of none. */
  method GetMonthWorkdays(d: int, data: HolidayData) returns (workdays: int)
    ensures workdays == MonthWorkdays(d, data)
  {
    var monthStart := MonthStart(d);
    var monthEnd := MonthEnd(d);
    workdays := CountWorkdaysFrom(data, monthStart, monthEnd);
    if workdays == 0 {
      workdays := 22;
    }
  }

  /** The loop of `getMonthWorkdays`, stepping one day at a time from `monthStart` to `monthEnd`. */
  method CountWorkdaysFrom(data: HolidayData, monthStart: int, monthEnd: int) returns (workdays: int)
    requires monthStart <= monthEnd + 1
    ensures workdays == CountWorkdays(data, monthStart, monthEnd + 1)
  {
    workdays := 0;
    var day := monthStart;
    while day <= monthEnd
      invariant monthStart <= day <= monthEnd + 1
      invariant workdays == CountWorkdays(data, monthStart, day)
    {
      if IsWorkdayWithHoliday(day, data) {
        workdays := workdays + 1;
      }
      day := day + 1;
    }
  }

  /** `monthlySalary / workdays` for the month of day `d`. */
  function DailySalary(data: HolidayData, s: Settings, d: int): real {
    s.monthlySalary / (MonthWorkdays(d, data) as real)
  }

  /** `settings.monthlySalary / getMonthWorkdays(date, holidayData)`, as the engine computes it. */
  method GetDailySalary(data: HolidayData, s: Settings, d: int) returns (dailySalary: real)
    ensures dailySalary == DailySalary(data, s, d)
  {
    var workdays := GetMonthWorkdays(d, data);
    dailySalary := s.monthlySalary / (workdays as real);
  }

  // ---------------------------------------------------------------------------
  // today's earnings and progress

  /** `Math.max(0, x)`. */
  function Max0(x: real): real {
    if x < 0.0 then 0.0 else x
  }

  /** `Math.min(100, x)`. */
  function Min100(x: real): real {
    if x > 100.0 then 100.0 else x
  }

  /** The worked fraction of the day at `now`, clamped below at 0. */
  function WorkedShare(r: TimestampRange, now: int): real
    requires TotalWorkMs(r) != 0
  {
    Max0((WorkedMs(r, now) as real) / (TotalWorkMs(r) as real))
  }

  /** Today's pay at `now` given the day's pay and its four instants. */
  function ProratedPay(daily: real, r: TimestampRange, now: int): real
    requires TotalWorkMs(r) != 0
  {
    if now < r.start then 0.0
    else if now >= r.end then daily
    else daily * WorkedShare(r, now)
  }

  /** `getTodayEarningsWithTimestamp` as a function of the state and `now`. */
  function TodayEarnings(st: EngineState, s: Settings, now: int): real
    requires WellFormed(s)
  {
    var today := DayOf(now);
    var range := GetWorkdayTimestampRange(st, s, today);
    if !IsWorkday(st, today) || range.None? then 0.0
    else ProratedPay(DailySalary(st.data, s, today), range.value, now)
  }

  /** `getTodayEarningsWithTimestamp(settings)`. */
  method GetTodayEarningsWithTimestamp(st: EngineState, s: Settings, now: int) returns (earnings: real)
    requires WellFormed(s)
    ensures earnings == TodayEarnings(st, s, now)
  {
    var today := DayOf(now);
    var workdayRange := GetWorkdayTimestampRange(st, s, today);
    if !IsWorkday(st, today) || workdayRange.None? {
      return 0.0;
    }
    var dailySalary := GetDailySalary(st.data, s, today);
    earnings := Prorate(dailySalary, workdayRange.value, now);
  }

  /** The part of `getTodayEarningsWithTimestamp` after the workday check, with its staged `workedTime` updates. */
  method Prorate(dailySalary: real, range: TimestampRange, now: int) returns (earnings: real)
    requires TotalWorkMs(range) != 0
    ensures earnings == ProratedPay(dailySalary, range, now)
  {
    if now < range.start {
      return 0.0;
    }
    if now >= range.end {
      return dailySalary;
    }
    var workedTime := now - range.start;
    if now > range.lunchEnd {
      workedTime := workedTime - (range.lunchEnd - range.lunchStart);
    } else if now > range.lunchStart {
      workedTime := workedTime - (now - range.lunchStart);
    }
    var totalWorkTime := range.end - range.start - (range.lunchEnd - range.lunchStart);
    var timeRatio := (workedTime as real) / (totalWorkTime as real);
    return dailySalary * Max0(timeRatio);
  }

  /** The percentage of the day's work done at `now`, clamped to 0 .. 100. */
  function WorkProgress(r: TimestampRange, now: int): (p: real)
    requires TotalWorkMs(r) != 0
    ensures 0.0 <= p <= 100.0
  {
    if now < r.start then 0.0
    else if now >= r.end then 100.0
    else Max0(Min100((WorkedMs(r, now) as real) / (TotalWorkMs(r) as real) * 100.0))
  }

  /** `getTodayWorkProgress` as a function of the state and `now`: a percentage. */
  function TodayProgress(st: EngineState, s: Settings, now: int): (p: real)
    requires WellFormed(s)
    ensures 0.0 <= p <= 100.0
    ensures !IsWorkday(st, DayOf(now)) ==> p == 0.0
  {
    var today := DayOf(now);
    var range := GetWorkdayTimestampRange(st, s, today);
    if !IsWorkday(st, today) || range.None? then 0.0 else WorkProgress(range.value, now)
  }

  /** `getTodayWorkProgress(settings)`. */
  method GetTodayWorkProgress(st: EngineState, s: Settings, now: int) returns (progress: real)
    requires WellFormed(s)
    ensures progress == TodayProgress(st, s, now)
    ensures 0.0 <= progress <= 100.0
  {
    var today := DayOf(now);
    var workdayRange := GetWorkdayTimestampRange(st, s, today);
    if !IsWorkday(st, today) || workdayRange.None? {
      return 0.0;
    }
    progress := ProgressAt(workdayRange.value, now);
  }

  /** The part of `getTodayWorkProgress` after the workday check, with its staged `workedTime` updates. */
  method ProgressAt(range: TimestampRange, now: int) returns (progress: real)
    requires TotalWorkMs(range) != 0
    ensures progress == WorkProgress(range, now)
    ensures 0.0 <= progress <= 100.0
  {
    if now < range.start {
      return 0.0;
    }
    if now >= range.end {
      return 100.0;
    }
    var workedTime := now - range.start;
    if now > range.lunchEnd {
      workedTime := workedTime - (range.lunchEnd - range.lunchStart);
    } else if now > range.lunchStart {
      workedTime := workedTime - (now - range.lunchStart);
    }
    var totalWorkTime := range.end - range.start - (range.lunchEnd - range.lunchStart);
    var timeRatio := (workedTime as real) / (totalWorkTime as real);
    return Max0(Min100(timeRatio * 100.0));
  }

  /** A day whose instants come in the order the settings form intends. */
  predicate OrderedRange(r: TimestampRange) {
    r.start <= r.lunchStart <= r.lunchEnd <= r.end && 0 < TotalWorkMs(r)
  }

  lemma RatioBounds(w: int, t: int)
    requires 0 <= w <= t && 0 < t
    ensures 0.0 <= (w as real) / (t as real) <= 1.0
  {
  }

  lemma RatioMonotone(v: int, w: int, t: int)
    requires v <= w && 0 < t
    ensures (v as real) / (t as real) <= (w as real) / (t as real)
  {
  }

  lemma ScaleMonotone(a: real, x: real, y: real)
    requires 0.0 <= a && x <= y
    ensures a * x <= a * y
  {
  }

  lemma ScaleBounded(a: real, x: real)
    requires 0.0 <= a && 0.0 <= x <= 1.0
    ensures 0.0 <= a * x <= a
  {
  }

  /** Inside an ordered day the worked fraction lies in [0, 1] and is not clamped. */
  lemma WorkedShareInside(r: TimestampRange, now: int)
    requires OrderedRange(r) && r.start <= now < r.end
    ensures WorkedShare(r, now) == (WorkedMs(r, now) as real) / (TotalWorkMs(r) as real)
    ensures 0.0 <= WorkedShare(r, now) <= 1.0
  {
    WorkedMsBounds(r, now);
    RatioBounds(WorkedMs(r, now), TotalWorkMs(r));
  }

  /** Today's pay never goes below 0 nor above the day's pay. */
  lemma ProratedPayBounds(daily: real, r: TimestampRange, now: int)
    requires 0.0 <= daily && OrderedRange(r)
    ensures 0.0 <= ProratedPay(daily, r, now) <= daily
  {
    if r.start <= now < r.end {
      WorkedShareInside(r, now);
      ScaleBounded(daily, WorkedShare(r, now));
      assert ProratedPay(daily, r, now) == daily * WorkedShare(r, now);
      assert daily * WorkedShare(r, now) <= daily;
    } else {
      assert ProratedPay(daily, r, now) == if now < r.start then 0.0 else daily;
    }
  }

  /** `Math.max(0, …)` keeps the prorated pay non-negative for any four instants with a non-zero work time. */
  lemma ProratedPayNonNegative(daily: real, r: TimestampRange, now: int)
    requires 0.0 <= daily && TotalWorkMs(r) != 0
    ensures 0.0 <= ProratedPay(daily, r, now)
  {
    if r.start <= now < r.end {
      ScaleNonNegative(daily, WorkedShare(r, now));
    }
  }

  lemma ScaleNonNegative(a: real, x: real)
    requires 0.0 <= a && 0.0 <= x
    ensures 0.0 <= a * x
  {
  }

  /** Today's pay never decreases as the day goes on. */
  lemma ProratedPayMonotone(daily: real, r: TimestampRange, a: int, b: int)
    requires 0.0 <= daily && OrderedRange(r) && a <= b
    ensures ProratedPay(daily, r, a) <= ProratedPay(daily, r, b)
  {
    ProratedPayBounds(daily, r, a);
    ProratedPayBounds(daily, r, b);
    if r.start <= a && b < r.end {
      WorkedShareInside(r, a);
      WorkedShareInside(r, b);
      WorkedMsMonotone(r, a, b);
      RatioMonotone(WorkedMs(r, a), WorkedMs(r, b), TotalWorkMs(r));
      ScaleMonotone(daily, WorkedShare(r, a), WorkedShare(r, b));
    }
  }

  /** Today's pay is the day's pay scaled by the progress percentage. */
  lemma ProratedPayIsProgressShare(daily: real, r: TimestampRange, now: int)
    requires OrderedRange(r)
    ensures ProratedPay(daily, r, now) == daily * WorkProgress(r, now) / 100.0
  {
    if r.start <= now < r.end {
      WorkedShareInside(r, now);
      var x := WorkedShare(r, now);
      assert WorkProgress(r, now) == x * 100.0;
      assert daily * (x * 100.0) / 100.0 == daily * x;
    }
  }

  /** The progress percentage never decreases as the day goes on. */
  lemma WorkProgressMonotone(r: TimestampRange, a: int, b: int)
    requires OrderedRange(r) && a <= b
    ensures WorkProgress(r, a) <= WorkProgress(r, b)
  {
    if r.start <= a && b < r.end {
      WorkedShareInside(r, a);
      WorkedShareInside(r, b);
      WorkedMsMonotone(r, a, b);
      RatioMonotone(WorkedMs(r, a), WorkedMs(r, b), TotalWorkMs(r));
    } else if r.start <= a < r.end {
      WorkedShareInside(r, a);
    } else if r.start <= b < r.end {
      WorkedShareInside(r, b);
    }
  }

  /**
   * 09:00 to 18:00 with lunch from 12:00 to 13:00, on any day: at 13:30 three and a
   * half of the eight working hours are done, so a day's pay of 1000 has accrued 437.5.
   */
  lemma HalfPastOneScenario(d: int, daily: real)
    ensures var r := TimestampRange(DayStart(d) + 9 * MsPerHour, DayStart(d) + 18 * MsPerHour,
                                    DayStart(d) + 12 * MsPerHour, DayStart(d) + 13 * MsPerHour);
      var now := DayStart(d) + 13 * MsPerHour + 30 * MsPerMinute;
      WorkedMs(r, now) == 3 * MsPerHour + 30 * MsPerMinute && TotalWorkMs(r) == 8 * MsPerHour &&
      WorkProgress(r, now) == 43.75 && ProratedPay(daily, r, now) == daily * 0.4375
  {
    var r := TimestampRange(DayStart(d) + 9 * MsPerHour, DayStart(d) + 18 * MsPerHour,
                            DayStart(d) + 12 * MsPerHour, DayStart(d) + 13 * MsPerHour);
    var now := DayStart(d) + 13 * MsPerHour + 30 * MsPerMinute;
    assert WorkedMs(r, now) == 12600000;
    assert TotalWorkMs(r) == 28800000;
    assert (12600000 as real) / (28800000 as real) == 0.4375;
  }

  /** The default schedule reads as 540, 1080, 720 and 780 minutes. */
  lemma DefaultScheduleMinutes()
    ensures Parsed(DefaultSettings) && Ordered(DefaultSettings)
    ensures StartMinutes(DefaultSettings) == 540 && EndMinutes(DefaultSettings) == 1080
    ensures LunchStartMinutes(DefaultSettings) == 720 && LunchEndMinutes(DefaultSettings) == 780
  {
    DigitPairTime('0', '9', '0', '0');
    DigitPairTime('1', '8', '0', '0');
    DigitPairTime('1', '2', '0', '0');
    DigitPairTime('1', '3', '0', '0');
  }

  lemma DigitPairTime(h1: char, h2: char, m1: char, m2: char)
    requires IsDigit(h1) && IsDigit(h2) && IsDigit(m1) && IsDigit(m2)
    ensures TimeStringToMinutes([h1, h2, ':', m1, m2]) ==
      Some((DigitValue(h1) * 10 + DigitValue(h2)) * 60 + DigitValue(m1) * 10 + DigitValue(m2))
  {
    var hh, mm := [h1, h2], [m1, m2];
    assert [h1, h2, ':', m1, m2] == hh + ":" + mm;
    TwoDigitsValue(h1, h2);
    TwoDigitsValue(m1, m2);
    DigitTimeValue(hh, mm);
  }

  lemma TwoDigitsValue(a: char, b: char)
    requires IsDigit(a) && IsDigit(b)
    ensures AllDigits([a, b]) && DigitsValue([a, b]) == DigitValue(a) * 10 + DigitValue(b)
  {
    assert [a][..0] == [];
    assert DigitsValue([a]) == DigitValue(a);
    assert [a, b][..1] == [a];
    assert DigitsValue([a, b]) == DigitsValue([a]) * 10 + DigitValue(b);
  }

  /** Lifted to the engine: today's pay is between 0 and the daily salary. */
  lemma TodayEarningsBounds(st: EngineState, s: Settings, now: int)
    requires Ordered(s) && 0.0 <= s.monthlySalary
    ensures 0.0 <= TodayEarnings(st, s, now) <= DailySalary(st.data, s, DayOf(now))
  {
    var today := DayOf(now);
    DailySalaryNonNegative(st.data, s, today);
    var range := GetWorkdayTimestampRange(st, s, today);
    if range.Some? {
      ProratedPayBounds(DailySalary(st.data, s, today), range.value, now);
    }
  }

  /** Lifted to the engine: today's pay is never negative, whatever the order of the schedule's times. */
  lemma TodayEarningsNonNegative(st: EngineState, s: Settings, now: int)
    requires WellFormed(s) && 0.0 <= s.monthlySalary
    ensures 0.0 <= TodayEarnings(st, s, now)
  {
    var today := DayOf(now);
    DailySalaryNonNegative(st.data, s, today);
    var range := GetWorkdayTimestampRange(st, s, today);
    if range.Some? {
      ProratedPayNonNegative(DailySalary(st.data, s, today), range.value, now);
    }
  }

  lemma DailySalaryNonNegative(data: HolidayData, s: Settings, d: int)
    requires 0.0 <= s.monthlySalary
    ensures 0.0 <= DailySalary(data, s, d)
  {
    ShareNonNegative(s.monthlySalary, MonthWorkdays(d, data));
  }

  lemma ShareNonNegative(amount: real, parts: int)
    requires 0.0 <= amount && 1 <= parts
    ensures 0.0 <= amount / (parts as real)
  {
  }

  /** Lifted to the engine: within one day, today's pay and progress never decrease. */
  lemma TodayMonotone(st: EngineState, s: Settings, a: int, b: int)
    requires Ordered(s) && 0.0 <= s.monthlySalary && a <= b && DayOf(a) == DayOf(b)
    ensures TodayEarnings(st, s, a) <= TodayEarnings(st, s, b)
    ensures TodayProgress(st, s, a) <= TodayProgress(st, s, b)
  {
    var today := DayOf(a);
    DailySalaryNonNegative(st.data, s, today);
    var range := GetWorkdayTimestampRange(st, s, today);
    if range.Some? {
      ProratedPayMonotone(DailySalary(st.data, s, today), range.value, a, b);
      WorkProgressMonotone(range.value, a, b);
    }
  }

  /** Lifted to the engine: on a workday, today's pay is the daily salary prorated over the day's range. */
  lemma TodayIsProrated(st: EngineState, s: Settings, now: int)
    requires WellFormed(s)
    ensures !IsWorkday(st, DayOf(now)) ==> TodayEarnings(st, s, now) == 0.0 && TodayProgress(st, s, now) == 0.0
    ensures IsWorkday(st, DayOf(now)) ==>
      var range := GetWorkdayTimestampRange(st, s, DayOf(now)).value;
      TodayEarnings(st, s, now) == ProratedPay(DailySalary(st.data, s, DayOf(now)), range, now) &&
      TodayProgress(st, s, now) == WorkProgress(range, now)
  {
  }

  // ---------------------------------------------------------------------------
  // week and month earnings

  /** What day `d` adds to a week or month total at `now`. */
  function DayContribution(st: EngineState, s: Settings, now: int, d: int): real
    requires WellFormed(s)
  {
    if DayStart(d) <= now && IsWorkday(st, d) then
      (if d == DayOf(now) then TodayEarnings(st, s, now) else DailySalary(st.data, s, DayOf(now)))
    else 0.0
  }

  /** The total over days lo .. hi - 1. */
  function EarnedBetween(st: EngineState, s: Settings, now: int, lo: int, hi: int): real
    requires WellFormed(s)
    decreases hi - lo
  {
    if hi <= lo then 0.0 else EarnedBetween(st, s, now, lo, hi - 1) + DayContribution(st, s, now, hi - 1)
  }

  /** The number of days among lo .. hi - 1 that have begun by `now` and are workdays. */
  function CountEarningDays(st: EngineState, now: int, lo: int, hi: int): (n: nat)
    decreases hi - lo
  {
    if hi <= lo then 0
    else CountEarningDays(st, now, lo, hi - 1) + (if DayStart(hi - 1) <= now && IsWorkday(st, hi - 1) then 1 else 0)
  }

  /** The shared loop of `getWeekEarnings` and `getMonthEarnings` over days first .. last (never an empty range there). */
  method SumEarnings(st: EngineState, s: Settings, now: int, first: int, last: int) returns (totalEarnings: real)
    requires WellFormed(s) && first <= last + 1
    ensures totalEarnings == EarnedBetween(st, s, now, first, last + 1)
  {
    var dailySalary := GetDailySalary(st.data, s, DayOf(now));
    totalEarnings := SumDays(st, s, now, first, last, dailySalary);
  }

  /** The loop itself, given the day's pay computed before it. */
  method SumDays(st: EngineState, s: Settings, now: int, first: int, last: int, dailySalary: real) returns (totalEarnings: real)
    requires WellFormed(s) && first <= last + 1 && dailySalary == DailySalary(st.data, s, DayOf(now))
    ensures totalEarnings == EarnedBetween(st, s, now, first, last + 1)
  {
    totalEarnings := 0.0;
    assert EarnedBetween(st, s, now, first, first) == totalEarnings;
    for d := first to last + 1
      invariant totalEarnings == EarnedBetween(st, s, now, first, d)
    {
      totalEarnings := AddDay(st, s, now, first, d, totalEarnings, dailySalary);
    }
  }

  /** The body of that loop: `totalEarnings += …` for day `d`. */
  method AddDay(st: EngineState, s: Settings, now: int, first: int, d: int, totalEarnings: real, dailySalary: real)
    returns (newTotal: real)
    requires WellFormed(s) && first <= d && dailySalary == DailySalary(st.data, s, DayOf(now))
    requires totalEarnings == EarnedBetween(st, s, now, first, d)
    ensures newTotal == EarnedBetween(st, s, now, first, d + 1)
  {
    var earned := EarnedOn(st, s, now, d, dailySalary);
    EarnedBetweenStep(st, s, now, first, d);
    newTotal := totalEarnings + earned;
  }

  lemma EarnedBetweenStep(st: EngineState, s: Settings, now: int, lo: int, hi: int)
    requires WellFormed(s) && lo <= hi
    ensures EarnedBetween(st, s, now, lo, hi + 1) == EarnedBetween(st, s, now, lo, hi) + DayContribution(st, s, now, hi)
  {
  }

  /** One turn of that loop: what day `d` adds. */
  method EarnedOn(st: EngineState, s: Settings, now: int, d: int, dailySalary: real) returns (earned: real)
    requires WellFormed(s) && dailySalary == DailySalary(st.data, s, DayOf(now))
    ensures earned == DayContribution(st, s, now, d)
  {
    earned := 0.0;
    if DayStart(d) <= now && IsWorkday(st, d) {
      if d == DayOf(now) {
        earned := GetTodayEarningsWithTimestamp(st, s, now);
      } else {
        earned := dailySalary;
      }
    }
  }

  /** `getWeekEarnings(settings)`: the week from Monday to Sunday around `now`. */
  method GetWeekEarnings(st: EngineState, s: Settings, now: int) returns (total: real)
    requires WellFormed(s)
    ensures total == EarnedBetween(st, s, now, WeekStart(DayOf(now)), WeekEnd(DayOf(now)) + 1)
  {
    total := SumEarnings(st, s, now, WeekStart(DayOf(now)), WeekEnd(DayOf(now)));
  }

  /** `getMonthEarnings(settings)`: the calendar month around `now`. */
  method GetMonthEarnings(st: EngineState, s: Settings, now: int) returns (total: real)
    requires WellFormed(s)
    ensures total == EarnedBetween(st, s, now, MonthStart(DayOf(now)), MonthEnd(DayOf(now)) + 1)
  {
    total := SumEarnings(st, s, now, MonthStart(DayOf(now)), MonthEnd(DayOf(now)));
  }

  /** Each day adds between 0 and the daily salary. */
  lemma DayContributionBounds(st: EngineState, s: Settings, now: int, d: int)
    requires Ordered(s) && 0.0 <= s.monthlySalary
    ensures 0.0 <= DayContribution(st, s, now, d) <= DailySalary(st.data, s, DayOf(now))
    ensures DayContribution(st, s, now, d) != 0.0 ==> DayStart(d) <= now && IsWorkday(st, d)
  {
    DailySalaryNonNegative(st.data, s, DayOf(now));
    if d == DayOf(now) {
      TodayEarningsBounds(st, s, now);
    }
  }

  /** Each day adds at least 0, whatever the order of the schedule's times. */
  lemma DayContributionNonNegative(st: EngineState, s: Settings, now: int, d: int)
    requires WellFormed(s) && 0.0 <= s.monthlySalary
    ensures 0.0 <= DayContribution(st, s, now, d)
  {
    DailySalaryNonNegative(st.data, s, DayOf(now));
    TodayEarningsNonNegative(st, s, now);
  }

  /** The pay for `days` full days at `daily` each. */
  function DaysPay(days: nat, daily: real): (r: real)
    ensures 0.0 <= daily ==> 0.0 <= r
  {
    days as real * daily
  }

  /** A total lies between 0 and the daily salary times the number of days that have begun and are workdays. */
  lemma {:induction false} EarnedBetweenBounds(st: EngineState, s: Settings, now: int, lo: int, hi: int)
    requires Ordered(s) && 0.0 <= s.monthlySalary
    ensures 0.0 <= EarnedBetween(st, s, now, lo, hi)
    ensures EarnedBetween(st, s, now, lo, hi) <= DaysPay(CountEarningDays(st, now, lo, hi), DailySalary(st.data, s, DayOf(now)))
    decreases hi - lo
  {
    if lo < hi {
      EarnedBetweenBounds(st, s, now, lo, hi - 1);
      DayContributionBounds(st, s, now, hi - 1);
      AccumulateBound(EarnedBetween(st, s, now, lo, hi - 1), CountEarningDays(st, now, lo, hi - 1),
        CountEarningDays(st, now, lo, hi), DayContribution(st, s, now, hi - 1), DailySalary(st.data, s, DayOf(now)));
    } else {
      DailySalaryNonNegative(st.data, s, DayOf(now));
    }
  }

  /** A total is never negative, whatever the order of the schedule's times. */
  lemma {:induction false} EarnedBetweenNonNegative(st: EngineState, s: Settings, now: int, lo: int, hi: int)
    requires WellFormed(s) && 0.0 <= s.monthlySalary
    ensures 0.0 <= EarnedBetween(st, s, now, lo, hi)
    decreases hi - lo
  {
    if lo < hi {
      EarnedBetweenNonNegative(st, s, now, lo, hi - 1);
      DayContributionNonNegative(st, s, now, hi - 1);
    }
  }

  /** The arithmetic step of the bound: a partial sum plus a term that is 0, or at most one more daily salary when the count grows. */
  lemma AccumulateBound(prev: real, c: nat, n: nat, x: real, daily: real)
    requires 0.0 <= prev <= DaysPay(c, daily) && 0.0 <= x <= daily
    requires n == c + 1 || (n == c && x == 0.0)
    ensures 0.0 <= prev + x <= DaysPay(n, daily)
  {
  }

  /** Days that have not begun add nothing: a total stops at today. */
  lemma {:induction false} EarnedBetweenStopsAtToday(st: EngineState, s: Settings, now: int, lo: int, hi: int)
    requires WellFormed(s) && lo <= DayOf(now) + 1 <= hi
    ensures EarnedBetween(st, s, now, lo, hi) == EarnedBetween(st, s, now, lo, DayOf(now) + 1)
    decreases hi - lo
  {
    if hi > DayOf(now) + 1 {
      FutureDayEarnsNothing(st, s, now, lo, hi);
      EarnedBetweenStopsAtToday(st, s, now, lo, hi - 1);
    }
  }

  /** A last day after today adds nothing yet. */
  lemma FutureDayEarnsNothing(st: EngineState, s: Settings, now: int, lo: int, hi: int)
    requires WellFormed(s) && lo <= DayOf(now) + 1 < hi
    ensures DayContribution(st, s, now, hi - 1) == 0.0
    ensures EarnedBetween(st, s, now, lo, hi) == EarnedBetween(st, s, now, lo, hi - 1)
  {
    LaterMidnight(now, hi - 1);
  }

  /** More full days pay no less. */
  lemma DaysPayMonotone(a: nat, b: nat, daily: real)
    requires a <= b && 0.0 <= daily
    ensures DaysPay(a, daily) <= DaysPay(b, daily)
  {
    ScaleMonotone(daily, a as real, b as real);
  }

  /** The week total ignores the days after today and is at most seven daily salaries. */
  lemma WeekEarningsBounds(st: EngineState, s: Settings, now: int)
    requires Ordered(s) && 0.0 <= s.monthlySalary
    ensures var w := WeekStart(DayOf(now));
      EarnedBetween(st, s, now, w, WeekEnd(DayOf(now)) + 1) == EarnedBetween(st, s, now, w, DayOf(now) + 1)
    ensures var w := WeekStart(DayOf(now));
      EarnedBetween(st, s, now, w, WeekEnd(DayOf(now)) + 1) <= DaysPay(7, DailySalary(st.data, s, DayOf(now)))
  {
    var today := DayOf(now);
    WindowAroundToday(st, s, now, WeekStart(today), WeekEnd(today) + 1);
  }

  /** A window of at most seven days that holds today earns what it earned up to today, and at most seven days' pay. */
  lemma WindowAroundToday(st: EngineState, s: Settings, now: int, lo: int, hi: int)
    requires Ordered(s) && 0.0 <= s.monthlySalary
    requires lo <= DayOf(now) < hi && hi - lo <= 7
    ensures EarnedBetween(st, s, now, lo, hi) == EarnedBetween(st, s, now, lo, DayOf(now) + 1)
    ensures EarnedBetween(st, s, now, lo, hi) <= DaysPay(7, DailySalary(st.data, s, DayOf(now)))
  {
    var today := DayOf(now);
    EarnedBetweenStopsAtToday(st, s, now, lo, hi);
    EarnedBetweenBounds(st, s, now, lo, hi);
    CountEarningDaysAtMostDays(st, now, lo, hi);
    DailySalaryNonNegative(st.data, s, today);
    DaysPayMonotone(CountEarningDays(st, now, lo, hi), 7, DailySalary(st.data, s, today));
  }

  lemma {:induction false} CountEarningDaysAtMostDays(st: EngineState, now: int, lo: int, hi: int)
    requires lo <= hi
    ensures CountEarningDays(st, now, lo, hi) <= hi - lo
    decreases hi - lo
  {
    if lo < hi {
      CountEarningDaysAtMostDays(st, now, lo, hi - 1);
    }
  }

  /** Days that earn are a subset of the month's workdays when the engine and the month count share one rule. */
  lemma {:induction false} EarningDaysAtMostWorkdays(st: EngineState, now: int, lo: int, hi: int)
    requires st.loaded || st.data == map[]
    ensures CountEarningDays(st, now, lo, hi) <= CountWorkdays(st.data, lo, hi)
    decreases hi - lo
  {
    if lo < hi {
      EarningDaysAtMostWorkdays(st, now, lo, hi - 1);
      EmptyCalendarIsWeekendRule(hi - 1);
    }
  }

  /** Paying some of a month's workdays in full adds up to at most the monthly salary, all of them to exactly it. */
  lemma PartMonthPay(earning: nat, workdays: nat, salary: real)
    requires earning <= workdays && 0 < workdays && 0.0 <= salary
    ensures DaysPay(earning, salary / (workdays as real)) <= salary
    ensures DaysPay(workdays, salary / (workdays as real)) == salary
  {
    DaysPayMonotone(earning, workdays, salary / (workdays as real));
  }

  /**
   * The month total never exceeds the monthly salary, as long as the engine's
   * workday rule is the one the month's workday count uses (always so in the
   * engine, whose calendar is empty until it is loaded).
   */
  lemma MonthEarningsAtMostSalary(st: EngineState, s: Settings, now: int)
    requires Ordered(s) && 0.0 <= s.monthlySalary
    requires st.loaded || st.data == map[]
    ensures var today := DayOf(now);
      0.0 <= EarnedBetween(st, s, now, MonthStart(today), MonthEnd(today) + 1) <= s.monthlySalary
  {
    var today := DayOf(now);
    var lo, hi := MonthStart(today), MonthEnd(today) + 1;
    EarnedBetweenBounds(st, s, now, lo, hi);
    EarningDaysAtMostWorkdays(st, now, lo, hi);
    DaysPayWithinSalary(st.data, s, today, CountEarningDays(st, now, lo, hi));
  }

  /** The month total is never negative, whatever the order of the schedule's times. */
  lemma MonthEarningsNonNegative(st: EngineState, s: Settings, now: int)
    requires WellFormed(s) && 0.0 <= s.monthlySalary
    ensures var today := DayOf(now); 0.0 <= EarnedBetween(st, s, now, MonthStart(today), MonthEnd(today) + 1)
  {
    var today := DayOf(now);
    EarnedBetweenNonNegative(st, s, now, MonthStart(today), MonthEnd(today) + 1);
  }

  /** At most the month's workdays, each paid a daily salary, stay within the monthly salary. */
  lemma DaysPayWithinSalary(data: HolidayData, s: Settings, d: int, earning: nat)
    requires 0.0 <= s.monthlySalary
    requires earning <= CountWorkdays(data, MonthStart(d), MonthEnd(d) + 1)
    ensures DaysPay(earning, DailySalary(data, s, d)) <= s.monthlySalary
  {
    var daily := DailySalary(data, s, d);
    if earning == 0 {
      assert DaysPay(earning, daily) == 0.0;
    } else {
      var workdays := MonthWorkdays(d, data);
      assert daily == s.monthlySalary / (workdays as real);
      PartMonthPay(earning, workdays, s.monthlySalary);
    }
  }

  // ---------------------------------------------------------------------------
  // countdowns

  /** `getNextPayday(settings)`: midnight of this month's pay day, or of the next month's once it has passed. */
  function GetNextPayday(s: Settings, now: int): (r: int)
  {
    var c := CivilOf(DayOf(now));
    var candidate := MakeDay(c.year, c.month - 1, s.payDay);
    if DayStart(candidate) <= now then DayStart(AddOneMonth(candidate)) else DayStart(candidate)
  }

  /** The day on which pay falls in `today`'s month, `new Date(year, month, payDay)`: day `payDay` counted from the first. */
  lemma PaydayCandidate(today: int, payDay: int)
    ensures var c := CivilOf(today); MakeDay(c.year, c.month - 1, payDay) == MonthStart(today) + payDay - 1
  {
    var c := CivilOf(today);
    MakeDayInRange(Civil(c.year, c.month, payDay));
  }

  /** Midnight of a later day is after every instant of today. */
  lemma LaterMidnight(now: int, d: int)
    requires DayOf(now) < d
    ensures now < DayStart(d) && DayOf(DayStart(d)) == d
  {
    DayOfUnique(DayStart(d), d);
  }

  /**
   * `getNextPayday`, for a pay day of 1 to 31: a midnight after `now`, and no day
   * in between falls on the pay day; when every month has that day (1 to 28) the
   * result falls on it.
   */
  lemma NextPaydayIsNext(s: Settings, now: int)
    requires 1 <= s.payDay <= 31
    ensures var r := GetNextPayday(s, now); now < r && r == DayStart(DayOf(r))
    ensures s.payDay <= 28 ==> CivilOf(DayOf(GetNextPayday(s, now))).day == s.payDay
    ensures NoPaydayBetween(DayOf(now), DayOf(GetNextPayday(s, now)), s.payDay)
  {
    NextPaydayByDay(s, now);
    PaydayAfterToday(now, DayOf(now), s.payDay, GetNextPayday(s, now));
  }

  /** The midnight `r` of this month's pay day `k`, or of the one a month on when `k` has come, is the next pay day. */
  lemma PaydayAfterToday(now: int, today: int, p: int, r: int)
    requires 1 <= p <= 31 && today == DayOf(now)
    requires var k := MonthStart(today) + p - 1; r == DayStart(if k <= today then AddOneMonth(k) else k)
    ensures now < r && r == DayStart(DayOf(r))
    ensures p <= 28 ==> CivilOf(DayOf(r)).day == p
    ensures NoPaydayBetween(today, DayOf(r), p)
  {
    var k := MonthStart(today) + p - 1;
    if k <= today {
      PaydayAdvances(today, p);
      PaydayMidnight(now, AddOneMonth(k), p);
    } else {
      PaydayThisMonth(today, p);
      PaydayMidnight(now, k, p);
    }
  }

  /** `getNextPayday` in days: midnight of this month's pay day, or of the one a month on when that has come. */
  lemma NextPaydayByDay(s: Settings, now: int)
    ensures var k := MonthStart(DayOf(now)) + s.payDay - 1;
      GetNextPayday(s, now) == DayStart(if k <= DayOf(now) then AddOneMonth(k) else k)
  {
    var c := CivilOf(DayOf(now));
    PaydayChoice(now, DayOf(now), s.payDay, MakeDay(c.year, c.month - 1, s.payDay), GetNextPayday(s, now));
  }

  /** Comparing the candidate's midnight with `now` is comparing the candidate with today. */
  lemma PaydayChoice(now: int, today: int, p: int, candidate: int, r: int)
    requires today == DayOf(now)
    requires var c := CivilOf(today); candidate == MakeDay(c.year, c.month - 1, p)
    requires r == if DayStart(candidate) <= now then DayStart(AddOneMonth(candidate)) else DayStart(candidate)
    ensures var k := MonthStart(today) + p - 1; r == DayStart(if k <= today then AddOneMonth(k) else k)
  {
    PaydayCandidate(today, p);
    MidnightOrder(now, candidate);
  }

  /** Midnight of day `k` has come by `now` exactly when `k` is today or earlier. */
  lemma MidnightOrder(now: int, k: int)
    ensures DayStart(k) <= now <==> k <= DayOf(now)
  {
  }

  /** Midnight of a later day that falls on the pay day (when every month has it). */
  lemma PaydayMidnight(now: int, d: int, p: int)
    requires DayOf(now) < d && (p <= 28 ==> CivilOf(d).day == p)
    ensures var r := DayStart(d);
      now < r && r == DayStart(DayOf(r)) && (p <= 28 ==> CivilOf(DayOf(r)).day == p)
  {
    LaterMidnight(now, d);
  }

  /** No day strictly between `lo` and `hi` is day `p` of its month. */
  predicate NoPaydayBetween(lo: int, hi: int, p: int) {
    forall e | lo < e < hi :: CivilOf(e).day != p
  }

  /** The day of next month that `addMonths` lands on from day `p`: `p`, or the month's last day when it is shorter. */
  function PaydayNextMonthDay(c: Civil, p: int): (r: int)
    requires 1 <= c.month <= 12 && 1 <= p
    ensures 1 <= r <= p
  {
    var n := NextMonth(c);
    if p < DaysInMonth(n.year, n.month) then p else DaysInMonth(n.year, n.month)
  }

  /** The pay day still ahead this month (or rolled over into the next one): no day before it falls on the pay day. */
  lemma PaydayThisMonth(today: int, p: int)
    requires 1 <= p <= 31 && today < MonthStart(today) + p - 1
    ensures p <= 28 ==> CivilOf(MonthStart(today) + p - 1).day == p
    ensures NoPaydayBetween(today, MonthStart(today) + p - 1, p)
  {
    var ms := MonthStart(today);
    if p <= 28 {
      DayNumberThisMonth(today, ms + p - 1);
    }
    NoPaydayInTwoMonths(today, today, ms + p - 1, p);
  }

  /** The pay day has passed this month: the next one is `addMonths(candidate, 1)`, and no day before it falls on the pay day. */
  lemma PaydayAdvances(today: int, p: int)
    requires 1 <= p <= 31 && MonthStart(today) + p - 1 <= today
    ensures var c := CivilOf(today);
      AddOneMonth(MonthStart(today) + p - 1) == MonthEnd(today) + PaydayNextMonthDay(c, p)
    ensures var c := CivilOf(today); p <= 28 ==> PaydayNextMonthDay(c, p) == p
    ensures CivilOf(AddOneMonth(MonthStart(today) + p - 1)).day == PaydayNextMonthDay(CivilOf(today), p)
    ensures NoPaydayBetween(today, MonthEnd(today) + PaydayNextMonthDay(CivilOf(today), p), p)
    ensures var d := AddOneMonth(MonthStart(today) + p - 1);
      today < d && (p <= 28 ==> CivilOf(d).day == p) && NoPaydayBetween(today, d, p)
  {
    var me := MonthEnd(today);
    var q := PaydayNextMonthDay(CivilOf(today), p);
    AdvanceLandsOn(today, p);
    NoPaydayInTwoMonths(today, today, me + q, p);
    PaydayKept(today, AddOneMonth(MonthStart(today) + p - 1), me + q, p, q);
  }

  /** `addMonths` from this month's pay day lands on day `PaydayNextMonthDay` of the next month. */
  lemma AdvanceLandsOn(today: int, p: int)
    requires 1 <= p <= 31 && MonthStart(today) + p - 1 <= today
    ensures var c := CivilOf(today);
      AddOneMonth(MonthStart(today) + p - 1) == MonthEnd(today) + PaydayNextMonthDay(c, p)
    ensures CivilOf(AddOneMonth(MonthStart(today) + p - 1)).day == PaydayNextMonthDay(CivilOf(today), p)
  {
    var c := CivilOf(today);
    var candidate := MonthStart(today) + p - 1;
    var q := PaydayNextMonthDay(c, p);
    DayOfMonth(today, p - 1);
    assert CivilOf(candidate) == Civil(c.year, c.month, p);
    DayOfNextMonth(today, q - 1);
    var n := NextMonth(c);
    assert CivilOf(AddOneMonth(candidate)) == Civil(n.year, n.month, q);
    CivilOfInjective(AddOneMonth(candidate), MonthEnd(today) + q);
  }

  lemma PaydayKept(today: int, d: int, d': int, p: int, q: int)
    requires d == d' && CivilOf(d).day == q && (p <= 28 ==> q == p) && NoPaydayBetween(today, d', p)
    requires today <= d' - q && 1 <= q
    ensures today < d && (p <= 28 ==> CivilOf(d).day == p) && NoPaydayBetween(today, d, p)
  {
  }

  /**
   * Between `lo` and `hi`, within `today`'s month and the next, no day falls on
   * day `p` of its month unless it is that day of this month or of the next.
   */
  lemma NoPaydayInTwoMonths(today: int, lo: int, hi: int, p: int)
    requires MonthStart(today) <= lo
    requires var n := NextMonth(CivilOf(today)); hi <= MonthEnd(today) + 1 + DaysInMonth(n.year, n.month)
    requires var k := MonthStart(today) + p - 1; !(lo < k < hi && k <= MonthEnd(today))
    requires !(lo < MonthEnd(today) + p < hi)
    ensures NoPaydayBetween(lo, hi, p)
  {
    forall e | lo < e < hi
      ensures CivilOf(e).day != p
    {
      if e <= MonthEnd(today) {
        DayNumberThisMonth(today, e);
      } else {
        DayNumberNextMonth(today, e);
      }
    }
  }

  /** The day of the month of a day `e` in `today`'s month, counted from its start. */
  lemma DayNumberThisMonth(today: int, e: int)
    requires MonthStart(today) <= e <= MonthEnd(today)
    ensures CivilOf(e).day == e - MonthStart(today) + 1
  {
    DayOfMonth(today, e - MonthStart(today));
  }

  /** The day of the month of a day `e` in the month after `today`'s, counted from its start. */
  lemma DayNumberNextMonth(today: int, e: int)
    requires var n := NextMonth(CivilOf(today)); MonthEnd(today) < e <= MonthEnd(today) + DaysInMonth(n.year, n.month)
    ensures CivilOf(e).day == e - MonthEnd(today)
  {
    DayOfNextMonth(today, e - MonthEnd(today) - 1);
  }

  /** `getTimeUntilWorkEnd(settings)`. */
  function GetTimeUntilWorkEnd(st: EngineState, s: Settings, now: int): (r: Option<int>)
    requires Parsed(s)
    ensures r.None? <==> !IsWorkday(st, DayOf(now))
    ensures r.Some? ==> 0 <= r.value
    ensures r.Some? && 0 < r.value ==> now + r.value == TimeStringToTimestamp(s.workEndTime, DayOf(now))
    ensures r.Some? && r.value == 0 ==> TimeStringToTimestamp(s.workEndTime, DayOf(now)) <= now
  {
    var today := DayOf(now);
    var range := GetWorkdayTimestampRange(st, s, today);
    if !IsWorkday(st, today) || range.None? then None
    else if now >= range.value.end then Some(0)
    else Some(range.value.end - now)
  }

  /** `getTimeUntilWeekend(settings)`: until Friday's end of work. */
  function GetTimeUntilWeekend(st: EngineState, s: Settings, now: int): (r: int)
    requires Parsed(s)
    ensures IsWeekend(DayOf(now)) ==> r == 0
    ensures Weekday(DayOf(now)) == 5 && TimeStringToTimestamp(s.workEndTime, DayOf(now)) <= now ==> r == 0
    ensures Weekday(DayOf(now)) == 5 && IsWorkday(st, DayOf(now)) && now < TimeStringToTimestamp(s.workEndTime, DayOf(now)) ==>
      now + r == TimeStringToTimestamp(s.workEndTime, DayOf(now))
    ensures Weekday(DayOf(now)) == 5 && !IsWorkday(st, DayOf(now)) ==> r == 0
    ensures 1 <= Weekday(DayOf(now)) <= 4 ==>
      now + r == TimeStringToTimestamp(s.workEndTime, DayOf(now) + 5 - Weekday(DayOf(now)))
    ensures 0 <= EndMinutes(s) ==> 0 <= r
  {
    var today := DayOf(now);
    var currentDay := Weekday(today);
    if currentDay == 0 || currentDay == 6 then 0
    else
      var friday := today + (5 - currentDay);
      if currentDay == 5 then
        var range := GetWorkdayTimestampRange(st, s, today);
        if IsWorkday(st, today) && range.Some? && now < range.value.end then range.value.end - now else 0
      else
        TimeStringToTimestamp(s.workEndTime, friday) - now
  }

  /** `dailyWorkHours`: the day's work time in hours. */
  function WorkHours(r: TimestampRange): real {
    (TotalWorkMs(r) as real) / (MsPerHour as real)
  }

  /** `dailySalary / dailyWorkHours`. */
  function HourlyRate(daily: real, r: TimestampRange): real
    requires TotalWorkMs(r) != 0
  {
    daily / WorkHours(r)
  }

  /** Working the day's hours at the hourly rate earns the day's pay. */
  lemma HourlyRateTimesHours(daily: real, r: TimestampRange)
    requires TotalWorkMs(r) != 0
    ensures HourlyRate(daily, r) * WorkHours(r) == daily
  {
    DivThenMul(daily, WorkHours(r), HourlyRate(daily, r));
  }

  lemma DivThenMul(x: real, y: real, q: real)
    requires y != 0.0 && q == x / y
    ensures q * y == x
  {
  }

  /** `getHourlyRate(settings)`: 0 on a non-workday, else `monthlySalary / workdays / dailyWorkHours`. */
  function GetHourlyRate(st: EngineState, s: Settings, now: int): (r: real)
    requires WellFormed(s)
    ensures !IsWorkday(st, DayOf(now)) ==> r == 0.0
    ensures IsWorkday(st, DayOf(now)) ==>
      r == HourlyRate(DailySalary(st.data, s, DayOf(now)), GetWorkdayTimestampRange(st, s, DayOf(now)).value)
  {
    var today := DayOf(now);
    var range := GetWorkdayTimestampRange(st, s, today);
    if range.None? then 0.0 else HourlyRate(DailySalary(st.data, s, today), range.value)
  }

  /** The day's hours of work are the schedule's work minutes over 60. */
  lemma WorkHoursOfSchedule(st: EngineState, s: Settings, d: int)
    requires Parsed(s) && IsWorkday(st, d)
    ensures WorkHours(GetWorkdayTimestampRange(st, s, d).value) == WorkMinutes(s) as real / 60.0
  {
  }

  /** What `formatCountdown` shows: the celebration text, or days, hours, minutes and seconds. */
  datatype CountdownDisplay = Reached(text: string) | Remaining(days: int, hours: int, minutes: int, seconds: int)

  /** `formatCountdown(timestamp, celebrationText)` without the wording of the units. */
  function FormatCountdown(timestamp: int, celebrationText: Option<string>): (r: CountdownDisplay)
    ensures r.Reached? <==> timestamp <= 0
    ensures r.Reached? ==> r.text == if celebrationText.Some? && celebrationText.value != "" then celebrationText.value else "已到达"
    ensures r.Remaining? ==>
      && 0 <= r.days && 0 <= r.hours < 24 && 0 <= r.minutes < 60 && 0 <= r.seconds < 60
      && ((r.days * 24 + r.hours) * 60 + r.minutes) * 60 + r.seconds == timestamp / MsPerSecond
  {
    if timestamp <= 0 then
      Reached(if celebrationText.Some? && celebrationText.value != "" then celebrationText.value else "已到达")
    else
      var seconds := timestamp / MsPerSecond;
      var days := seconds / (24 * 60 * 60);
      var hours := (seconds % (24 * 60 * 60)) / (60 * 60);
      var minutes := (seconds % (60 * 60)) / 60;
      var secs := seconds % 60;
      Decomposition(seconds);
      Remaining(days, hours, minutes, secs)
  }

  lemma Decomposition(seconds: int)
    requires 0 <= seconds
    ensures var days, hours, minutes, secs :=
        seconds / 86400, (seconds % 86400) / 3600, (seconds % 3600) / 60, seconds % 60;
      ((days * 24 + hours) * 60 + minutes) * 60 + secs == seconds
  {
    var days, r := seconds / 86400, seconds % 86400;
    var hours, q := r / 3600, r % 3600;
    var minutes, secs := q / 60, q % 60;
    assert seconds == days * 86400 + r && 0 <= r < 86400;
    assert r == hours * 3600 + q && 0 <= q < 3600;
    assert q == minutes * 60 + secs && 0 <= secs < 60;
    RemainderOf3600(seconds, days * 24 + hours, q);
    RemainderOf60(seconds, (days * 24 + hours) * 60 + minutes, secs);
  }

  lemma RemainderOf3600(x: int, a: int, b: int)
    requires x == a * 3600 + b && 0 <= b < 3600
    ensures x % 3600 == b
  {
  }

  lemma RemainderOf60(x: int, a: int, b: int)
    requires x == a * 60 + b && 0 <= b < 60
    ensures x % 60 == b
  {
  }

  // ---------------------------------------------------------------------------
  // the next holiday

  /** The calendar's keys that belong to some day at or before `d`. */
  ghost function KeysAtOrBefore(data: HolidayData, d: int): set<string> {
    set k | k in data && exists e :: e <= d && DateKey(e) == k
  }

  /** Days left before a Friday when walking back over a weekend: 2 on Sunday, 1 on Saturday. */
  function WeekendRun(d: int): nat {
    (Weekday(d) + 2) % 7
  }

  /** Stepping back from a non-workday uses up a record or a weekend day. */
  lemma StepBackMeasure(data: HolidayData, d: int)
    requires !IsWorkdayWithHoliday(d, data)
    ensures |KeysAtOrBefore(data, d - 1)| < |KeysAtOrBefore(data, d)| ||
      (|KeysAtOrBefore(data, d - 1)| == |KeysAtOrBefore(data, d)| && WeekendRun(d - 1) < WeekendRun(d))
  {
    var before, here := KeysAtOrBefore(data, d - 1), KeysAtOrBefore(data, d);
    KeysShrink(data, d);
    if DateKey(d) in data {
      KeyOfDayIsLatest(data, d);
      ProperSubsetCard(before, here, DateKey(d));
    } else {
      SubsetCard(before, here);
      WeekendRunDrops(d);
    }
  }

  /** Saturday follows Friday and Sunday follows Saturday, so the run shrinks walking back. */
  lemma WeekendRunDrops(d: int)
    requires IsWeekend(d)
    ensures WeekendRun(d - 1) < WeekendRun(d)
  {
    WeekdayNext(d - 1);
  }

  lemma KeysShrink(data: HolidayData, d: int)
    ensures KeysAtOrBefore(data, d - 1) <= KeysAtOrBefore(data, d)
  {
  }

  lemma KeyOfDayIsLatest(data: HolidayData, d: int)
    requires DateKey(d) in data
    ensures DateKey(d) in KeysAtOrBefore(data, d) && DateKey(d) !in KeysAtOrBefore(data, d - 1)
  {
    if DateKey(d) in KeysAtOrBefore(data, d - 1) {
      var e :| e <= d - 1 && DateKey(e) == DateKey(d);
      DateKeyInjective(e, d);
    }
  }

  lemma SubsetCard<T>(a: set<T>, b: set<T>)
    requires a <= b
    ensures |a| <= |b|
  {
    assert b == a + (b - a);
  }

  lemma ProperSubsetCard<T>(a: set<T>, b: set<T>, x: T)
    requires a <= b && x in b && x !in a
    ensures |a| < |b|
  {
    assert b == a + (b - a);
    assert x in b - a;
  }

  /** No day after `lo` up to and including `hi` is a workday. */
  predicate DaysOffBetween(data: HolidayData, lo: int, hi: int) {
    forall e :: lo < e <= hi ==> !IsWorkdayWithHoliday(e, data)
  }

  lemma DaysOffExtend(data: HolidayData, lo: int, hi: int)
    requires DaysOffBetween(data, lo, hi - 1) && !IsWorkdayWithHoliday(hi, data)
    ensures DaysOffBetween(data, lo, hi)
  {
  }

  /** The last workday on or before day `d` under a calendar. */
  function LastWorkdayOnOrBefore(data: HolidayData, d: int): (r: int)
    ensures r <= d && IsWorkdayWithHoliday(r, data)
    ensures DaysOffBetween(data, r, d)
    decreases |KeysAtOrBefore(data, d)|, WeekendRun(d)
  {
    if IsWorkdayWithHoliday(d, data) then d
    else
      StepBackMeasure(data, d);
      var r := LastWorkdayOnOrBefore(data, d - 1);
      DaysOffExtend(data, r, d);
      r
  }

  /** What `getTimeUntilNextHoliday` returns; `InvalidDate` is the error a formatted Invalid Date raises. */
  datatype HolidayCountdown = NoCountdown | Countdown(milliseconds: int, holidayName: string) | InvalidDate

  /** `getTimeUntilNextHoliday` as a function of the state and `now`. */
  function NextHolidayCountdown(st: EngineState, s: Settings, now: int): HolidayCountdown
    requires Parsed(s)
  {
    var today := DayOf(now);
    if !st.loaded then NoCountdown
    else if !IsWorkday(st, today) then Countdown(0, CurrentHolidayName)
    else CountdownToHoliday(st, s, now, GetNextHoliday(st.data, today))
  }

  /** The countdown on a workday, given what `getNextHoliday` returned. */
  function CountdownToHoliday(st: EngineState, s: Settings, now: int, nextHoliday: Option<NextHoliday>): HolidayCountdown
    requires Parsed(s)
  {
    match nextHoliday
    case None => NoCountdown
    case Some(next) =>
      match next.date
      case None => InvalidDate
      case Some(h) => CountdownToWorkEnd(st, s, now, LastWorkdayOnOrBefore(st.data, h - 1), next.name)
  }

  /** The countdown to the end of work on day `last`, the last workday before the holiday. */
  function CountdownToWorkEnd(st: EngineState, s: Settings, now: int, last: int, name: string): HolidayCountdown
    requires Parsed(s)
  {
    var today := DayOf(now);
    if today == last then
      var workdayRange := GetWorkdayTimestampRange(st, s, today);
      if workdayRange.Some? && now < workdayRange.value.end then Countdown(workdayRange.value.end - now, name)
      else Countdown(0, name)
    else
      Countdown(TimeStringToTimestamp(s.workEndTime, last) - now, name)
  }

  /** Before the holiday: the walk stops on a workday strictly before it, on or after today, with only days off in between. */
  lemma NextHolidayWalk(st: EngineState, s: Settings, now: int, h: int, name: string)
    requires Parsed(s) && st.loaded && IsWorkday(st, DayOf(now))
    requires GetNextHoliday(st.data, DayOf(now)) == Some(NextHoliday(Some(h), name))
    ensures var last := LastWorkdayOnOrBefore(st.data, h - 1);
      last < h && IsWorkday(st, last) && (forall e | last < e < h :: !IsWorkday(st, e)) &&
      NextHolidayCountdown(st, s, now) == CountdownToWorkEnd(st, s, now, last, name)
    ensures DayOf(now) < h ==> DayOf(now) <= LastWorkdayOnOrBefore(st.data, h - 1)
  {
    WalkBack(st, h);
    if DayOf(now) < h {
      WalkStopsByToday(st, DayOf(now), h);
    }
    CountdownFollowsWalk(st, s, now, h, name);
  }

  /** On a workday whose next holiday is `h`, the countdown is the one to the end of work on the walk's last day. */
  lemma CountdownFollowsWalk(st: EngineState, s: Settings, now: int, h: int, name: string)
    requires Parsed(s) && st.loaded && IsWorkday(st, DayOf(now))
    requires GetNextHoliday(st.data, DayOf(now)) == Some(NextHoliday(Some(h), name))
    ensures NextHolidayCountdown(st, s, now) == CountdownToWorkEnd(st, s, now, LastWorkdayOnOrBefore(st.data, h - 1), name)
  {
    CountdownOnWorkday(st, s, now, GetNextHoliday(st.data, DayOf(now)));
    CountdownToDated(st, s, now, h, name, LastWorkdayOnOrBefore(st.data, h - 1));
  }

  /** A next holiday with a date counts down to the end of work on `last`, the last workday before it. */
  lemma CountdownToDated(st: EngineState, s: Settings, now: int, h: int, name: string, last: int)
    requires Parsed(s) && last == LastWorkdayOnOrBefore(st.data, h - 1)
    ensures CountdownToHoliday(st, s, now, Some(NextHoliday(Some(h), name))) == CountdownToWorkEnd(st, s, now, last, name)
  {
  }

  /** On a workday the countdown is decided by what `getNextHoliday` returned. */
  lemma CountdownOnWorkday(st: EngineState, s: Settings, now: int, next: Option<NextHoliday>)
    requires Parsed(s) && st.loaded && IsWorkday(st, DayOf(now))
    requires next == GetNextHoliday(st.data, DayOf(now))
    ensures NextHolidayCountdown(st, s, now) == CountdownToHoliday(st, s, now, next)
  {
  }

  /** Walking back from the day before `h` stops on a workday with only days off after it. */
  lemma WalkBack(st: EngineState, h: int)
    requires st.loaded
    ensures var last := LastWorkdayOnOrBefore(st.data, h - 1);
      last < h && IsWorkday(st, last) && (forall e | last < e < h :: !IsWorkday(st, e))
  {
    var last := LastWorkdayOnOrBefore(st.data, h - 1);
    assert DaysOffBetween(st.data, last, h - 1);
  }

  /** That walk does not pass a workday `today` before `h`. */
  lemma WalkStopsByToday(st: EngineState, today: int, h: int)
    requires st.loaded && IsWorkday(st, today) && today < h
    ensures today <= LastWorkdayOnOrBefore(st.data, h - 1)
  {
    var last := LastWorkdayOnOrBefore(st.data, h - 1);
    assert DaysOffBetween(st.data, last, h - 1);
  }

  /**
   * A holiday after today counts down to the end of work on the last workday before
   * it: never negative, and when positive it reaches exactly that instant.
   */
  lemma NextHolidayCountdownReachesWorkEnd(st: EngineState, s: Settings, now: int, h: int, name: string)
    requires Parsed(s) && 0 <= EndMinutes(s) && st.loaded && IsWorkday(st, DayOf(now))
    requires GetNextHoliday(st.data, DayOf(now)) == Some(NextHoliday(Some(h), name)) && DayOf(now) < h
    ensures var r := NextHolidayCountdown(st, s, now);
      r.Countdown? && r.holidayName == name && 0 <= r.milliseconds
    ensures var r := NextHolidayCountdown(st, s, now);
      r.Countdown? && 0 < r.milliseconds ==>
        now + r.milliseconds == TimeStringToTimestamp(s.workEndTime, LastWorkdayOnOrBefore(st.data, h - 1))
  {
    NextHolidayWalk(st, s, now, h, name);
    CountdownToWorkEndFacts(st, s, now, LastWorkdayOnOrBefore(st.data, h - 1), name);
  }

  /** Counting down to the end of work on a workday not before today: never negative, and when positive it reaches that instant. */
  lemma CountdownToWorkEndFacts(st: EngineState, s: Settings, now: int, last: int, name: string)
    requires Parsed(s) && 0 <= EndMinutes(s) && DayOf(now) <= last && IsWorkday(st, last)
    ensures var r := CountdownToWorkEnd(st, s, now, last, name);
      r.Countdown? && r.holidayName == name && 0 <= r.milliseconds
    ensures var r := CountdownToWorkEnd(st, s, now, last, name);
      r.Countdown? && 0 < r.milliseconds ==> now + r.milliseconds == TimeStringToTimestamp(s.workEndTime, last)
  {
    var today := DayOf(now);
    var end := TimeStringToTimestamp(s.workEndTime, last);
    if today == last {
      var range := GetWorkdayTimestampRange(st, s, today);
      assert range.Some? && range.value.end == end;
    } else {
      LaterMidnight(now, last);
      assert now < end;
    }
  }

  /** After a failed fetch (loaded, empty calendar): 0 under "当前假期" on weekends, no countdown otherwise. */
  lemma FailedFetchCountdown(s: Settings, now: int)
    requires Parsed(s)
    ensures NextHolidayCountdown(EngineState(map[], true), s, now) ==
      if IsWeekend(DayOf(now)) then Countdown(0, CurrentHolidayName) else NoCountdown
  {
    EmptyCalendarIsWeekendRule(DayOf(now));
  }

  /** `getTimeUntilNextHoliday(settings)` with its backward walk to the last workday before the holiday. */
  method GetTimeUntilNextHoliday(st: EngineState, s: Settings, now: int) returns (r: HolidayCountdown)
    requires Parsed(s)
    ensures r == NextHolidayCountdown(st, s, now)
  {
    if !st.loaded {
      return NoCountdown;
    }
    var today := DayOf(now);
    if !IsWorkday(st, today) {
      return Countdown(0, CurrentHolidayName);
    }
    var nextHoliday := GetNextHoliday(st.data, today);
    if nextHoliday.None? {
      return NoCountdown;
    }
    var next := nextHoliday.value;
    if next.date.None? {
      return InvalidDate;
    }
    var lastWorkdayBeforeHoliday := FindLastWorkdayBefore(st, next.date.value);
    r := WorkEndCountdown(st, s, now, lastWorkdayBeforeHoliday, next.name);
  }

  /** The tail of `getTimeUntilNextHoliday`, once the last workday before the holiday is known. */
  method WorkEndCountdown(st: EngineState, s: Settings, now: int, lastWorkdayBeforeHoliday: int, name: string)
    returns (r: HolidayCountdown)
    requires Parsed(s)
    ensures r == CountdownToWorkEnd(st, s, now, lastWorkdayBeforeHoliday, name)
  {
    var today := DayOf(now);
    if today == lastWorkdayBeforeHoliday {
      var workdayRange := GetWorkdayTimestampRange(st, s, today);
      if workdayRange.Some? && now < workdayRange.value.end {
        return Countdown(workdayRange.value.end - now, name);
      }
      return Countdown(0, name);
    }
    var targetEndTime := TimeStringToTimestamp(s.workEndTime, lastWorkdayBeforeHoliday);
    return Countdown(targetEndTime - now, name);
  }

  /** The backward walk of `getTimeUntilNextHoliday` from the day before the holiday. */
  method FindLastWorkdayBefore(st: EngineState, holidayDate: int) returns (lastWorkdayBeforeHoliday: int)
    requires st.loaded
    ensures lastWorkdayBeforeHoliday == LastWorkdayOnOrBefore(st.data, holidayDate - 1)
  {
    lastWorkdayBeforeHoliday := holidayDate - 1;
    while !IsWorkday(st, lastWorkdayBeforeHoliday)
      invariant LastWorkdayOnOrBefore(st.data, lastWorkdayBeforeHoliday) == LastWorkdayOnOrBefore(st.data, holidayDate - 1)
      decreases |KeysAtOrBefore(st.data, lastWorkdayBeforeHoliday)|, WeekendRun(lastWorkdayBeforeHoliday)
    {
      StepBackMeasure(st.data, lastWorkdayBeforeHoliday);
      lastWorkdayBeforeHoliday := lastWorkdayBeforeHoliday - 1;
    }
  }

  // ---------------------------------------------------------------------------
  // the module state

  datatype HolidayDataStatus = HolidayDataStatus(loaded: bool, dataCount: int)

  /** The holder of `currentHolidayData` and `isHolidayDataLoaded`. */
  class Engine {
    const api: HolidayCache
    var currentHolidayData: HolidayData
    var isHolidayDataLoaded: bool

    function State(): EngineState
      reads this
    {
      EngineState(currentHolidayData, isHolidayDataLoaded)
    }

    constructor (api: HolidayCache)
      ensures this.api == api && currentHolidayData == map[] && !isHolidayDataLoaded
    {
      this.api := api;
      currentHolidayData := map[];
      isHolidayDataLoaded := false;
    }

    /**
     * `initializeHolidayData()`: load the current year's calendar. The fetch never
     * raises (it answers `{}` on failure), so the state always ends up loaded.
     */
    method InitializeHolidayData(now: int, response: ApiResponse)
      modifies this, api
      ensures isHolidayDataLoaded
      ensures (currentHolidayData, api.State()) == Resolve(old(api.State()), CivilOf(DayOf(now)).year, response)
      ensures !old(api.State()).Hit(CivilOf(DayOf(now)).year) && !Accepted(response) ==>
        State() == EngineState(map[], true) && unchanged(api)
    {
      var currentYear := CivilOf(DayOf(now)).year;
      currentHolidayData := api.GetHolidayData(currentYear, response);
      isHolidayDataLoaded := true;
    }

    /** `getHolidayDataStatus()`. */
    function GetHolidayDataStatus(): (r: HolidayDataStatus)
      reads this
      ensures r.loaded == isHolidayDataLoaded && r.dataCount == |currentHolidayData|
    {
      HolidayDataStatus(isHolidayDataLoaded, |currentHolidayData|)
    }
  }
}

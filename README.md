# salarywave earnings engine in Dafny

A model of the two pieces of logic behind salarywave's salary dashboard.

The **holiday calendar** (`src/lib/holiday-api.ts`) covers:

- a one-year cache of date-keyed holiday records;
- the re-keying of the holiday service's `MM-dd` keys into `yyyy-MM-dd` keys;
- the workday rule, where a record overrides the weekday, so a make-up workday on a Saturday is a workday;
- the lookup of the next rest day after today.

The **earnings and countdown engine** (`src/lib/calculations.ts`) covers:

- the module state `currentHolidayData` / `isHolidayDataLoaded`;
- `HH:MM` parsing and printing;
- a workday's four instants (start, end, lunch start, lunch end);
- the month's workday count, with its floor of 22;
- today's prorated earnings and work progress, with a staged lunch deduction;
- the day-by-day week and month totals;
- the hourly rate;
- the countdowns to the next payday, the end of work, the weekend and the next holiday;
- the days/hours/minutes/seconds decomposition of a countdown.

## Files

- `wrappers.dfy` holds `Option`.
- `js_strings.dfy` holds the JavaScript string operations the source relies on: `String(n)`, `padStart(2, '0')`, `split`, `Number` and string `<`.
- `calendar.dfy` holds a proleptic Gregorian calendar over day indices, where day 0 is 1970-01-01. It provides `getDay`, and the date-fns `startOfMonth`, `endOfMonth`, `startOfWeek`/`endOfWeek` (week starting on Monday) and `addMonths`.
- `holiday_api.dfy` models `src/lib/holiday-api.ts`.
- `calculations.dfy` models `src/lib/calculations.ts`.

### Where each source function is defined

- `timeStringToMinutes` and `minutesToTimeString` (`src/lib/calculations.ts:22-31`) are `Calculations.TimeStringToMinutes` and `Calculations.MinutesToTimeString`.
- `isWorkday` (`src/lib/calculations.ts:34-41`) is `Calculations.IsWorkday`, over the state `EngineState`.
- `getNextPayday` (`src/lib/calculations.ts:44-53`) is `Calculations.GetNextPayday`.
- `getWorkdayTimestampRange` (`src/lib/calculations.ts:100-111`) is `Calculations.GetWorkdayTimestampRange`.
- `getMonthWorkdays` (`src/lib/calculations.ts:114-126`) is `Calculations.MonthWorkdays`, computed by the method `Calculations.GetMonthWorkdays`.
- `getTodayEarningsWithTimestamp` (`src/lib/calculations.ts:129-170`) is `Calculations.TodayEarnings`, built on `Calculations.ProratedPay`, and computed by the method of the same name.
- `getTodayWorkProgress` (`src/lib/calculations.ts:194-231`) is `Calculations.TodayProgress`, built on `Calculations.WorkProgress`.
- `getWeekEarnings` and `getMonthEarnings` (`src/lib/calculations.ts:234-285`) are `Calculations.EarnedBetween` over the week's and the month's days, computed by the methods `Calculations.GetWeekEarnings` and `Calculations.GetMonthEarnings`.
- `getTimeUntilNextHoliday` (`src/lib/calculations.ts:326-388`) is `Calculations.NextHolidayCountdown`, computed by the method `Calculations.GetTimeUntilNextHoliday`.
- The `forEach` in `getHolidayData` (`src/lib/holiday-api.ts:35-43`) is `HolidayApi.Rekeyed`, computed by the method `HolidayApi.ProcessHolidays`; `getHolidayData` as a whole is `HolidayApi.Resolve`.
- The `yyyy-MM-dd` key of a day (`src/lib/holiday-api.ts:66-68`, `75-77`) is `HolidayApi.DateKey`.
- `isWorkdayWithHoliday` (`src/lib/holiday-api.ts:79-89`) is `HolidayApi.IsWorkdayWithHoliday`.
- `new Date(key)` in `getNextHoliday` (`src/lib/holiday-api.ts:110-113`) is `HolidayApi.KeyToDay`.

## How time is modelled

- A date is an integer day index.
- An instant is a count of milliseconds in local time.
- `now` is a parameter wherever the source reads the clock.
- Day keys are real strings: `DateKey(d)` builds the zero-padded `yyyy-MM-dd` text the way the source does. The model proves this key injective.
- Keys are compared by code-point order, `StrLess`. On the ASCII keys this engine uses, that is the same as JavaScript's code-unit order.
- Money is an exact `real`.

The engine's pure operations take the module state as a value, `EngineState(data, loaded)`. The class `Engine` holds the two module variables. `InitializeHolidayData` updates them through a `HolidayCache` object, which holds `holidayCache` / `cacheYear`. The response of the holiday service is an input value: either a failure or a decoded body.

Where the source works by updating variables, the model is a method, proved equal to a specification function. Methods with a loop cover:

- the month's workday count;
- the week and month accumulation loops;
- the backward walk to the last workday before a holiday;
- the re-keying `forEach`.

Methods that apply the source's staged updates to `workedTime` and the progress value, with no loop, cover the lunch deduction (`Calculations.Prorate`, `Calculations.ProgressAt`).

The properties are then proved about those functions.

### Behaviour worth noting

- **Today's earnings subtract the whole lunch break once it is over.** At 13:30 on the default 09:00-18:00 schedule with a 12:00-13:00 lunch, 3.5 of 8 hours are worked. A daily 1000 then gives 437.5, or 43.75 % (`Calculations.HalfPastOneScenario`).
- **A failed fetch still loads the calendar.** `getHolidayData` catches every error and returns `{}`, so `initializeHolidayData` always sets `isHolidayDataLoaded = true` (`src/lib/calculations.ts:14`), and the branch at lines 15-18 cannot run. After a failure the engine holds `{}`, which acts exactly like the plain weekend rule (`Calculations.EmptyLoadedIsFallback`). The next-holiday countdown is then `{0, "当前假期"}` on weekends and `null` on other days (`Calculations.FailedFetchCountdown`).

## Model

| member | source | states |
|---|---|---|
| JsStrings.NumberOfItoa | src/lib/holiday-api.ts:110 | `Number(String(n)) == n` for every integer |
| JsStrings.NumberOfPadded | src/lib/holiday-api.ts:66-68 | a zero-padded number reads back as itself |
| JsStrings.PaddedLength | src/lib/holiday-api.ts:66-68 | a number below 100 pads to exactly two characters |
| JsStrings.SplitAtFirstSeparator | src/lib/holiday-api.ts:110 | splitting at a separator that was joined in gives the pieces back |
| JsStrings.StrLessTransitive | src/lib/holiday-api.ts:100-103 | string order is transitive |
| JsStrings.StrLessTotal | src/lib/holiday-api.ts:100-103 | string order is total on distinct strings, so sorting has one answer |
| Calendar.MonthStart | src/lib/calculations.ts:115 | `startOfMonth`: on or before the day, within one month length of it, and day 1 of the same month |
| Calendar.MonthEnd | src/lib/calculations.ts:116 | `endOfMonth`: on or after the day, and the month spans exactly its number of days |
| Calendar.WeekStart | src/lib/calculations.ts:236 | `startOfWeek(…, {weekStartsOn: 1})`: a Monday, at most six days back |
| Calendar.WeekEnd | src/lib/calculations.ts:237 | `endOfWeek`: the Sunday six days after the week's Monday |
| Calendar.AddOneMonth | src/lib/calculations.ts:49 | `addMonths(d, 1)`: after the end of `d`'s month, on the same day of the next month, or on that month's last day when it is shorter |
| Calendar.WeekdayNext | src/lib/holiday-api.ts:87 | `getDay` advances by one modulo 7 from one day to the next |
| Calendar.CivilOfDayOfCivil | src/lib/holiday-api.ts:113 | a day index and its calendar date convert back and forth without loss |
| Calendar.DayOfMonth | src/lib/calculations.ts:119 | the k-th day after the first of a month is day k + 1 of that month |
| Calendar.DayOfNextMonth | src/lib/calculations.ts:49 | the k-th day after a month ends is day k + 1 of the next month |
| HolidayApi.RekeyedEntries | src/lib/holiday-api.ts:35-43 | key `k` is in the service's map exactly when `year-k` is in the result; every result key has that form; the record is copied with `date` set to the full key |
| HolidayApi.RekeyedSize | src/lib/holiday-api.ts:35-43 | the result has exactly as many entries as the service's map |
| HolidayApi.ProcessHolidays | src/lib/holiday-api.ts:35-43 | the `forEach` that fills the map entry by entry produces the re-keyed map |
| HolidayApi.Resolve | src/lib/holiday-api.ts:19-59 | a cache hit returns the cached map with the cache unchanged; an accepted body (`code === 0` with `holiday`) replaces both cache fields with the re-keyed map; every failure returns `{}` with the cache unchanged |
| HolidayApi.ResolveTwice | src/lib/holiday-api.ts:21-23 | after a success or a hit, asking again for the year returns the same map whatever the service answers; after a failure nothing was stored |
| HolidayApi.HolidayCache.GetHolidayData | src/lib/holiday-api.ts:19-59 | the method's result and new cache equal `Resolve` of the old cache; a hit or a failure leaves the object unchanged |
| HolidayApi.HolidayCache.GetHolidayInfo | src/lib/holiday-api.ts:61-71 | null without a cache; otherwise the record under the day's padded key, present exactly when that key is cached |
| HolidayApi.DateKeyInjective | src/lib/holiday-api.ts:75-77 | different days have different `yyyy-MM-dd` keys |
| HolidayApi.KeyToDayOfDateKey | src/lib/holiday-api.ts:110-113 | splitting a day's key, reading the parts with `Number` and building `new Date(y, m - 1, d)` gives the day back (years 100 on) |
| HolidayApi.ReadDateParts | src/lib/holiday-api.ts:110-113 | a key that splits into three parts reading as `y`, `m` and `d` gives the day `new Date(y, m - 1, d)`, for years 100 on (an unfolding of `KeyToDay`, a step in the proof of `KeyToDayOfDateKey`) |
| HolidayApi.RecordDecidesWorkday | src/lib/holiday-api.ts:79-84 | a day with a record is a workday exactly when the record is not a holiday, whatever its weekday |
| HolidayApi.NoRecordMeansWeekendRule | src/lib/holiday-api.ts:86-88 | a day without a record is a workday exactly when it is neither Sunday nor Saturday |
| HolidayApi.EmptyCalendarIsWeekendRule | src/lib/holiday-api.ts:86-88 | under an empty calendar the workday rule is the weekend rule |
| HolidayApi.EarliestKey | src/lib/holiday-api.ts:103-109 | the first key after sorting is in the set and before every other key |
| HolidayApi.NextHolidayKey | src/lib/holiday-api.ts:98-107 | absent exactly when no key after today's key is a holiday; otherwise a key after today's, a holiday, and before every other such key |
| HolidayApi.GetNextHoliday | src/lib/holiday-api.ts:92-116 | null exactly when there is no next holiday key; otherwise the date read back from that key and its record's name |
| Calculations.ReadSplitTime | src/lib/calculations.ts:22-25 | a time that splits at `:` into two digit strings reads as hours * 60 + minutes |
| Calculations.DigitTimeValue | src/lib/calculations.ts:22-25 | `"HH:MM"` in digits parses to `HH * 60 + MM` |
| Calculations.MinutesRoundTrip | src/lib/calculations.ts:22-31 | parsing the printed time gives back any minute count below 6000 |
| Calculations.MinutesTextShape | src/lib/calculations.ts:27-31 | below 6000 minutes the printed time is five characters, two digits, a colon and two digits |
| Calculations.TimeStringToTimestamp | src/lib/calculations.ts:92-97 | a time of day from 00:00 to 23:59 lands inside the given day, and a non-negative time is not before that day's midnight |
| Calculations.EmptyLoadedIsFallback | src/lib/calculations.ts:34-41 | loaded with `{}` decides workdays exactly as not loaded |
| Calculations.GetWorkdayTimestampRange | src/lib/calculations.ts:100-111 | null exactly on non-workdays; the work time is the schedule's minutes; for an ordered schedule the four instants fall in order from that day's midnight |
| Calculations.WorkedMsIsTimeOutsideLunch | src/lib/calculations.ts:154-161 | for now not before the start and a lunch break that starts no earlier than work and does not end before it starts: the staged lunch deduction leaves the time since start less its overlap with the lunch break |
| Calculations.WorkedMsBounds | src/lib/calculations.ts:154-164 | for an ordered day (start, lunch start, lunch end, end in that order): inside the workday the worked time is between 0 and the day's total work time |
| Calculations.WorkedMsMonotone | src/lib/calculations.ts:154-161 | for a lunch break that does not end before it starts: worked time never decreases as time passes |
| Calculations.CountWorkdaysAtMostDays | src/lib/calculations.ts:119-123 | a range has no more workdays than days |
| Calculations.MonthWorkdays | src/lib/calculations.ts:114-126 | between 1 and 31; the month's workday count when that is positive, 22 when it is 0 |
| Calculations.GetMonthWorkdays | src/lib/calculations.ts:114-126 | the method computes `MonthWorkdays`: the month's count, or 22 when it is 0 |
| Calculations.CountWorkdaysFrom | src/lib/calculations.ts:119-123 | the day-by-day loop from the first to the last day of the month counts exactly the workdays among them |
| Calculations.GetDailySalary | src/lib/calculations.ts:149-150 | the monthly salary over the month's workdays |
| Calculations.GetTodayEarningsWithTimestamp | src/lib/calculations.ts:129-170 | the method computes `TodayEarnings` |
| Calculations.Prorate | src/lib/calculations.ts:143-169 | the staged `workedTime` arithmetic computes `ProratedPay`: 0 before start, the daily pay from the end on, and the daily pay times the non-negative worked share in between |
| Calculations.WorkProgress | src/lib/calculations.ts:207-230 | progress is always between 0 and 100 |
| Calculations.TodayProgress | src/lib/calculations.ts:194-231 | between 0 and 100, and 0 on a non-workday |
| Calculations.GetTodayWorkProgress | src/lib/calculations.ts:194-231 | the method computes `TodayProgress` |
| Calculations.ProgressAt | src/lib/calculations.ts:207-230 | the staged arithmetic computes `WorkProgress` |
| Calculations.WorkedShareInside | src/lib/calculations.ts:167 | inside an ordered workday the worked share lies in [0, 1] |
| Calculations.ProratedPayNonNegative | src/lib/calculations.ts:167-169 | the `Math.max(0, …)` clamp keeps the prorated pay non-negative for any four instants with a non-zero work time |
| Calculations.ProratedPayBounds | src/lib/calculations.ts:143-169 | for an ordered day and a non-negative daily pay, the prorated pay lies between 0 and the daily pay at every instant |
| Calculations.ProratedPayMonotone | src/lib/calculations.ts:143-169 | for an ordered day and a non-negative daily pay: prorated pay never decreases during a day |
| Calculations.ProratedPayIsProgressShare | src/lib/calculations.ts:167-169 | for an ordered day: today's pay is the daily pay times today's progress over 100, the same worked share that `getTodayWorkProgress` turns into a percentage |
| Calculations.WorkProgressMonotone | src/lib/calculations.ts:207-230 | for an ordered day: progress never decreases during a day |
| Calculations.HalfPastOneScenario | src/lib/calculations.ts:154-169 | on the 09:00-18:00 schedule with a 12:00-13:00 lunch: at 13:30, 3.5 of 8 hours are worked, progress is 43.75 and the pay is 0.4375 of the day's |
| Calculations.DefaultScheduleMinutes | src/lib/calculations.ts:22-25 | the default schedule parses to 540, 1080, 720 and 780 minutes and is ordered |
| Calculations.TodayEarningsBounds | src/lib/calculations.ts:129-170 | for a schedule whose times are in order: today's earnings are between 0 and the daily salary |
| Calculations.TodayEarningsNonNegative | src/lib/calculations.ts:167 | for any schedule that parses with a non-zero work time, today's earnings are never negative |
| Calculations.DailySalaryNonNegative | src/lib/calculations.ts:149-150 | a non-negative salary gives a non-negative daily salary |
| Calculations.TodayMonotone | src/lib/calculations.ts:129-231 | for a schedule whose times are in order: during one day, today's earnings and progress never decrease |
| Calculations.TodayIsProrated | src/lib/calculations.ts:129-205 | 0 and 0 on non-workdays; on workdays the prorated pay and progress of that day's four instants (an unfolding of `TodayEarnings` and `TodayProgress`) |
| Calculations.SumEarnings | src/lib/calculations.ts:240-258 | for a range that is empty or ordered (both callers pass a week or a month), the accumulation computes the sum of every day's contribution |
| Calculations.SumDays | src/lib/calculations.ts:239-256 | the loop, given the daily salary computed before it, keeps the running total equal to the sum over the days already passed |
| Calculations.AddDay | src/lib/calculations.ts:245-255 | one turn of the loop extends the sum by that day's contribution |
| Calculations.EarnedOn | src/lib/calculations.ts:245-255 | one iteration adds today's earnings for today, the daily salary for an earlier workday, and nothing otherwise |
| Calculations.GetWeekEarnings | src/lib/calculations.ts:234-259 | the total from Monday to Sunday of the current week |
| Calculations.GetMonthEarnings | src/lib/calculations.ts:262-285 | the total from the first to the last day of the current month |
| Calculations.DayContributionBounds | src/lib/calculations.ts:245-255 | for a schedule whose times are in order: each day adds between 0 and the daily salary; and only a workday that has begun adds anything |
| Calculations.DayContributionNonNegative | src/lib/calculations.ts:245-255 | for any schedule that parses with a non-zero work time, each day adds at least 0 |
| Calculations.EarnedBetweenBounds | src/lib/calculations.ts:234-285 | for a schedule whose times are in order: a total is between 0 and (days that have begun and are workdays) × the daily salary |
| Calculations.EarnedBetweenNonNegative | src/lib/calculations.ts:234-285 | for any schedule that parses with a non-zero work time, a week or month total is never negative |
| Calculations.EarnedBetweenStopsAtToday | src/lib/calculations.ts:247 | days after today add nothing |
| Calculations.WeekEarningsBounds | src/lib/calculations.ts:234-259 | for a schedule whose times are in order: the week total is the total up to today and at most seven daily salaries |
| Calculations.EarningDaysAtMostWorkdays | src/lib/calculations.ts:119-123 | the days that earn in a month are no more than the month's workdays |
| Calculations.MonthEarningsAtMostSalary | src/lib/calculations.ts:262-285 | for a schedule whose times are in order: the month total is between 0 and the monthly salary |
| Calculations.MonthEarningsNonNegative | src/lib/calculations.ts:262-285 | for any schedule that parses with a non-zero work time, the month total is never negative |
| Calculations.NextPaydayIsNext | src/lib/calculations.ts:44-53 | for a pay day from 1 to 31: a midnight strictly after now, no day in between has the pay day's number, and for pay days 1 to 28 it falls on that day of the month |
| Calculations.NextPaydayByDay | src/lib/calculations.ts:44-53 | the result is midnight of this month's pay day when that has not begun, and midnight of the day `addMonths` gives from it otherwise |
| Calculations.PaydayAfterToday | src/lib/calculations.ts:44-53 | that midnight is after now, on day `p` of its month for pay days up to 28, and no day strictly between today and it is day `p` of its month |
| Calculations.PaydayThisMonth | src/lib/calculations.ts:46 | a pay day still ahead this month is the next one |
| Calculations.PaydayAdvances | src/lib/calculations.ts:48-50 | a pay day already passed moves to the same day of the next month, or its last day, and no day before that has the pay day's number |
| Calculations.GetTimeUntilWorkEnd | src/lib/calculations.ts:173-191 | null exactly on non-workdays; never negative; when positive, now plus it is the end of work; 0 only once the end has passed |
| Calculations.GetTimeUntilWeekend | src/lib/calculations.ts:288-323 | 0 on Saturday and Sunday; on Friday the time to the end of work, or 0 once it has passed or on a day off; Monday to Thursday the time to Friday's end of work, with no calendar consulted |
| Calculations.HourlyRateTimesHours | src/lib/calculations.ts:402-406 | the hourly rate times the day's work hours is the daily salary |
| Calculations.GetHourlyRate | src/lib/calculations.ts:391-407 | 0 on non-workdays; otherwise the daily salary over the day's work hours |
| Calculations.WorkHoursOfSchedule | src/lib/calculations.ts:402-403 | the day's work hours are the schedule's work minutes over 60 (an unfolding of `WorkHours` on the workday's range) |
| Calculations.FormatCountdown | src/lib/calculations.ts:56-76 | the celebration text when it is non-empty, else `'已到达'`, exactly when the time is not positive; otherwise hours below 24, minutes and seconds below 60, and the four fields add back to the whole seconds |
| Calculations.StepBackMeasure | src/lib/calculations.ts:355-357 | each step of the backward walk from a day off shrinks a well-founded measure, so the walk ends |
| Calculations.LastWorkdayOnOrBefore | src/lib/calculations.ts:351-357 | a workday on or before the start, and every day between is a day off |
| Calculations.FindLastWorkdayBefore | src/lib/calculations.ts:350-357 | the backward loop stops at the last workday before the holiday |
| Calculations.WorkEndCountdown | src/lib/calculations.ts:359-387 | the countdown to the end of work on the last workday before the holiday |
| Calculations.GetTimeUntilNextHoliday | src/lib/calculations.ts:326-388 | the method computes `NextHolidayCountdown`: null when not loaded, `{0, "当前假期"}` on a day off, null without a next holiday, otherwise the countdown to the end of the last workday before it |
| Calculations.NextHolidayWalk | src/lib/calculations.ts:343-357 | the walk ends on a workday strictly before the holiday, every day between is off, and for a holiday after today it ends no earlier than today |
| Calculations.NextHolidayCountdownReachesWorkEnd | src/lib/calculations.ts:359-387 | for a holiday after today: a countdown with the holiday's name, never negative, and when positive it ends at the end of work on the last workday before the holiday |
| Calculations.CountdownToWorkEndFacts | src/lib/calculations.ts:359-387 | counting down to a workday not before today is never negative and, when positive, reaches that day's end of work |
| Calculations.FailedFetchCountdown | src/lib/calculations.ts:326-347 | with an empty loaded calendar: `{0, "当前假期"}` on weekends, null on other days |
| Calculations.Engine.InitializeHolidayData | src/lib/calculations.ts:10-19 | always ends loaded, holding the calendar that `getHolidayData` resolves for the current year; a failed fetch leaves `{}` and the cache unchanged |
| Calculations.Engine.GetHolidayDataStatus | src/lib/calculations.ts:79-84 | the loaded flag and the number of calendar entries |

## Left out

- The network fetch, `response.ok` and `response.json` are an input value. Time-outs, retries and the asynchronous order of calls are not modelled.
- `console.error` is logging only.
- The clock is a parameter. The source calls `new Date()` separately in each function. In the model one `now` serves a whole calculation, so a call that crosses midnight between two reads of the clock is not modelled.
- Time zones and daylight saving are left out. A day is exactly 86 400 000 ms of local time.
- Floating point is left out. Money is an exact `real`, so the model has no rounding of `monthlySalary / workdays` or of the ratios.
- `Number` reads decimal digits with an optional sign, and the empty string as 0. Any other text is NaN (None). JavaScript's other numeric forms are not modelled: spaces, decimals, exponents and hex.
- The engine operations require settings whose four times parse, and a non-zero work time for today's figures. They do not model the NaN results that malformed settings produce.
- The upper bounds on earnings, the monotonicity of pay, progress and worked time, the identity between pay and progress, and the worked-time bounds hold only for a day whose times are in order (`Ordered` for a schedule, `OrderedRange` for a day's four instants). The source saves the four times without checking their order. Out of order, today's pay can exceed the daily salary, can fall as time passes, and can differ from the daily pay times progress over 100; the lower bounds need no order. This affects `Calculations.TodayEarningsBounds`, `DayContributionBounds`, `EarnedBetweenBounds`, `MonthEarningsAtMostSalary`, `WeekEarningsBounds`, `TodayMonotone`, `ProratedPayMonotone`, `ProratedPayIsProgressShare`, `WorkProgressMonotone`, `WorkedMsBounds`, `WorkedMsIsTimeOutsideLunch` and `WorkedMsMonotone`, each of which requires its part of that order.
- `localeCompare` in `getNextHoliday`'s sort is modelled as code-point order, the same order as the `>` filter. For the `yyyy-MM-dd` keys the service yields, the two agree.
- The order of `Object.entries` is left out: the set of keys decides the result.
- `HolidayApi.KeyToDay` reads a two-digit year as 1900 + year, as `new Date` does. Day indices are not bounded to the range a `Date` accepts.
- `Calculations.GetNextPayday` builds `new Date(year, month, payDay)` with `MakeDay`, which has no 1900 + year rule. The year there comes from `now`, so the rule matters only for instants in the years 0 to 99.
- A key whose date does not parse gives an Invalid Date that the source's `format` would reject with an error. The model returns `InvalidDate` for it and does not model the walk from it.
- `Calculations.NextHolidayWalk`: the walk is proved to end on or after today only when the holiday's date is after today. The model does not prove that date order follows string order for the service's `yyyy-MM-dd` keys.
- `Calculations.NextPaydayIsNext`: stated for a pay day from 1 to 31 (the settings form's range). `new Date(y, m, 0)` and negative days are modelled but have no property proved.
- `getCurrentTimestamp` and `getAllTimestampCalculations` only read the clock and gather the other results, so they are not modelled.
- The exact wording of `formatCountdown`'s strings is left out. The model keeps the guard and the numeric decomposition.
- `src/lib/storage.ts` and all React components are not part of this model, apart from the `Settings` record and its defaults.

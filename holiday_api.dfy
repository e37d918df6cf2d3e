/**
 * The holiday calendar: a one-year cache of date-keyed holiday records fetched
 * from a holiday service, the re-keying of the service's `MM-dd` keys into
 * `yyyy-MM-dd` keys, the record-overrides-weekday workday rule, and the lookup of
 * the next rest day.
 */
module HolidayApi {
  import opened Wrappers
  import opened JsStrings
  import opened Calendar

  /**
   * One date's record. `holiday` is true for a rest day and false for a make-up
   * workday; `wage` is the pay multiplier the service reports.
   */
  datatype HolidayInfo = HolidayInfo(
    holiday: bool,
    name: string,
    wage: int,
    date: string,
    rest: Option<int>,
    after: Option<bool>,
    target: Option<string>)

  /** A calendar: records keyed by date string. */
  type HolidayData = map<string, HolidayInfo>

  /**
   * What fetching one year from the service yields: a failure of the transport,
   * of the HTTP status or of JSON decoding, or a decoded body whose `holiday`
   * member may be missing.
   */
  datatype ApiResponse = FetchFailed | Body(code: int, holiday: Option<HolidayData>)

  /** The body is accepted when `code === 0` and `holiday` is present. */
  predicate Accepted(response: ApiResponse) {
    response.Body? && response.code == 0 && response.holiday.Some?
  }

  /** `${year}-${key}`. */
  function FullDate(year: int, key: string): string {
    Itoa(year) + "-" + key
  }

  lemma FullDateInjective(year: int, a: string, b: string)
    requires FullDate(year, a) == FullDate(year, b)
    ensures a == b
  {
    var n := |Itoa(year)| + 1;
    assert a == FullDate(year, a)[n..];
    assert b == FullDate(year, b)[n..];
  }

  lemma FullDateIsInjective(year: int)
    ensures forall a, b :: FullDate(year, a) == FullDate(year, b) ==> a == b
  {
    forall a, b | FullDate(year, a) == FullDate(year, b) ensures a == b {
      FullDateInjective(year, a, b);
    }
  }

  /**
   * The re-keyed calendar: every service key `k` becomes `${year}-${k}` and its
   * record keeps every field except `date`, which becomes that full key.
   */
  function Rekeyed(year: int, raw: HolidayData): HolidayData {
    FullDateIsInjective(year);
    map k | k in raw :: FullDate(year, k) := raw[k].(date := FullDate(year, k))
  }

  /** The key transform keeps exactly the service's entries, re-keyed and re-dated. */
  lemma RekeyedEntries(year: int, raw: HolidayData)
    ensures forall k :: k in raw <==> FullDate(year, k) in Rekeyed(year, raw)
    ensures forall fk :: fk in Rekeyed(year, raw) ==> exists k :: k in raw && fk == FullDate(year, k)
    ensures forall k :: k in raw ==>
      var info := Rekeyed(year, raw)[FullDate(year, k)];
      && info.date == FullDate(year, k)
      && info.holiday == raw[k].holiday && info.name == raw[k].name && info.wage == raw[k].wage
      && info.rest == raw[k].rest && info.after == raw[k].after && info.target == raw[k].target
  {
    FullDateIsInjective(year);
    forall k | FullDate(year, k) in Rekeyed(year, raw) ensures k in raw {
      var k' :| k' in raw && FullDate(year, k') == FullDate(year, k);
      FullDateInjective(year, k, k');
    }
  }

  /** The re-keyed calendar has exactly as many entries as the service's. */
  lemma RekeyedSize(year: int, raw: HolidayData)
    ensures |Rekeyed(year, raw)| == |raw|
  {
    RekeyedEntries(year, raw);
    ImageSize(year, raw.Keys);
    var image := set k | k in raw.Keys :: FullDate(year, k);
    assert Rekeyed(year, raw).Keys == image;
  }

  lemma {:induction false} ImageSize(year: int, keys: set<string>)
    ensures |set k | k in keys :: FullDate(year, k)| == |keys|
    decreases |keys|
  {
    if keys != {} {
      var x :| x in keys;
      var rest := keys - {x};
      ImageSize(year, rest);
      var image := set k | k in keys :: FullDate(year, k);
      var restImage := set k | k in rest :: FullDate(year, k);
      assert image == restImage + {FullDate(year, x)};
      forall k | k in rest ensures FullDate(year, k) != FullDate(year, x) {
        if FullDate(year, k) == FullDate(year, x) {
          FullDateInjective(year, k, x);
        }
      }
      assert FullDate(year, x) !in restImage;
    }
  }

  /** The `forEach` that fills `processedHolidays` one entry at a time. */
  method ProcessHolidays(year: int, raw: HolidayData) returns (processed: HolidayData)
    ensures processed == Rekeyed(year, raw)
  {
    processed := map[];
    var remaining := raw.Keys;
    while remaining != {}
      invariant PartlyRekeyed(year, raw, processed, remaining)
      decreases |remaining|
    {
      var k :| k in remaining;
      var fullDate := FullDate(year, k);
      RekeyStep(year, raw, processed, remaining, k);
      processed := processed[fullDate := raw[k].(date := fullDate)];
      remaining := remaining - {k};
    }
    RekeyDone(year, raw, processed);
  }

  /**
   * The loop's invariant: every key of `raw` outside `remaining`, and no other,
   * has its entry in `processed` under its full date, re-dated.
   */
  ghost predicate PartlyRekeyed(year: int, raw: HolidayData, processed: HolidayData, remaining: set<string>) {
    && remaining <= raw.Keys
    && (forall k :: k in raw && k !in remaining <==> FullDate(year, k) in processed)
    && (forall fk :: fk in processed ==> exists k :: k in raw && k !in remaining && fk == FullDate(year, k))
    && (forall k :: k in raw && k !in remaining ==>
         FullDate(year, k) in processed && processed[FullDate(year, k)] == raw[k].(date := FullDate(year, k)))
  }

  /** Handling one more key keeps the invariant. */
  lemma RekeyStep(year: int, raw: HolidayData, processed: HolidayData, remaining: set<string>, k: string)
    requires PartlyRekeyed(year, raw, processed, remaining) && k in remaining
    ensures var fullDate := FullDate(year, k);
      PartlyRekeyed(year, raw, processed[fullDate := raw[k].(date := fullDate)], remaining - {k})
  {
    var fullDate := FullDate(year, k);
    forall k' | FullDate(year, k') == fullDate ensures k' == k {
      FullDateInjective(year, k', k);
    }
  }

  /** With no key left, the loop has built the re-keyed calendar. */
  lemma RekeyDone(year: int, raw: HolidayData, processed: HolidayData)
    requires PartlyRekeyed(year, raw, processed, {})
    ensures processed == Rekeyed(year, raw)
  {
    RekeyedEntries(year, raw);
  }

  /** The module-level cache `holidayCache` / `cacheYear` as a value. */
  datatype CacheState = CacheState(holidayCache: Option<HolidayData>, cacheYear: Option<int>) {
    /** `holidayCache && cacheYear === year` (an empty cached map still counts). */
    predicate Hit(year: int) {
      holidayCache.Some? && cacheYear == Some(year)
    }
  }

  /**
   * `getHolidayData(year)`: the calendar it returns and the cache it leaves. A hit
   * returns the cached map untouched; an accepted response replaces both cache
   * fields; any failure returns `{}` and leaves the cache as it was.
   */
  function Resolve(st: CacheState, year: int, response: ApiResponse): (r: (HolidayData, CacheState))
    ensures st.Hit(year) ==> r == (st.holidayCache.value, st)
    ensures !st.Hit(year) && Accepted(response) ==>
      r.1 == CacheState(Some(r.0), Some(year)) && r.0 == Rekeyed(year, response.holiday.value)
    ensures !st.Hit(year) && !Accepted(response) ==> r == (map[], st)
  {
    if st.Hit(year) then (st.holidayCache.value, st)
    else if Accepted(response) then
      var processed := Rekeyed(year, response.holiday.value);
      (processed, CacheState(Some(processed), Some(year)))
    else (map[], st)
  }

  /**
   * Asking for the same year again is a cache hit that returns the same calendar,
   * whatever the service would now answer, unless the first request failed
   * without a cache, in which case nothing was stored.
   */
  lemma ResolveTwice(st: CacheState, year: int, first: ApiResponse, second: ApiResponse)
    ensures var (m1, st1) := Resolve(st, year, first);
      if st.Hit(year) || Accepted(first) then Resolve(st1, year, second) == (m1, st1)
      else st1 == st && m1 == map[]
  {
  }

  /** The holder of the module-level cache. */
  class HolidayCache {
    var holidayCache: Option<HolidayData>
    var cacheYear: Option<int>

    function State(): CacheState
      reads this
    {
      CacheState(holidayCache, cacheYear)
    }

    constructor ()
      ensures holidayCache == None && cacheYear == None
    {
      holidayCache := None;
      cacheYear := None;
    }

    /** `getHolidayData(year)`, with the service's answer passed in as `response`. */
    method GetHolidayData(year: int, response: ApiResponse) returns (r: HolidayData)
      modifies this
      ensures (r, State()) == Resolve(old(State()), year, response)
      ensures old(State().Hit(year)) ==> r == old(holidayCache.value) && unchanged(this)
      ensures !old(State().Hit(year)) && !Accepted(response) ==> r == map[] && unchanged(this)
    {
      if holidayCache.Some? && cacheYear == Some(year) {
        return holidayCache.value;
      }
      if response.Body? && response.code == 0 && response.holiday.Some? {
        var processed := ProcessHolidays(year, response.holiday.value);
        holidayCache := Some(processed);
        cacheYear := Some(year);
        return processed;
      }
      return map[];
    }

    /** `getHolidayInfo(date)`. */
    function GetHolidayInfo(d: int): (r: Option<HolidayInfo>)
      reads this
      ensures holidayCache.None? ==> r.None?
      ensures holidayCache.Some? ==> (r.Some? <==> DateKey(d) in holidayCache.value)
      ensures r.Some? ==> r.value == holidayCache.value[DateKey(d)]
    {
      if holidayCache.None? then None
      else if DateKey(d) in holidayCache.value then Some(holidayCache.value[DateKey(d)])
      else None
    }
  }

  // ---------------------------------------------------------------------------
  // date keys

  /** The zero-padded `yyyy-MM-dd` key of a day, as the source builds it by hand. */
  function DateKey(d: int): string {
    CivilKey(CivilOf(d))
  }

  /** `getFullYear() + '-' + String(month).padStart(2, '0') + '-' + String(day).padStart(2, '0')`. */
  function CivilKey(c: Civil): string {
    Itoa(c.year) + "-" + PadStart2(Itoa(c.month)) + "-" + PadStart2(Itoa(c.day))
  }

  /** Different dates have different keys. */
  lemma CivilKeyInjective(ca: Civil, cb: Civil)
    requires ValidCivil(ca) && ValidCivil(cb) && CivilKey(ca) == CivilKey(cb)
    ensures ca == cb
  {
    var ya, ma, da := Itoa(ca.year), PadStart2(Itoa(ca.month)), PadStart2(Itoa(ca.day));
    var yb, mb, db := Itoa(cb.year), PadStart2(Itoa(cb.month)), PadStart2(Itoa(cb.day));
    PaddedLength(ca.month);
    PaddedLength(ca.day);
    PaddedLength(cb.month);
    PaddedLength(cb.day);
    ConcatCancelRight(ya + "-" + ma + "-", da, yb + "-" + mb + "-", db);
    ConcatCancelRight(ya + "-" + ma, "-", yb + "-" + mb, "-");
    ConcatCancelRight(ya + "-", ma, yb + "-", mb);
    ConcatCancelRight(ya, "-", yb, "-");
    ItoaInjective(ca.year, cb.year);
    PaddedInjective(ca.month, cb.month);
    PaddedInjective(ca.day, cb.day);
  }

  /** Different days have different keys. */
  lemma DateKeyInjective(a: int, b: int)
    requires DateKey(a) == DateKey(b)
    ensures a == b
  {
    CivilKeyInjective(CivilOf(a), CivilOf(b));
    CivilOfInjective(a, b);
  }

  /**
   * `new Date(year, month - 1, day)` after `dateStr.split('-').map(Number)`: None
   * stands for an Invalid Date (a missing part or a part that is NaN). A year in
   * 0..99 means 1900 + year, as the `Date` constructor reads it.
   */
  function KeyToDay(key: string): Option<int> {
    var parts := Split(key, '-');
    if |parts| < 3 then None
    else
      match (Number(parts[0]), Number(parts[1]), Number(parts[2]))
      case (Some(y), Some(m), Some(dd)) =>
        Some(MakeDay(if 0 <= y <= 99 then 1900 + y else y, m - 1, dd))
      case _ => None
  }

  /** Reading a key back gives the date it was built from (for years from 100 on). */
  lemma KeyToDayOfCivilKey(c: Civil)
    requires ValidCivil(c) && 100 <= c.year
    ensures KeyToDay(CivilKey(c)) == Some(DayOfCivil(c))
  {
    SplitCivilKey(c);
    NumberOfItoa(c.year);
    NumberOfPadded(c.month);
    NumberOfPadded(c.day);
    ReadDateParts(CivilKey(c), [Itoa(c.year), PadStart2(Itoa(c.month)), PadStart2(Itoa(c.day))], c.year, c.month, c.day);
    MakeDayInRange(c);
  }

  /** A key that splits into three numbers, the year from 100 on, reads as that date. */
  lemma ReadDateParts(key: string, parts: seq<string>, y: int, m: int, d: int)
    requires Split(key, '-') == parts && |parts| == 3 && 100 <= y
    requires Number(parts[0]) == Some(y) && Number(parts[1]) == Some(m) && Number(parts[2]) == Some(d)
    ensures KeyToDay(key) == Some(MakeDay(y, m - 1, d))
  {
  }

  lemma MakeDayInRange(c: Civil)
    requires 1 <= c.month <= 12
    ensures MakeDay(c.year, c.month - 1, c.day) == DayOfCivil(c)
  {
    assert (c.month - 1) / 12 == 0 && (c.month - 1) % 12 == c.month - 1;
  }

  lemma SplitCivilKey(c: Civil)
    requires 0 <= c.year && 0 <= c.month && 0 <= c.day
    ensures Split(CivilKey(c), '-') == [Itoa(c.year), PadStart2(Itoa(c.month)), PadStart2(Itoa(c.day))]
  {
    var y, m, dd := Itoa(c.year), PadStart2(Itoa(c.month)), PadStart2(Itoa(c.day));
    NumberOfPadded(c.month);
    NumberOfPadded(c.day);
    SeparatorNotInDigits(y, '-');
    SeparatorNotInDigits(m, '-');
    SeparatorNotInDigits(dd, '-');
    assert CivilKey(c) == y + ['-'] + m + ['-'] + dd;
    SplitThree(y, '-', m, dd);
  }

  /** Reading a day's key back gives the day (for years from 100 on). */
  lemma KeyToDayOfDateKey(d: int)
    requires 100 <= CivilOf(d).year
    ensures KeyToDay(DateKey(d)) == Some(d)
  {
    KeyToDayOfCivilKey(CivilOf(d));
  }

  // ---------------------------------------------------------------------------
  // the workday rule

  /**
   * `isWorkdayWithHoliday(date, holidayData)`: a record for the date decides
   * (`holiday: false` is a make-up workday, even on a weekend); without one,
   * Monday to Friday are workdays.
   */
  predicate IsWorkdayWithHoliday(d: int, data: HolidayData) {
    var key := DateKey(d);
    if key in data then !data[key].holiday else Weekday(d) != 0 && Weekday(d) != 6
  }

  /** A record overrides the weekday in both directions. */
  lemma RecordDecidesWorkday(d: int, data: HolidayData)
    requires DateKey(d) in data
    ensures IsWorkdayWithHoliday(d, data) <==> !data[DateKey(d)].holiday
  {
  }

  /** Without a record, the plain weekend rule applies. */
  lemma NoRecordMeansWeekendRule(d: int, data: HolidayData)
    requires DateKey(d) !in data
    ensures IsWorkdayWithHoliday(d, data) <==> !IsWeekend(d)
  {
  }

  /** An empty calendar, what a failed fetch yields, is exactly the weekend rule. */
  lemma EmptyCalendarIsWeekendRule(d: int)
    ensures IsWorkdayWithHoliday(d, map[]) <==> !IsWeekend(d)
  {
  }

  // ---------------------------------------------------------------------------
  // the next holiday

  /** A key that `getNextHoliday` keeps: strictly after today's key and a rest day. */
  predicate Upcoming(data: HolidayData, todayKey: string, k: string) {
    k in data && StrLess(todayKey, k) && data[k].holiday
  }

  predicate IsEarliest(k: string, keys: set<string>) {
    k in keys && forall k' :: k' in keys ==> !StrLess(k', k)
  }

  lemma {:induction false} EarliestExists(keys: set<string>)
    requires keys != {}
    ensures exists k :: IsEarliest(k, keys)
    decreases |keys|
  {
    var x :| x in keys;
    if keys != {x} {
      var rest := keys - {x};
      EarliestExists(rest);
      var m :| IsEarliest(m, rest);
      if StrLess(x, m) {
        StrLessIrreflexive(x);
        forall k' | k' in keys ensures !StrLess(k', x) {
          if k' != x && StrLess(k', x) {
            StrLessTransitive(k', x, m);
            assert false;
          }
        }
        StrLessIrreflexive(x);
        assert IsEarliest(x, keys);
      } else {
        if m != x {
          StrLessTotal(x, m);
          StrLessAsymmetric(m, x);
        }
        assert IsEarliest(m, keys);
      }
    } else {
      StrLessIrreflexive(x);
      assert IsEarliest(x, keys);
    }
  }

  lemma EarliestUnique(keys: set<string>)
    ensures forall a, b :: IsEarliest(a, keys) && IsEarliest(b, keys) ==> a == b
  {
    forall a, b | IsEarliest(a, keys) && IsEarliest(b, keys) ensures a == b {
      if a != b {
        StrLessTotal(a, b);
      }
    }
  }

  /** The first key after sorting with the string order. */
  function EarliestKey(keys: set<string>): (k: string)
    requires keys != {}
    ensures k in keys && forall k' :: k' in keys && k' != k ==> StrLess(k, k')
  {
    EarliestExists(keys);
    EarliestUnique(keys);
    var k :| IsEarliest(k, keys);
    forall k' | k' in keys && k' != k ensures StrLess(k, k') {
      StrLessTotal(k, k');
    }
    k
  }

  /** The key `getNextHoliday` settles on: the least upcoming key, if any. */
  function NextHolidayKey(data: HolidayData, today: int): (r: Option<string>)
    ensures r.None? <==> forall k :: k in data && StrLess(DateKey(today), k) ==> !data[k].holiday
    ensures r.Some? ==> Upcoming(data, DateKey(today), r.value)
    ensures r.Some? ==> forall k :: Upcoming(data, DateKey(today), k) && k != r.value ==> StrLess(r.value, k)
  {
    var todayKey := DateKey(today);
    var upcoming := set k | k in data && StrLess(todayKey, k) && data[k].holiday;
    if upcoming == {} then
      assert forall k :: k in data && StrLess(todayKey, k) && data[k].holiday ==> k in upcoming;
      None
    else Some(EarliestKey(upcoming))
  }

  /** `getNextHoliday`'s result: the date (None for an Invalid Date) and the name. */
  datatype NextHoliday = NextHoliday(date: Option<int>, name: string)

  /** `getNextHoliday(holidayData)` on day `today`. */
  function GetNextHoliday(data: HolidayData, today: int): (r: Option<NextHoliday>)
    ensures r.None? <==> NextHolidayKey(data, today).None?
    ensures r.Some? ==> var k := NextHolidayKey(data, today).value;
      r.value == NextHoliday(KeyToDay(k), data[k].name)
  {
    match NextHolidayKey(data, today)
    case None => None
    case Some(k) => Some(NextHoliday(KeyToDay(k), data[k].name))
  }
}

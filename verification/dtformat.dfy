/** The SQLite extension of tests/dtformat.c: the Gregorian calendar arithmetic
    of `RtlTimeToTimeFields` (integer-only, proleptic Gregorian, days counted
    from Monday 1601-01-01), `FileTimeToSystemTime`, the `datetime_format` SQL
    function and the GUID extractor behind `get_volumeid`/`get_objectid`.
    C's `/` and `%` truncate toward zero; they are written out as `CDiv`/`CMod`. */
module DtFormat {
  import opened Wrappers
  import opened Text

  // Ticks are 100 ns: 10000000 per second, 10000 per millisecond; a day has
  // 86400 seconds; day 0 (1601-01-01) is a Monday, weekday 1.
  /** 1601 to 1970 is 369 years plus 89 leap days. */
  const SECS_1601_TO_1970: int := 11644473600
  const TICKS_1601_TO_1970: int := 116444736000000000

  /** C division of `long` values: truncation toward zero. */
  function CDiv(a: int, b: int): (q: int)
    requires b > 0
    ensures a >= 0 ==> q == a / b
  {
    if a >= 0 then a / b else -((-a) / b)
  }

  /** C remainder: it takes the sign of the dividend. */
  function CMod(a: int, b: int): (r: int)
    requires b > 0
    ensures a >= 0 ==> r == a % b
  {
    if a >= 0 then a % b else -((-a) % b)
  }

  /** Conversion to a 16-bit `short` (CSHORT): two's-complement wrap-around. */
  function Short(x: int): (r: int)
    ensures -0x8000 <= r < 0x8000
    ensures -0x8000 <= x < 0x8000 ==> r == x
  {
    if -0x8000 <= x < 0x8000 then x else (x + 0x8000) % 0x1_0000 - 0x8000
  }

  /** Conversion to a 16-bit `unsigned short` (WORD). */
  function Word(x: int): (r: int)
    ensures 0 <= r < 0x1_0000
    ensures 0 <= x < 0x1_0000 ==> r == x
  {
    if 0 <= x < 0x1_0000 then x else x % 0x1_0000
  }

  /** The Gregorian rule. A remainder is zero under C's `%` exactly when it is
      zero under Dafny's, so the tests read the same for negative years. */
  predicate IsLeapYear(year: int) {
    year % 4 == 0 && (year % 100 != 0 || year % 400 == 0)
  }

  /** `MonthLengths[leap][month - 1]`. */
  function MonthLength(leap: bool, month: int): (n: int)
    requires 1 <= month <= 12
    ensures 28 <= n <= 31
  {
    if month == 2 then (if leap then 29 else 28)
    else if month == 4 || month == 6 || month == 9 || month == 11 then 30
    else 31
  }

  datatype TimeFields = TimeFields(
    year: int, month: int, day: int,
    hour: int, minute: int, second: int, milliseconds: int,
    weekday: int)

  /** The days component of a tick count. */
  function DaysOf(ticks: int): int {
    CDiv(CDiv(ticks, 10000000), 86400)
  }

  datatype Date = Date(year: int, month: int, day: int)

  /** The Gregorian date of day number `days` (day 0 is 1601-01-01): the days
      are shifted onto the Julian calendar by the number of skipped century
      leap days, then split into March-based years and months. */
  function DateOfDays(days: int): Date {
    JulianDate(JulianDays(days))
  }

  /** The date of a shifted day count on the Julian calendar, whose years
      run from March: the years, the day of the year, the month and the day
      of the month, with January and February moved into the next year. */
  function JulianDate(jdays: int): Date {
    var years := JulianYears(jdays);
    MarchDate(years, jdays - JulianYearStart(years))
  }

  /** The date of day `yearday` of March-based year `years`. */
  function MarchDate(years: int, yearday: int): Date {
    var months := MonthIndex(yearday);
    var month := if months < 14 then months - 1 else months - 13;
    var year := if months < 14 then years + 1524 else years + 1525;
    Date(year, month, yearday - MonthStart(months))
  }

  /** The century years not divisible by 400 up to day `days`, which the
      Julian calendar counts as leap years (146097 days per 400 years). */
  function CenturyLeaps(days: int): int {
    CDiv(3 * CDiv(4 * days + 1227, 146097) + 3, 4)
  }

  /** The shifted day count of day number `days`. */
  function JulianDays(days: int): int {
    days + 28188 + CenturyLeaps(days)
  }

  /** Julian years of 1461 / 4 days in a shifted day count. */
  function JulianYears(jdays: int): int {
    CDiv(20 * jdays - 2442, 5 * 1461)
  }

  function JulianYearStart(years: int): int {
    CDiv(years * 1461, 4)
  }

  /** March-based month index of a day of the year (30.6 days per month). */
  function MonthIndex(yearday: int): int {
    CDiv(64 * yearday, 1959)
  }

  function MonthStart(months: int): int {
    CDiv(1959 * months, 64)
  }

  /** The seconds elapsed in the current day. */
  function SecondOfDay(ticks: int): int {
    CMod(CDiv(ticks, 10000000), 86400)
  }

  /** The ticks elapsed in the current second. */
  function SubsecondTicks(ticks: int): int {
    CMod(ticks, 10000000)
  }

  /** The fields for day number `days`, second `inDay` of that day and `sub`
      ticks into that second; each is narrowed to a `short`. */
  function FieldsOf(days: int, inDay: int, sub: int): TimeFields {
    var date := DateOfDays(days);
    var inHour := CMod(inDay, 3600);
    TimeFields(Short(date.year), Short(date.month), Short(date.day),
               Short(CDiv(inDay, 3600)), Short(CDiv(inHour, 60)),
               Short(CMod(inHour, 60)), Short(CDiv(sub, 10000)),
               Short(CMod(1 + days, 7)))
  }

  /** The calendar fields `RtlTimeToTimeFields` computes for `ticks`
      (100 ns units since 1601-01-01 00:00:00). */
  function TimeFieldsOf(ticks: int): TimeFields {
    FieldsOf(DaysOf(ticks), SecondOfDay(ticks), SubsecondTicks(ticks))
  }

  /** The second half of `RtlTimeToTimeFields`: the date of day number `days`. */
  method DaysToDate(days: int) returns (year: int, month: int, day: int)
    ensures Date(year, month, day) == DateOfDays(days)
    ensures 0 <= days <= 10675199 ==> 1601 <= year <= 30828 && 1 <= month <= 12 && 1 <= day <= MonthLength(IsLeapYear(year), month)
  {
    var cleaps := CenturyLeaps(days);
    var jdays := days + 28188 + cleaps;
    var years := JulianYears(jdays);
    var yearday := jdays - JulianYearStart(years);
    var months := MonthIndex(yearday);
    if months < 14 {
      month := months - 1;
      year := years + 1524;
    } else {
      month := months - 13;
      year := years + 1525;
    }
    day := yearday - MonthStart(months);
    assert jdays == JulianDays(days) && DateOfDays(days) == MarchDate(years, yearday);
    if 0 <= days <= 10675199 {
      ValidDateOfDays(days);
    }
  }

  /** `RtlTimeToTimeFields`: splits a tick count into calendar fields, step by
      step as the C code does. */
  method RtlTimeToTimeFields(liTime: int) returns (tf: TimeFields)
    requires IsI64(liTime)
    ensures tf == TimeFieldsOf(liTime)
    ensures liTime >= 0 ==> ValidTimeOfDay(tf) && ValidDate(tf)
    ensures liTime >= 0 ==> tf.weekday == (1 + liTime / (10000000 * 86400)) % 7
  {
    var milliseconds := Short(CDiv(CMod(liTime, 10000000), 10000));
    var time := CDiv(liTime, 10000000);
    var days := CDiv(time, 86400);
    var secondsInDay := CMod(time, 86400);
    var hour := Short(CDiv(secondsInDay, 3600));
    var inHour := CMod(secondsInDay, 3600);
    var minute := Short(CDiv(inHour, 60));
    var second := Short(CMod(inHour, 60));
    var weekday := Short(CMod(1 + days, 7));
    var year, month, day := DaysToDate(days);
    tf := TimeFields(Short(year), Short(month), Short(day), hour, minute, second, milliseconds, weekday);
    if liTime >= 0 {
      TimeOfDayBounds(liTime);
      DateBounds(liTime);
      WeekdayOf(liTime);
    }
  }

  predicate ValidTimeOfDay(tf: TimeFields) {
    && 0 <= tf.milliseconds < 1000
    && 0 <= tf.hour < 24
    && 0 <= tf.minute < 60
    && 0 <= tf.second < 60
    && 0 <= tf.weekday < 7
  }

  predicate ValidDate(tf: TimeFields) {
    && 1601 <= tf.year <= 30828
    && 1 <= tf.month <= 12
    && 1 <= tf.day <= MonthLength(IsLeapYear(tf.year), tf.month)
  }

  /** The parts of a non-negative tick count are ordinary quotients and
      remainders, within the ranges `NonNegativeFields` needs. */
  lemma NonNegativeParts(ticks: int)
    requires 0 <= ticks <= I64_MAX
    ensures DaysOf(ticks) == ticks / (10000000 * 86400) <= 10675199
    ensures SecondOfDay(ticks) == ticks / 10000000 % 86400
    ensures SubsecondTicks(ticks) == ticks % 10000000
  {
    DivDiv(ticks, 10000000, 86400);
  }

  lemma TimeOfDayBounds(ticks: int)
    requires 0 <= ticks <= I64_MAX
    ensures ValidTimeOfDay(TimeFieldsOf(ticks))
  {
    NonNegativeParts(ticks);
    NonNegativeFields(DaysOf(ticks), SecondOfDay(ticks), SubsecondTicks(ticks));
  }

  /** Day 0 is a Monday, and each day moves the weekday on by one. */
  lemma WeekdayOf(ticks: int)
    requires 0 <= ticks <= I64_MAX
    ensures TimeFieldsOf(ticks).weekday == (1 + ticks / (10000000 * 86400)) % 7
  {
    NonNegativeParts(ticks);
    NonNegativeFields(DaysOf(ticks), SecondOfDay(ticks), SubsecondTicks(ticks));
  }

  /** The century correction is at least zero, and at most 219 for the days
      a non-negative 64-bit tick count can reach. */
  lemma CenturyLeapsRange(days: int)
    requires 0 <= days
    ensures 0 <= CenturyLeaps(days)
    ensures days <= 10675199 ==> CenturyLeaps(days) <= 219
  {
    var q := (4 * days + 1227) / 146097;
    assert 146097 * q <= 4 * days + 1227;
  }

  /** The shifted day count of day 0 or later falls in Julian year 76 or
      later, and in year 29304 at the latest for reachable days. */
  lemma JulianYearsRange(jdays: int)
    requires jdays >= 28188
    ensures 76 <= JulianYears(jdays)
    ensures jdays <= 10703606 ==> JulianYears(jdays) <= 29304
  {
    var x := 20 * jdays - 2442;
    var years := x / 7305;
    assert 7305 * years <= x < 7305 * years + 7305;
  }

  /** The computed day of the (March-based) Julian year lies in 123..488. */
  lemma YeardayRange(jdays: int)
    requires jdays >= 28188
    ensures 123 <= jdays - JulianYearStart(JulianYears(jdays)) <= 488
  {
    var x := 20 * jdays - 2442;
    var years := x / 7305;
    assert 7305 * years <= x < 7305 * years + 7305;
    var f := (years * 1461) / 4;
    assert 4 * f <= years * 1461 < 4 * f + 4;
  }

  /** Day 0 lands late in Julian year 76, so in January or February. */
  lemma FirstJulianYear(jdays: int)
    requires jdays >= 28188 && JulianYears(jdays) == 76
    ensures jdays - JulianYearStart(76) >= 429
  {
    assert JulianYearStart(76) == 27759;
  }

  /** The last reachable day lands early in Julian year 29304, before January. */
  lemma LastJulianYear(jdays: int)
    requires jdays <= 10703606 && JulianYears(jdays) == 29304
    ensures jdays - JulianYearStart(29304) <= 320
  {
    assert JulianYearStart(29304) == 10703286;
  }

  /** A day of the year in 123..488 gives a month index in 4..15 and a day
      within that month, counting February as 29 days. */
  lemma MonthDay(yearday: int)
    requires 123 <= yearday <= 488
    ensures var months := MonthIndex(yearday);
            var day := yearday - MonthStart(months);
            && 4 <= months <= 15
            && 1 <= day <= MonthLength(true, if months < 14 then months - 1 else months - 13)
    ensures yearday >= 429 ==> MonthIndex(yearday) >= 14
    ensures yearday <= 320 ==> MonthIndex(yearday) < 14
  {
    var months := (64 * yearday) / 1959;
    assert 1959 * months <= 64 * yearday < 1959 * months + 1959;
  }

  lemma DateOfDaysBounds(days: int)
    requires 0 <= days
    ensures var d := DateOfDays(days);
            1601 <= d.year && 1 <= d.month <= 12 && 1 <= d.day <= MonthLength(true, d.month)
    ensures days <= 10675199 ==> DateOfDays(days).year <= 30828
  {
    CenturyLeapsRange(days);
    var jdays := days + 28188 + CenturyLeaps(days);
    JulianYearsRange(jdays);
    YeardayRange(jdays);
    var years := JulianYears(jdays);
    MonthDay(jdays - JulianYearStart(years));
    assert DateOfDays(days) == MarchDate(years, jdays - JulianYearStart(years));
    if years == 76 {
      FirstJulianYear(jdays);
    }
    if days <= 10675199 && years == 29304 {
      LastJulianYear(jdays);
    }
  }

  /** A Julian February 29 only ever falls in a March-based year of the
      form 4a + 3, which ends in a calendar year divisible by 4. */
  lemma JulianLeapDay(jdays: int)
    requires jdays >= 28188 && jdays - JulianYearStart(JulianYears(jdays)) == 488
    ensures JulianYears(jdays) % 4 == 3
  {
    var years := (20 * jdays - 2442) / 7305;
    assert 7305 * years <= 20 * jdays - 2442 < 7305 * years + 7305;
    var f := (years * 1461) / 4;
    assert 4 * f <= years * 1461 < 4 * f + 4;
    assert f == 1461 * (years / 4) + 365 * (years % 4);
  }

  /** February 29 is the last day, 488, of a March-based Julian year. */
  lemma FebruaryYearday(yearday: int)
    requires 123 <= yearday <= 488
    requires var months := MonthIndex(yearday);
             (if months < 14 then months - 1 else months - 13) == 2 && yearday - MonthStart(months) == 29
    ensures yearday == 488 && MonthIndex(yearday) == 15
  {
    MonthDay(yearday);
    assert MonthStart(15) == 459;
  }

  /** The century correction skips the Julian February 29 of every century
      year `100 * m` that is not a multiple of 400: no day number lands on it. */
  lemma CenturyLeapDaySkipped(days: int, m: int)
    requires 0 <= days
    requires m % 4 != 0
    ensures days + 28188 + CenturyLeaps(days) != JulianYearStart(100 * m - 1525) + 488
  {
    var q := (4 * days + 1227) / 146097;
    var cleaps := (3 * q + 3) / 4;
    assert m == 4 * (m / 4) + m % 4;
    assert (1461 * (100 * m - 1525)) / 4 == 36525 * m - 557007;
    assert 146097 * q <= 4 * days + 1227 < 146097 * q + 146097;
    assert 4 * cleaps <= 3 * q + 3 < 4 * cleaps + 4;
    if q <= m - 18 {
    } else if q == m - 17 {
    } else if q == m - 16 {
    } else {
    }
  }

  /** A produced February 29 is day 488 of its Julian year, in the calendar
      year after that Julian year ends. */
  lemma FebruaryTwentyNinthYearday(days: int)
    requires 0 <= days
    requires DateOfDays(days).month == 2 && DateOfDays(days).day == 29
    ensures JulianDays(days) >= 28188
    ensures JulianDays(days) - JulianYearStart(JulianYears(JulianDays(days))) == 488
  {
    var jdays := JulianDays(days);
    var yearday := jdays - JulianYearStart(JulianYears(jdays));
    CenturyLeapsRange(days);
    YeardayRange(jdays);
    FebruaryYearday(yearday);
  }

  /** February 29 is only ever produced in a leap year. */
  lemma FebruaryTwentyNinth(days: int)
    requires 0 <= days
    requires DateOfDays(days).month == 2 && DateOfDays(days).day == 29
    ensures IsLeapYear(DateOfDays(days).year)
  {
    FebruaryTwentyNinthYearday(days);
    var jdays := JulianDays(days);
    var years := JulianYears(jdays);
    assert MonthIndex(488) == 15;
    assert DateOfDays(days).year == years + 1525;
    JulianLeapDay(jdays);
    var year := years + 1525;
    assert years == 4 * (years / 4) + 3;
    assert year == 4 * (years / 4 + 382);
    assert jdays == JulianYearStart(year - 1525) + 488;
    CenturyYearLeapDay(days, year);
  }

  /** A century year that is not a multiple of 400 never gets a February 29. */
  lemma CenturyYearLeapDay(days: int, year: int)
    requires 0 <= days && year % 4 == 0
    requires days + 28188 + CenturyLeaps(days) == JulianYearStart(year - 1525) + 488
    ensures IsLeapYear(year)
  {
    if year % 100 == 0 && year % 400 != 0 {
      var m := year / 100;
      CenturyOf(year);
      CenturyLeapDaySkipped(days, m);
    }
  }

  lemma CenturyOf(year: int)
    requires year % 100 == 0 && year % 400 != 0
    ensures 100 * (year / 100) == year && (year / 100) % 4 != 0
  {
  }

  lemma ValidDateOfDays(days: int)
    requires 0 <= days
    ensures var d := DateOfDays(days);
            1601 <= d.year && 1 <= d.month <= 12 && 1 <= d.day <= MonthLength(IsLeapYear(d.year), d.month)
    ensures days <= 10675199 ==> DateOfDays(days).year <= 30828
  {
    DateOfDaysBounds(days);
    LeapDay(days);
  }

  /** Every produced day lies within its month, February 29 only in leap years. */
  lemma LeapDay(days: int)
    requires 0 <= days
    ensures var d := DateOfDays(days);
            1 <= d.month <= 12 && 1 <= d.day <= MonthLength(IsLeapYear(d.year), d.month)
  {
    DateOfDaysBounds(days);
    var d := DateOfDays(days);
    if d.month == 2 && d.day == 29 {
      FebruaryTwentyNinth(days);
    }
  }

  // ---------------------------------------------------------------------------
  // Consecutive days
  //
  // `DateOfDaysSucc` states that one day number later is the `DayAfter` of
  // the date. Its proof follows the layers of `DateOfDays`, one group of
  // lemmas per layer:
  //   - the Julian year of a shifted day count;
  //   - the month within a year that starts on March 1;
  //   - one shifted day count to the next, as Julian dates;
  //   - the century correction, which either stays (`SuccWithinCentury`)
  //     or grows by one over a skipped February 29 (`SuccOverSkippedDay`,
  //     `CenturySkip`).

  /** The day after `d` in a year that is a leap year when `leap` holds: the
      next day of the month, the first of the next month, or January 1. */
  function DayAfter(d: Date, leap: bool): (r: Date)
    requires 1 <= d.month <= 12
    ensures 1 <= r.month <= 12
  {
    if d.day < MonthLength(leap, d.month) then Date(d.year, d.month, d.day + 1)
    else if d.month < 12 then Date(d.year, d.month + 1, 1)
    else Date(d.year + 1, 1, 1)
  }

  // Julian years

  /** The Julian year of a shifted day count starts on day 123 of the year
      count and ends before day 123 of the next. */
  lemma JulianYearBounds(jdays: int)
    requires jdays >= 28188
    ensures var years := JulianYears(jdays);
            JulianYearStart(years) + 123 <= jdays < JulianYearStart(years + 1) + 123
  {
    YeardayRange(jdays);
    JulianYearsRange(jdays);
    var years := (20 * jdays - 2442) / 7305;
    assert 7305 * years <= 20 * jdays - 2442 < 7305 * years + 7305;
    var f := ((years + 1) * 1461) / 4;
    assert 4 * f <= (years + 1) * 1461 < 4 * f + 4;
  }

  /** ... and those bounds decide the year. */
  lemma JulianYearsOf(jdays: int, years: int)
    requires years >= 0
    requires JulianYearStart(years) + 123 <= jdays < JulianYearStart(years + 1) + 123
    ensures JulianYears(jdays) == years
  {
    var f0 := (years * 1461) / 4;
    var f1 := ((years + 1) * 1461) / 4;
    assert 4 * f0 <= years * 1461 < 4 * f0 + 4;
    assert 4 * f1 <= (years + 1) * 1461 < 4 * f1 + 4;
    assert 7305 * years <= 20 * jdays - 2442 < 7305 * years + 7305;
  }

  /** A Julian year of the count has 366 days when it ends in a February of
      a calendar year divisible by 4, and 365 otherwise. */
  lemma JulianYearLength(years: int)
    requires years >= 0
    ensures JulianYearStart(years + 1) - JulianYearStart(years) == if years % 4 == 3 then 366 else 365
  {
    assert years * 1461 == 4 * (365 * years) + years;
    assert (years + 1) * 1461 == 4 * (365 * (years + 1)) + years + 1;
    assert years == 4 * (years / 4) + years % 4;
  }

  // Months of a March-based year

  /** The first day before each March-based month, from March (4) to the
      March after (16). */
  lemma MonthStarts()
    ensures MonthStart(4) == 122 && MonthStart(5) == 153 && MonthStart(6) == 183
    ensures MonthStart(7) == 214 && MonthStart(8) == 244 && MonthStart(9) == 275
    ensures MonthStart(10) == 306 && MonthStart(11) == 336 && MonthStart(12) == 367
    ensures MonthStart(13) == 397 && MonthStart(14) == 428 && MonthStart(15) == 459
    ensures MonthStart(16) == 489
  {
  }

  /** A month index is decided by the month starts around the day. */
  lemma MonthIndexOf(yearday: int, months: int)
    requires 4 <= months <= 15 && MonthStart(months) < yearday <= MonthStart(months + 1)
    ensures MonthIndex(yearday) == months
  {
    MonthStarts();
    var m := (64 * yearday) / 1959;
    assert 1959 * m <= 64 * yearday < 1959 * m + 1959;
    assert 64 * MonthStart(months) <= 1959 * months < 64 * MonthStart(months) + 64;
    assert 64 * MonthStart(months + 1) < 1959 * (months + 1);
  }

  /** The day of the year lies after the start of its month and no later
      than the start of the next. */
  lemma MonthAround(yearday: int)
    requires 123 <= yearday <= 488
    ensures var months := MonthIndex(yearday);
            MonthStart(months) < yearday <= MonthStart(months + 1)
  {
    MonthDay(yearday);
    var m := (64 * yearday) / 1959;
    assert 1959 * m <= 64 * yearday < 1959 * m + 1959;
    var f := (1959 * (m + 1)) / 64;
    assert 64 * f <= 1959 * (m + 1) < 64 * f + 64;
  }

  /** From March to January a month index spans as many days as the month
      has. */
  lemma MonthSpan(months: int)
    requires 4 <= months <= 14
    ensures MonthStart(months + 1) - MonthStart(months)
            == MonthLength(false, if months < 14 then months - 1 else months - 13)
  {
    MonthStarts();
  }

  // One Julian day to the next

  /** Within a March-based year, the next day of the year is the next
      date; February has 29 days when the year ends in a calendar year
      divisible by 4. */
  lemma MarchDateSucc(years: int, yearday: int)
    requires years >= 0 && 123 <= yearday < (if years % 4 == 3 then 488 else 487)
    ensures var d := MarchDate(years, yearday);
            1 <= d.month <= 12 && MarchDate(years, yearday + 1) == DayAfter(d, d.year % 4 == 0)
  {
    var months := MonthIndex(yearday);
    MonthDay(yearday);
    MonthAround(yearday);
    if yearday + 1 <= MonthStart(months + 1) {
      MonthIndexOf(yearday + 1, months);
      if months < 15 {
        MonthSpan(months);
      } else {
        assert MonthStart(15) == 459;
      }
    } else {
      MonthIndexOf(yearday + 1, months + 1);
      MonthSpan(months);
    }
  }

  /** The last day of a March-based year is February 28 or 29, and the
      next is March 1. */
  lemma MarchDateYearEnd(years: int)
    requires years >= 0
    ensures var d := MarchDate(years, if years % 4 == 3 then 488 else 487);
            1 <= d.month <= 12 && MarchDate(years + 1, 123) == DayAfter(d, d.year % 4 == 0)
  {
    MonthStarts();
    MonthIndexOf(if years % 4 == 3 then 488 else 487, 15);
    MonthIndexOf(123, 4);
  }

  /** One shifted day later is one Julian day later. */
  lemma JulianDateSucc(jdays: int)
    requires jdays >= 28188
    ensures var d := JulianDate(jdays);
            1 <= d.month <= 12 && JulianDate(jdays + 1) == DayAfter(d, d.year % 4 == 0)
  {
    var years := JulianYears(jdays);
    JulianYearBounds(jdays);
    JulianYearsRange(jdays);
    JulianYearLength(years);
    if jdays + 1 < JulianYearStart(years + 1) + 123 {
      JulianYearsOf(jdays + 1, years);
      MarchDateSucc(years, jdays - JulianYearStart(years));
    } else {
      JulianYearLength(years + 1);
      JulianYearsOf(jdays + 1, years + 1);
      MarchDateYearEnd(years);
    }
  }

  // The century correction

  /** From one day to the next the century correction grows by one at most,
      and only where the Julian calendar's February 29 of a century year
      `100 * m` that is not a multiple of 400 would follow. */
  lemma CenturyLeapsJump(days: int)
    requires 0 <= days && CenturyLeaps(days + 1) != CenturyLeaps(days)
    ensures CenturyLeaps(days + 1) == CenturyLeaps(days) + 1
    ensures var m := (4 * days + 1231) / 146097 + 16;
            m % 4 != 0 && JulianDays(days) + 1 == JulianYearStart(100 * m - 1525) + 488
  {
    var q := (4 * days + 1227) / 146097;
    var k := (4 * days + 1231) / 146097;
    assert 146097 * q <= 4 * days + 1227 < 146097 * q + 146097;
    assert 146097 * k <= 4 * days + 1231 < 146097 * k + 146097;
    assert k == q + 1;
    var m := k + 16;
    assert k == 4 * (k / 4) + k % 4;
    assert 1461 * (100 * m - 1525) == 4 * (36525 * k + 27393) + 3;
  }

  /** One day number later is the next Gregorian date: the day numbers of
      `RtlTimeToTimeFields` run through the calendar without gap or repeat. */
  lemma DateOfDaysSucc(days: int)
    requires 0 <= days
    ensures var d := DateOfDays(days);
            1 <= d.month <= 12 && DateOfDays(days + 1) == DayAfter(d, IsLeapYear(d.year))
  {
    if CenturyLeaps(days + 1) == CenturyLeaps(days) {
      SuccWithinCentury(days);
    } else {
      SuccOverSkippedDay(days);
    }
  }

  /** Where the century correction stays, the next day number is the next
      Julian date, and the two calendars only part on a February 29 that
      `RtlTimeToTimeFields` never produces outside leap years. */
  lemma SuccWithinCentury(days: int)
    requires 0 <= days && CenturyLeaps(days + 1) == CenturyLeaps(days)
    ensures var d := DateOfDays(days);
            1 <= d.month <= 12 && DateOfDays(days + 1) == DayAfter(d, IsLeapYear(d.year))
  {
    var d := DateOfDays(days);
    CenturyLeapsRange(days);
    LeapDay(days);
    JulianDateSucc(JulianDays(days));
    assert JulianDays(days + 1) == JulianDays(days) + 1;
    if d.month == 2 && d.day == 28 && d.year % 4 == 0 {
      FebruaryTwentyNinth(days + 1);
    }
    SameMonthLengths(d, d.year % 4 == 0, IsLeapYear(d.year));
  }

  /** Two leap rules give the same next day unless they part on the last
      days of February. */
  lemma SameMonthLengths(d: Date, leap: bool, leap': bool)
    requires 1 <= d.month <= 12 && (d.month != 2 || leap == leap' || d.day < 28)
    ensures DayAfter(d, leap) == DayAfter(d, leap')
  {
  }

  /** Where the century correction grows, the day number before is February
      28 of a century year without a leap day, and the next is March 1. */
  lemma SuccOverSkippedDay(days: int)
    requires 0 <= days && CenturyLeaps(days + 1) != CenturyLeaps(days)
    ensures var d := DateOfDays(days);
            1 <= d.month <= 12 && DateOfDays(days + 1) == DayAfter(d, IsLeapYear(d.year))
  {
    CenturyLeapsJump(days);
    var m := (4 * days + 1231) / 146097 + 16;
    CenturySkip(JulianDays(days), m);
    assert JulianDays(days + 1) == JulianDays(days) + 2;
  }

  /** The shifted day count just before a skipped February 29 is February
      28 of the century year, and two counts on is March 1. */
  lemma CenturySkip(jdays: int, m: int)
    requires m >= 16 && m % 4 != 0 && jdays + 1 == JulianYearStart(100 * m - 1525) + 488
    ensures JulianDate(jdays) == Date(100 * m, 2, 28) && JulianDate(jdays + 2) == Date(100 * m, 3, 1)
    ensures !IsLeapYear(100 * m)
  {
    var years := 100 * m - 1525;
    assert years % 4 == 3;
    JulianYearLength(years);
    JulianYearsOf(jdays, years);
    MarchDateSucc(years, 487);
    MarchDateYearEnd(years);
    JulianYearLength(years + 1);
    JulianYearsOf(jdays + 2, years + 1);
  }

  /** The day after February 28 is February 29 in a leap year and March 1
      otherwise. */
  lemma FebruaryTwentyEighthNext(days: int)
    requires 0 <= days && DateOfDays(days).month == 2 && DateOfDays(days).day == 28
    ensures var y := DateOfDays(days).year;
            DateOfDays(days + 1) == if IsLeapYear(y) then Date(y, 2, 29) else Date(y, 3, 1)
  {
    DateOfDaysSucc(days);
  }

  lemma DateBounds(ticks: int)
    requires 0 <= ticks <= I64_MAX
    ensures ValidDate(TimeFieldsOf(ticks))
  {
    NonNegativeParts(ticks);
    NonNegativeFields(DaysOf(ticks), SecondOfDay(ticks), SubsecondTicks(ticks));
    DateOfDaysBounds(DaysOf(ticks));
    LeapDay(DaysOf(ticks));
  }

  /** For a non-negative tick count no field wraps and every C division is
      an ordinary one. */
  lemma NonNegativeFields(days: int, inDay: int, sub: int)
    requires 0 <= days <= 10675199 && 0 <= inDay < 86400 && 0 <= sub < 10000000
    ensures var d := DateOfDays(days);
            FieldsOf(days, inDay, sub) == TimeFields(d.year, d.month, d.day,
              inDay / 3600, inDay % 3600 / 60, inDay % 60, sub / 10000, (1 + days) % 7)
  {
    DateOfDaysBounds(days);
    ClockFields(inDay);
  }

  /** Hour, minute and second of a second of the day, none of them wrapping. */
  lemma ClockFields(inDay: int)
    requires 0 <= inDay < 86400
    ensures Short(CDiv(inDay, 3600)) == inDay / 3600
    ensures Short(CDiv(CMod(inDay, 3600), 60)) == inDay % 3600 / 60
    ensures Short(CMod(CMod(inDay, 3600), 60)) == inDay % 60
  {
    assert inDay % 3600 % 60 == inDay % 60;
  }

  lemma FirstDate()
    ensures DateOfDays(0) == Date(1601, 1, 1)
  {
    assert CDiv(1227, 146097) == 0;
    assert CDiv(3, 4) == 0;
    assert CDiv(20 * 28188 - 2442, 7305) == 76;
    assert CDiv(76 * 1461, 4) == 27759;
    assert CDiv(64 * 429, 1959) == 14;
    assert CDiv(1959 * 14, 64) == 428;
  }

  lemma UnixEpochDate()
    ensures DateOfDays(134774) == Date(1970, 1, 1)
  {
    assert CDiv(4 * 134774 + 1227, 146097) == 3;
    assert CDiv(3 * 3 + 3, 4) == 3;
    assert CDiv(20 * (134774 + 28188 + 3) - 2442, 7305) == 445;
    assert CDiv(445 * 1461, 4) == 162536;
    assert CDiv(64 * 429, 1959) == 14;
    assert CDiv(1959 * 14, 64) == 428;
  }

  /** Tick 0 is Monday 1601-01-01 00:00:00.000. */
  lemma FirstDay()
    ensures TimeFieldsOf(0) == TimeFields(1601, 1, 1, 0, 0, 0, 0, 1)
  {
    assert DaysOf(0) == 0 && SecondOfDay(0) == 0 && SubsecondTicks(0) == 0;
    NonNegativeFields(0, 0, 0);
    FirstDate();
  }

  /** The Unix epoch is Thursday 1970-01-01 00:00:00.000. */
  lemma UnixEpochDay()
    ensures SECS_1601_TO_1970 == (369 * 365 + 89) * 86400
    ensures TICKS_1601_TO_1970 == SECS_1601_TO_1970 * 10000000
    ensures TimeFieldsOf(TICKS_1601_TO_1970) == TimeFields(1970, 1, 1, 0, 0, 0, 0, 4)
  {
    assert DaysOf(TICKS_1601_TO_1970) == 134774;
    assert SecondOfDay(TICKS_1601_TO_1970) == 0 && SubsecondTicks(TICKS_1601_TO_1970) == 0;
    NonNegativeFields(134774, 0, 0);
    UnixEpochDate();
  }

  // ---------------------------------------------------------------------------
  // FILETIME, SYSTEMTIME and FileTimeToSystemTime

  /** Two DWORDs; the code reads them as the LONGLONG `QuadPart` of a
      LARGE_INTEGER (low half first). */
  datatype FileTime = FileTime(dwLowDateTime: int, dwHighDateTime: int)

  predicate ValidFileTime(ft: FileTime) {
    0 <= ft.dwLowDateTime < 0x1_0000_0000 && 0 <= ft.dwHighDateTime < 0x1_0000_0000
  }

  /** The two halves read as one signed 64-bit value. */
  function QuadPart(ft: FileTime): (v: int)
    requires ValidFileTime(ft)
    ensures IsI64(v)
    ensures v < 0 <==> ft.dwHighDateTime >= 0x8000_0000
  {
    var u := ft.dwHighDateTime * 0x1_0000_0000 + ft.dwLowDateTime;
    if u <= I64_MAX then u else u - U64_LIMIT
  }

  /** The FILETIME whose bytes are those of the 64-bit value `v`. */
  function FileTimeOf(v: int): (ft: FileTime)
    requires IsI64(v)
    ensures ValidFileTime(ft) && QuadPart(ft) == v
  {
    var u := I64AsU64(v);
    FileTime(u % 0x1_0000_0000, u / 0x1_0000_0000)
  }

  /** Every field narrowed to a WORD, as assigning a CSHORT to a WORD does. */
  function AsWords(tf: TimeFields): (w: TimeFields)
    ensures ValidTimeOfDay(tf) && ValidDate(tf) ==> w == tf
  {
    TimeFields(Word(tf.year), Word(tf.month), Word(tf.day), Word(tf.hour),
               Word(tf.minute), Word(tf.second), Word(tf.milliseconds), Word(tf.weekday))
  }

  class SystemTime {
    var wYear: int
    var wMonth: int
    var wDayOfWeek: int
    var wDay: int
    var wHour: int
    var wMinute: int
    var wSecond: int
    var wMilliseconds: int

    /** A SYSTEMTIME on the stack; its initial contents are never read. */
    constructor()
      ensures Fields() == TimeFields(0, 0, 0, 0, 0, 0, 0, 0)
    {
      wYear, wMonth, wDayOfWeek, wDay := 0, 0, 0, 0;
      wHour, wMinute, wSecond, wMilliseconds := 0, 0, 0, 0;
    }

    function Fields(): TimeFields
      reads this
    {
      TimeFields(wYear, wMonth, wDay, wHour, wMinute, wSecond, wMilliseconds, wDayOfWeek)
    }
  }

  /** `FileTimeToSystemTime`: fails on a negative time and leaves `systime`
      alone; otherwise fills every field from `RtlTimeToTimeFields`. */
  method FileTimeToSystemTime(ft: FileTime, systime: SystemTime) returns (ok: bool)
    requires ValidFileTime(ft)
    modifies systime
    ensures ok <==> QuadPart(ft) >= 0
    ensures !ok ==> unchanged(systime)
    ensures ok ==> systime.Fields() == TimeFieldsOf(QuadPart(ft))
    ensures ok ==> ValidTimeOfDay(systime.Fields()) && ValidDate(systime.Fields())
    ensures WordFields(old(systime.Fields())) ==> WordFields(systime.Fields())
  {
    var li := QuadPart(ft);
    if li < 0 {
      return false;
    }
    var tf := RtlTimeToTimeFields(li);
    systime.wYear := Word(tf.year);
    systime.wMonth := Word(tf.month);
    systime.wDay := Word(tf.day);
    systime.wHour := Word(tf.hour);
    systime.wMinute := Word(tf.minute);
    systime.wSecond := Word(tf.second);
    systime.wMilliseconds := Word(tf.milliseconds);
    systime.wDayOfWeek := Word(tf.weekday);
    assert systime.Fields() == AsWords(tf);
    return true;
  }

  // ---------------------------------------------------------------------------
  // The SQL functions

  /** What a SQLite user function hands back: a text value, an error, or
      nothing at all (the SQL value is then NULL). */
  datatype SqlResult = ResultText(text: string) | ResultError(message: string) | ResultNull

  /** Every field fits a WORD, as in a SYSTEMTIME. */
  predicate WordFields(tf: TimeFields) {
    && 0 <= tf.year < 0x1_0000 && 0 <= tf.month < 0x1_0000 && 0 <= tf.day < 0x1_0000
    && 0 <= tf.hour < 0x1_0000 && 0 <= tf.minute < 0x1_0000 && 0 <= tf.second < 0x1_0000
    && 0 <= tf.milliseconds < 0x1_0000 && 0 <= tf.weekday < 0x1_0000
  }

  /** The `snprintf` format `%04d-%02d-%02dT%02d:%02d:%02d.%07lluZ`. */
  function SystemTimeText(st: TimeFields, fract: nat): string
    requires WordFields(st)
  {
    ZeroPadMin(st.year, 4) + "-" + ZeroPadMin(st.month, 2) + "-" + ZeroPadMin(st.day, 2)
      + "T" + ZeroPadMin(st.hour, 2) + ":" + ZeroPadMin(st.minute, 2) + ":" + ZeroPadMin(st.second, 2)
      + "." + ZeroPadMin(fract, 7) + "Z"
  }

  /** The 30-byte buffer `snprintf(buf, 30, ...)` leaves: at most 29 printed
      characters, their NUL terminator, then whatever `malloc` left there. */
  function Buffer30(printed: string, junk: char): (buf: string)
    ensures |buf| == 30 || (|printed| < 29 && |buf| == |printed| + 2) || |buf| == |printed| + 1
  {
    var kept := if |printed| <= 29 then printed else printed[..29];
    var filled := kept + ['\0'];
    if |filled| < 30 then filled + seq(30 - |filled|, _ => junk) else filled
  }

  /** The text the formatter prints for a non-negative 64-bit FILETIME value. */
  function DatetimeText(v: int): (text: string)
    requires 0 <= v <= I64_MAX
  {
    TimeOfDayBounds(v);
    DateBounds(v);
    SystemTimeText(TimeFieldsOf(v), v % 10000000)
  }

  /** `datetime_format(blob)`: the blob's first eight bytes, read as a 64-bit
      value `v`, formatted as a date. As written it hands all 30 bytes of its
      buffer to SQLite, NUL and uninitialised byte (`junk`) included. */
  method DatetimeFormat(v: int, junk: char) returns (r: SqlResult)
    requires IsI64(v)
    ensures v < 0 ==> r == ResultError("datetime_format error")
    ensures v >= 0 ==> r == ResultText(Buffer30(DatetimeText(v), junk))
  {
    var st := new SystemTime();
    var ok := FileTimeToSystemTime(FileTimeOf(v), st);
    if ok {
      var fract := CMod(v, 10000000);
      r := ResultText(Buffer30(SystemTimeText(st.Fields(), fract), junk));
    } else {
      r := ResultError("datetime_format error");
    }
  }

  /** `datetime_format` with the text's length passed as the length. */
  method DatetimeFormatFixed(v: int) returns (r: SqlResult)
    requires IsI64(v)
    ensures v < 0 ==> r == ResultError("datetime_format error")
    ensures v >= 0 ==> r == ResultText(DatetimeText(v))
  {
    var st := new SystemTime();
    var ok := FileTimeToSystemTime(FileTimeOf(v), st);
    if ok {
      var fract := CMod(v, 10000000);
      r := ResultText(SystemTimeText(st.Fields(), fract));
    } else {
      r := ResultError("datetime_format error");
    }
  }

  /** With a four-digit year and in-range fields the format prints exactly
      28 characters; the separators sit at fixed places and the seven digits
      after the point are the fraction. */
  lemma SystemTimeTextLayout(st: TimeFields, fract: nat)
    requires WordFields(st) && ValidTimeOfDay(st) && ValidDate(st) && st.year < 10000
    requires fract < 10000000
    ensures var text := SystemTimeText(st, fract);
            && |text| == 28
            && text[4] == '-' && text[7] == '-' && text[10] == 'T' && text[13] == ':' && text[16] == ':'
            && text[19] == '.' && text[27] == 'Z'
            && text[20..27] == ZeroPad(fract, 7)
            && '\0' !in text
  {
    assert Pow10(2) == 100 && Pow10(4) == 10000 && Pow10(7) == 10000000;
    var year, fraction := ZeroPadMin(st.year, 4), ZeroPadMin(fract, 7);
    var month, day := ZeroPadMin(st.month, 2), ZeroPadMin(st.day, 2);
    var hour, minute, second := ZeroPadMin(st.hour, 2), ZeroPadMin(st.minute, 2), ZeroPadMin(st.second, 2);
    DigitsHaveNoNul(year);
    DigitsHaveNoNul(month);
    DigitsHaveNoNul(day);
    DigitsHaveNoNul(hour);
    DigitsHaveNoNul(minute);
    DigitsHaveNoNul(second);
    DigitsHaveNoNul(fraction);
    Layout(year, month, day, hour, minute, second, fraction);
  }

  lemma DigitsHaveNoNul(s: string)
    requires forall k :: 0 <= k < |s| ==> IsDigit(s[k])
    ensures '\0' !in s
  {
  }

  /** Where each field of the format lands, for fields of their minimum width. */
  lemma Layout(year: string, month: string, day: string, hour: string, minute: string, second: string, fraction: string)
    requires |year| == 4 && |month| == 2 && |day| == 2 && |hour| == 2 && |minute| == 2 && |second| == 2
    requires |fraction| == 7
    requires '\0' !in year && '\0' !in month && '\0' !in day && '\0' !in hour
    requires '\0' !in minute && '\0' !in second && '\0' !in fraction
    ensures var text := year + "-" + month + "-" + day + "T" + hour + ":" + minute + ":" + second + "." + fraction + "Z";
            && |text| == 28
            && text[4] == '-' && text[7] == '-' && text[10] == 'T' && text[13] == ':' && text[16] == ':'
            && text[19] == '.' && text[27] == 'Z'
            && text[20..27] == fraction
            && '\0' !in text
  {
    var text := year + "-" + month + "-" + day + "T" + hour + ":" + minute + ":" + second + "." + fraction + "Z";
    assert text[20..27] == fraction;
    forall k | 0 <= k < |text|
      ensures text[k] != '\0'
    {
      if k < 4 { assert text[k] == year[k]; }
      else if 5 <= k < 7 { assert text[k] == month[k - 5]; }
      else if 8 <= k < 10 { assert text[k] == day[k - 8]; }
      else if 11 <= k < 13 { assert text[k] == hour[k - 11]; }
      else if 14 <= k < 16 { assert text[k] == minute[k - 14]; }
      else if 17 <= k < 19 { assert text[k] == second[k - 17]; }
      else if 20 <= k < 27 { assert text[k] == fraction[k - 20]; }
    }
  }

  lemma DatetimeTextLayout(v: int)
    requires 0 <= v <= I64_MAX
    requires TimeFieldsOf(v).year < 10000
    ensures var text := DatetimeText(v);
            && |text| == 28
            && text[19] == '.' && text[27] == 'Z'
            && DecimalValue(text[20..27]) == v % 10000000
            && '\0' !in text
  {
    TimeOfDayBounds(v);
    DateBounds(v);
    SystemTimeTextLayout(TimeFieldsOf(v), v % 10000000);
    assert Pow10(7) == 10000000;
    ZeroPadValue(v % 10000000, 7);
  }

  /** As written, the text SQLite receives from `datetime_format` is 30
      characters long and carries the NUL terminator and a stray byte after
      the 28 characters of the date. */
  lemma DatetimeFormatEmbedsNul(v: int, junk: char)
    requires 0 <= v <= I64_MAX
    requires TimeFieldsOf(v).year < 10000
    ensures var buf := Buffer30(DatetimeText(v), junk);
            |buf| == 30 && buf[..28] == DatetimeText(v) && buf[28] == '\0' && buf[29] == junk
  {
    DatetimeTextLayout(v);
    BufferOfDate(DatetimeText(v), junk);
  }

  /** A 28-character text fills the buffer up to its NUL and one byte after. */
  lemma BufferOfDate(printed: string, junk: char)
    requires |printed| == 28
    ensures Buffer30(printed, junk) == printed + ['\0', junk]
  {
    assert seq(1, _ => junk) == [junk];
  }

  /** FILETIME 0 prints as the first instant of 1601. */
  lemma DatetimeTextAtZero()
    ensures DatetimeText(0) == "1601-01-01T00:00:00.0000000Z"
  {
    FirstDay();
    FirstInstantText(TimeFieldsOf(0));
  }

  lemma FirstInstantText(tf: TimeFields)
    requires tf == TimeFields(1601, 1, 1, 0, 0, 0, 0, 1)
    ensures SystemTimeText(tf, 0) == "1601-01-01T00:00:00.0000000Z"
  {
    FirstInstantPads();
    assert SystemTimeText(tf, 0) == "1601" + "-" + "01" + "-" + "01" + "T" + "00" + ":" + "00" + ":" + "00" + "." + "0000000" + "Z";
    LiteralConcat();
  }

  /** The pieces of that text, joined (a proof step kept apart to keep the
      solver's work small). */
  lemma LiteralConcat()
    ensures "1601" + "-" + "01" + "-" + "01" + "T" + "00" + ":" + "00" + ":" + "00" + "." + "0000000" + "Z" == "1601-01-01T00:00:00.0000000Z"
  {
  }

  lemma FirstInstantPads()
    ensures ZeroPadMin(1601, 4) == "1601" && ZeroPadMin(1, 2) == "01" && ZeroPadMin(0, 2) == "00"
    ensures ZeroPadMin(0, 7) == "0000000"
  {
    assert Pow10(2) == 100 && Pow10(4) == 10000 && Pow10(7) == 10000000;
    assert ZeroPad(1, 1) == "1" && ZeroPad(16, 2) == "16" && ZeroPad(160, 3) == "160";
    assert ZeroPad(1601, 4) == "1601";
    assert ZeroPad(0, 1) == "0" && ZeroPad(1, 2) == "01" && ZeroPad(0, 2) == "00";
    assert ZeroPad(0, 3) == "000" && ZeroPad(0, 5) == "00000" && ZeroPad(0, 7) == "0000000";
  }

  // ---------------------------------------------------------------------------
  // get_volumeid / get_objectid

  /** A C string ends at its first NUL. */
  function CString(s: string): (r: string)
    ensures StartsWith(s, r) && '\0' !in r
    ensures |r| < |s| ==> s[|r|] == '\0'
  {
    if s == [] || s[0] == '\0' then [] else [s[0]] + CString(s[1..])
  }

  /** The text from just after the first `pat` through the first `}` after
      it; `None` when `pat` does not occur or no `}` follows it. */
  function GuidAfter(s: string, pat: string): (r: Option<string>)
    ensures IndexOf(s, pat).None? ==> r.None?
    ensures IndexOf(s, pat).Some? ==>
              var start := IndexOf(s, pat).value + |pat|;
              && (r.None? <==> '}' !in s[start..])
              && (r.Some? ==> && StartsWith(s[start..], r.value)
                              && EndsWith(r.value, "}")
                              && '}' !in r.value[..|r.value| - 1])
  {
    match IndexOf(s, pat)
    case None => None
    case Some(i) =>
      var rest := s[i + |pat|..];
      match IndexOf(rest, "}")
      case None =>
        NoBraceIn(rest);
        None
      case Some(j) =>
        FirstBraceIn(rest, j);
        Some(rest[..j + 1])
  }

  /** A text in which `}` is not found holds no `}`. */
  lemma NoBraceIn(t: string)
    requires IndexOf(t, "}").None?
    ensures '}' !in t
  {
    forall k | 0 <= k < |t|
      ensures t[k] != '}'
    {
      assert !OccursAt(t, "}", k);
      assert t[k..k + 1] == [t[k]];
    }
  }

  /** The first `}` of a text, at `j`, closes its prefix through `j`. */
  lemma FirstBraceIn(t: string, j: nat)
    requires IndexOf(t, "}") == Some(j)
    ensures j < |t|
    ensures var text := t[..j + 1];
            && '}' in t
            && StartsWith(t, text)
            && EndsWith(text, "}")
            && '}' !in text[..|text| - 1]
  {
    assert t[j..j + 1] == "}";
    var text := t[..j + 1];
    forall k | 0 <= k < |text| - 1
      ensures text[k] != '}'
    {
      assert !OccursAt(t, "}", k);
      assert t[k..k + 1] == [t[k]];
    }
    assert text[|text| - |"}"|..] == "}";
    assert t[j] == '}';
  }

  /** `extract_guid` as written: a NULL argument and a missing `pat` give no
      result, and when no `}` follows `pat` the length computed from the NULL
      `strchr` result is meaningless (`Panic`). */
  function ExtractGuid(str: Option<string>, pat: string): (r: Outcome<SqlResult>)
    ensures r == Panic <==> str.Some? && IndexOf(CString(str.value), pat).Some?
                            && GuidAfter(CString(str.value), pat).None?
  {
    match str
    case None => Ok(ResultNull)
    case Some(v) =>
      var s := CString(v);
      match IndexOf(s, pat)
      case None => Ok(ResultNull)
      case Some(_) =>
        match GuidAfter(s, pat)
        case None => Panic
        case Some(g) => Ok(ResultText(g))
  }

  /** `extract_guid` without the crash: the text from just after the first
      `pat` through the first `}` after it, or no result. */
  function ExtractGuidFixed(str: Option<string>, pat: string): (r: SqlResult)
    ensures r.ResultText? || r.ResultNull?
    ensures r.ResultText? ==>
              && str.Some?
              && var s := CString(str.value);
                 && IndexOf(s, pat).Some?
                 && (var start := IndexOf(s, pat).value + |pat|;
                     && StartsWith(s[start..], r.text)
                     && EndsWith(r.text, "}")
                     && '}' !in r.text[..|r.text| - 1])
    ensures r.ResultNull? ==>
              || str.None?
              || IndexOf(CString(str.value), pat).None?
              || '}' !in CString(str.value)[IndexOf(CString(str.value), pat).value + |pat|..]
  {
    match str
    case None => ResultNull
    case Some(v) =>
      match GuidAfter(CString(v), pat)
      case None => ResultNull
      case Some(g) => ResultText(g)
  }

  /** Where `extract_guid` does not crash, the fixed version returns the same. */
  lemma ExtractGuidFixedAgrees(str: Option<string>, pat: string)
    ensures ExtractGuid(str, pat) != Panic ==> ExtractGuid(str, pat).value == ExtractGuidFixed(str, pat)
  {
  }

  /** The crash is reachable: a value naming a volume id but missing its
      closing brace. */
  lemma ExtractGuidCrashes(s: string)
    requires s == "file:///x?VolumeId={AC04"
    ensures IndexOf(s, "VolumeId=").Some? && GuidAfter(s, "VolumeId=").None?
  {
    assert OccursAt(s, "VolumeId=", 10);
    assert '}' !in s;
  }
}

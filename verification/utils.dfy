/** src/utils.rs: FILETIME to `DateTime<Utc>`, the 7-digit timestamp format
    and `find_guid`. A `DateTime<Utc>` is modelled as an integer count of
    nanoseconds since 1970-01-01T00:00:00Z. (`from_utf16` is `Utf16.FromUtf16`.) */
module Utils {
  import opened Wrappers
  import opened Text
  import opened DtFormat

  /** 11644473600 seconds from 1601-01-01 to 1970-01-01, in nanoseconds. */
  const UNIX_EPOCH_NANOS: int := 11644473600_000_000_000

  /** Rust's `as i64` on a wider integer: keep the low 64 bits. */
  function WrapI64(x: int): (r: int)
    ensures IsI64(r)
    ensures IsI64(x) ==> r == x
    ensures (r - x) % U64_LIMIT == 0
  {
    (x - I64_MIN) % U64_LIMIT + I64_MIN
  }

  /** `get_date_time_from_filetime` as written: the exact nanosecond offset
      is computed in `i128` and then cast to `i64` before it becomes a
      `Duration`. */
  function FiletimeToUnixNanos(filetime: int): (t: int)
    requires IsU64(filetime)
    ensures IsI64(t)
  {
    WrapI64(filetime * 100 - UNIX_EPOCH_NANOS)
  }

  /** The instant a FILETIME denotes: 100 ns ticks since 1601-01-01. */
  function FiletimeToUnixNanosExact(filetime: int): (t: int)
    requires IsU64(filetime)
    ensures t >= -UNIX_EPOCH_NANOS && t % 100 == 0
    ensures (t + UNIX_EPOCH_NANOS) / 100 == filetime
  {
    filetime * 100 - UNIX_EPOCH_NANOS
  }

  /** The FILETIMEs whose instants fit an `i64` of nanoseconds:
      1677-09-21T00:12:43.1452242Z to 2262-04-11T23:47:16.8547758Z. */
  const FIRST_EXACT_FILETIME: int := 24211015631452242
  const LAST_EXACT_FILETIME: int := 208678456368547758

  /** As written, the conversion is exact precisely on that range. */
  lemma FiletimeExactRange(filetime: int)
    requires IsU64(filetime)
    ensures FIRST_EXACT_FILETIME <= filetime <= LAST_EXACT_FILETIME
            <==> FiletimeToUnixNanos(filetime) == FiletimeToUnixNanosExact(filetime)
  {
    var x := filetime * 100 - UNIX_EPOCH_NANOS;
    if filetime < FIRST_EXACT_FILETIME {
      assert x < I64_MIN;
    } else if filetime > LAST_EXACT_FILETIME {
      assert x > I64_MAX;
    }
  }

  /** As written, the conversion is not monotone: one tick after the last
      exact FILETIME lands 584 years earlier, and FILETIME 0 (1601) lands
      after the Unix epoch. */
  lemma FiletimeWrapsAround()
    ensures FiletimeToUnixNanos(LAST_EXACT_FILETIME + 1) < FiletimeToUnixNanos(LAST_EXACT_FILETIME)
    ensures FiletimeToUnixNanos(0) > 0
  {
    FiletimeExactRange(LAST_EXACT_FILETIME);
    var x := (LAST_EXACT_FILETIME + 1) * 100 - UNIX_EPOCH_NANOS;
    assert WrapI64(x) == x - U64_LIMIT by {
      DivUnique(x - I64_MIN, U64_LIMIT, 1, x - I64_MIN - U64_LIMIT);
    }
    var z := -UNIX_EPOCH_NANOS;
    assert WrapI64(z) == z + U64_LIMIT by {
      DivUnique(z - I64_MIN, U64_LIMIT, -1, z - I64_MIN + U64_LIMIT);
    }
  }

  /** The exact conversion is strictly monotone and maps the Unix epoch
      FILETIME to 0. */
  lemma FiletimeExactOrder(a: int, b: int)
    requires IsU64(a) && IsU64(b)
    ensures a < b <==> FiletimeToUnixNanosExact(a) < FiletimeToUnixNanosExact(b)
    ensures FiletimeToUnixNanosExact(TICKS_1601_TO_1970) == 0
  {
  }

  /** Every instant on a 100 ns boundary from 1601 on is some FILETIME's. */
  lemma FiletimeExactOnto(t: int)
    requires -UNIX_EPOCH_NANOS <= t && t % 100 == 0
    requires t + UNIX_EPOCH_NANOS < U64_LIMIT * 100
    ensures IsU64((t + UNIX_EPOCH_NANOS) / 100)
    ensures FiletimeToUnixNanosExact((t + UNIX_EPOCH_NANOS) / 100) == t
  {
  }

  // ---------------------------------------------------------------------------
  // format_date_time

  /** chrono's `%Y`: four digits, zero-padded; a year beyond 9999 is printed
      with an explicit `+`. */
  function YearText(year: nat): (r: string)
    ensures year < 10000 ==> && |r| == 4 && (forall k :: 0 <= k < |r| ==> IsDigit(r[k]))
                             && DecimalValue(r) == year
    ensures year >= 10000 ==> && |r| >= 2 && r[0] == '+'
                              && (forall k :: 1 <= k < |r| ==> IsDigit(r[k]))
                              && DecimalValue(r[1..]) == year
  {
    if year < 10000 then
      assert Pow10(4) == 10000;
      ZeroPadValue(year, 4);
      ZeroPad(year, 4)
    else
      DecimalRoundTrip(year);
      assert ("+" + Decimal(year))[1..] == Decimal(year);
      "+" + Decimal(year)
  }

  /** `%Y-%m-%dT%H:%M:%S` of the given fields. */
  function IsoSeconds(year: nat, month: nat, day: nat, hour: nat, minute: nat, second: nat): string {
    YearText(year) + "-" + ZeroPad(month, 2) + "-" + ZeroPad(day, 2)
      + "T" + ZeroPad(hour, 2) + ":" + ZeroPad(minute, 2) + ":" + ZeroPad(second, 2)
  }

  /** `%Y-%m-%dT%H:%M:%S` of the instant `t` (nanoseconds since 1970). */
  function SecondsText(t: int): string
    requires t >= -UNIX_EPOCH_NANOS
  {
    var secs := t / 1_000_000_000 + SECS_1601_TO_1970;
    var inDay := secs % 86400;
    DateOfDaysBounds(secs / 86400);
    var d := DateOfDays(secs / 86400);
    IsoSeconds(d.year, d.month, d.day, inDay / 3600, inDay % 3600 / 60, inDay % 60)
  }

  /** `format_date_time`: seven fractional digits when the two digits after
      them are zero, as they are for any FILETIME; otherwise chrono's RFC 3339
      text with nine digits. */
  function FormatDateTime(t: int): (r: string)
    requires t >= -UNIX_EPOCH_NANOS
  {
    var fractional := ZeroPad(t % 1_000_000_000, 9);
    if fractional[8] == '0' && fractional[7] == '0' then
      SecondsText(t) + "." + fractional[..7] + "Z"
    else
      SecondsText(t) + "." + fractional + "Z"
  }

  /** The last digit of a padding is the last digit of the number. */
  lemma ZeroPadLast(n: nat, width: nat)
    requires width >= 2
    ensures ZeroPad(n, width)[width - 1] == DigitChar(n % 10)
    ensures ZeroPad(n, width)[width - 2] == DigitChar(n / 10 % 10)
  {
    assert ZeroPad(n, width) == ZeroPad(n / 10, width - 1) + [DigitChar(n % 10)];
    assert ZeroPad(n / 10, width - 1) == ZeroPad(n / 10 / 10, width - 2) + [DigitChar(n / 10 % 10)];
  }

  lemma LastTwoDigits(n: nat)
    ensures n % 100 == (n / 10 % 10) * 10 + n % 10
  {
    DivDiv(n, 10, 10);
    assert n == (n / 10) * 10 + n % 10;
    assert n / 10 == (n / 100) * 10 + n / 10 % 10;
    assert n == (n / 100) * 100 + ((n / 10 % 10) * 10 + n % 10);
    DivUnique(n, 100, n / 100, (n / 10 % 10) * 10 + n % 10);
  }

  lemma DigitZero(d: nat)
    requires d < 10
    ensures DigitChar(d) == '0' <==> d == 0
  {
  }

  /** The fraction rule: seven digits (the nanoseconds divided by 100) exactly
      when the instant lies on a 100 ns boundary, nine digits otherwise. */
  lemma FormatDateTimeFraction(t: int)
    requires t >= -UNIX_EPOCH_NANOS
    ensures t % 100 == 0 ==> FormatDateTime(t) == SecondsText(t) + "." + ZeroPad(t % 1_000_000_000 / 100, 7) + "Z"
    ensures t % 100 != 0 ==> FormatDateTime(t) == SecondsText(t) + "." + ZeroPad(t % 1_000_000_000, 9) + "Z"
  {
    var n := t % 1_000_000_000;
    var fractional := ZeroPad(n, 9);
    assert fractional[8] == '0' && fractional[7] == '0' <==> t % 100 == 0 by {
      ZeroPadLast(n, 9);
      ModOfMod(t, 1_000_000_000, 100);
      DigitZero(n % 10);
      DigitZero(n / 10 % 10);
      LastTwoDigits(n);
    }
    if t % 100 == 0 {
      assert fractional[..7] == ZeroPad(n / 100, 7) by {
        ZeroPadPrefix(n, 9, 7);
        DivDiv(n, 10, 10);
      }
    }
  }

  /** A FILETIME's instant splits into whole seconds since 1601 and seven
      digits of 100 ns ticks, exactly as the FILETIME itself does. */
  lemma FiletimeSplit(ft: int)
    requires IsU64(ft)
    ensures FiletimeToUnixNanosExact(ft) / 1_000_000_000 + SECS_1601_TO_1970 == ft / 10_000_000
    ensures FiletimeToUnixNanosExact(ft) % 1_000_000_000 == ft % 10_000_000 * 100
  {
    var q, r := ft / 10_000_000, ft % 10_000_000;
    var t := FiletimeToUnixNanosExact(ft);
    assert t == (q - 11644473600) * 1_000_000_000 + r * 100;
    DivUnique(t, 1_000_000_000, q - 11644473600, r * 100);
  }

  /** Every FILETIME takes the seven-digit path of `format_date_time`, and
      its seven digits are the FILETIME's ticks within the second. */
  lemma FiletimeSevenDigits(ft: int)
    requires IsU64(ft)
    ensures var t := FiletimeToUnixNanosExact(ft);
            FormatDateTime(t) == SecondsText(t) + "." + ZeroPad(ft % 10_000_000, 7) + "Z"
  {
    var t := FiletimeToUnixNanosExact(ft);
    var r := ft % 10_000_000;
    assert t % 1_000_000_000 / 100 == r by {
      FiletimeSplit(ft);
      HundredsDiv(r);
    }
    FormatDateTimeFraction(t);
  }

  lemma HundredsDiv(r: int)
    ensures r * 100 / 100 == r
  {
  }

  // ---------------------------------------------------------------------------
  // A FILETIME column as sqlite.rs and ese.rs print it

  /** `format_date_time(get_date_time_from_filetime(ft))`, with the cast of
      the conversion as written. */
  function FiletimeText(filetime: int): string
    requires IsU64(filetime)
  {
    FormatDateTime(FiletimeToUnixNanos(filetime))
  }

  /** Inside the exact range a FILETIME prints as its instant's seconds and
      its own seven digits of ticks. */
  lemma FiletimeTextInRange(filetime: int)
    requires FIRST_EXACT_FILETIME <= filetime <= LAST_EXACT_FILETIME
    ensures FiletimeText(filetime)
            == SecondsText(FiletimeToUnixNanosExact(filetime)) + "." + ZeroPad(filetime % 10_000_000, 7) + "Z"
  {
    FiletimeExactRange(filetime);
    FiletimeSevenDigits(filetime);
  }

  /** Below the exact range, or above it by less than one wrap, the cast
      moves the instant by 2^64 ns, which is not a whole number of ticks:
      the text takes the nine-digit path of `format_date_time`. */
  lemma FiletimeTextNineDigits(filetime: int)
    requires 0 <= filetime < FIRST_EXACT_FILETIME
             || LAST_EXACT_FILETIME < filetime < LAST_EXACT_FILETIME + 184467440737095516
    ensures var t := FiletimeToUnixNanos(filetime);
            && t % 100 != 0
            && FiletimeText(filetime) == SecondsText(t) + "." + ZeroPad(t % 1_000_000_000, 9) + "Z"
  {
    var x := filetime * 100 - UNIX_EPOCH_NANOS;
    var t := FiletimeToUnixNanos(filetime);
    var q := filetime - 116444736000000000;
    assert x == q * 100;
    if filetime < FIRST_EXACT_FILETIME {
      DivUnique(x - I64_MIN, U64_LIMIT, -1, x - I64_MIN + U64_LIMIT);
      assert t == x + U64_LIMIT;
      DivUnique(t, 100, q + 184467440737095516, 16);
    } else {
      DivUnique(x - I64_MIN, U64_LIMIT, 1, x - I64_MIN - U64_LIMIT);
      assert t == x - U64_LIMIT;
      DivUnique(t, 100, q - 184467440737095517, 84);
    }
    FormatDateTimeFraction(t);
  }

  /** FILETIME 0, the usual value of an unset date, prints as an instant in
      2185 with nine fractional digits. */
  lemma FiletimeZeroText()
    ensures FiletimeToUnixNanos(0) == 6802270473709551616
    ensures FiletimeText(0) == SecondsText(6802270473709551616) + "." + ZeroPad(709551616, 9) + "Z"
  {
    FiletimeTextNineDigits(0);
    var t := FiletimeToUnixNanos(0);
    DivUnique(-UNIX_EPOCH_NANOS - I64_MIN, U64_LIMIT, -1, -UNIX_EPOCH_NANOS - I64_MIN + U64_LIMIT);
    assert t == 6802270473709551616;
    DivUnique(t, 1_000_000_000, 6802270473, 709551616);
  }

  // ---------------------------------------------------------------------------
  // RFC 3339 with microseconds (src/bin/external_cfg.rs)

  /** `to_rfc3339_opts(SecondsFormat::Micros, true)`: the seconds, six
      fractional digits (the microseconds within the second) and `Z`. */
  function Rfc3339Micros(t: int): (r: string)
    requires t >= -UNIX_EPOCH_NANOS
  {
    SecondsText(t) + "." + ZeroPad(t % 1_000_000_000 / 1000, 6) + "Z"
  }

  /** The six digits are the first six of the nine nanosecond digits; for a
      FILETIME's instant they are the seven digits of `format_date_time`
      without the last one. */
  lemma MicrosDropsLastTick(t: int)
    requires t >= -UNIX_EPOCH_NANOS
    ensures Rfc3339Micros(t) == SecondsText(t) + "." + ZeroPad(t % 1_000_000_000, 9)[..6] + "Z"
    ensures t % 100 == 0 ==>
              var seven := ZeroPad(t % 1_000_000_000 / 100, 7);
              && FormatDateTime(t) == SecondsText(t) + "." + seven + "Z"
              && Rfc3339Micros(t) == SecondsText(t) + "." + seven[..6] + "Z"
  {
    var n := t % 1_000_000_000;
    ZeroPadPrefix(n, 9, 6);
    DropThree(n);
    FormatDateTimeFraction(t);
    if t % 100 == 0 {
      ZeroPadPrefix(n / 100, 7, 6);
      DivDiv(n, 100, 10);
      DropOne(n / 100);
    }
  }

  lemma DropThree(n: nat)
    ensures DropDigits(n, 3) == n / 1000
  {
    assert DropDigits(n, 3) == DropDigits(n / 10 / 10, 1) == n / 10 / 10 / 10;
    DivDiv(n, 10, 10);
    DivDiv(n, 100, 10);
  }

  lemma DropOne(n: nat)
    ensures DropDigits(n, 1) == n / 10
  {
  }

  /** chrono's day and second of day for a FILETIME's instant are the day
      and second `RtlTimeToTimeFields` splits the FILETIME into. */
  lemma FiletimeCalendar(ft: int)
    requires 0 <= ft <= I64_MAX
    ensures var tf := TimeFieldsOf(ft);
            && 0 <= (FiletimeToUnixNanosExact(ft) / 1_000_000_000 + SECS_1601_TO_1970) / 86400 <= 10675199
            && InstantFields(FiletimeToUnixNanosExact(ft), tf.year, tf.month, tf.day, tf.hour, tf.minute, tf.second)
  {
    var t := FiletimeToUnixNanosExact(ft);
    var secs := t / 1_000_000_000 + SECS_1601_TO_1970;
    var days, inDay := DaysOf(ft), SecondOfDay(ft);
    assert secs / 86400 == days && secs % 86400 == inDay by {
      FiletimeSplit(ft);
      NonNegativeParts(ft);
      DivDiv(ft, 10_000_000, 86400);
    }
    NonNegativeParts(ft);
    NonNegativeFields(days, inDay, SubsecondTicks(ft));
    assert TimeFieldsOf(ft) == FieldsOf(days, inDay, SubsecondTicks(ft));
  }

  /** chrono's calendar and clock for a FILETIME's instant agree with the
      fields `RtlTimeToTimeFields` computes for the FILETIME. */
  lemma SecondsTextOfFiletime(ft: int)
    requires 0 <= ft <= I64_MAX
    ensures var tf := TimeFieldsOf(ft);
            && tf.year >= 0 && tf.month >= 0 && tf.day >= 0
            && tf.hour >= 0 && tf.minute >= 0 && tf.second >= 0
            && SecondsText(FiletimeToUnixNanosExact(ft))
               == IsoSeconds(tf.year, tf.month, tf.day, tf.hour, tf.minute, tf.second)
  {
    var tf := TimeFieldsOf(ft);
    FieldsNatural(ft);
    var t := FiletimeToUnixNanosExact(ft);
    FiletimeCalendar(ft);
    SecondsTextParts(t, tf.year, tf.month, tf.day, tf.hour, tf.minute, tf.second);
  }

  lemma FieldsNatural(ft: int)
    requires 0 <= ft <= I64_MAX
    ensures var tf := TimeFieldsOf(ft);
            tf.year >= 0 && tf.month >= 0 && tf.day >= 0 && tf.hour >= 0 && tf.minute >= 0 && tf.second >= 0
  {
    TimeOfDayBounds(ft);
    DateBounds(ft);
  }

  /** `SecondsText` names the date of the day and the clock of the second
      it finds. */
  lemma SecondsTextParts(t: int, year: nat, month: nat, day: nat, hour: nat, minute: nat, second: nat)
    requires t >= -UNIX_EPOCH_NANOS
    requires InstantFields(t, year, month, day, hour, minute, second)
    ensures SecondsText(t) == IsoSeconds(year, month, day, hour, minute, second)
  {
  }

  /** The calendar date and clock of the second that contains instant `t`. */
  ghost predicate InstantFields(t: int, year: int, month: int, day: int, hour: int, minute: int, second: int) {
    var secs := t / 1_000_000_000 + SECS_1601_TO_1970;
    && secs >= 0
    && DateOfDays(secs / 86400) == Date(year, month, day)
    && secs % 86400 / 3600 == hour && secs % 86400 % 3600 / 60 == minute && secs % 86400 % 60 == second
  }

  /** Field for field, chrono's `%Y-%m-%dT%H:%M:%S` followed by seven digits
      is the C format `%04d-%02d-%02dT%02d:%02d:%02d.%07lluZ`, except that
      chrono writes a `+` before a year past 9999. */
  lemma IsoMatchesSystemTimeText(tf: TimeFields, fract: nat)
    requires WordFields(tf) && ValidTimeOfDay(tf) && ValidDate(tf) && fract < 10_000_000
    ensures var rust := IsoSeconds(tf.year, tf.month, tf.day, tf.hour, tf.minute, tf.second)
                        + "." + ZeroPad(fract, 7) + "Z";
            rust == if tf.year < 10000 then SystemTimeText(tf, fract) else "+" + SystemTimeText(tf, fract)
  {
    SystemTimeTextSplit(tf, fract);
    IsoSecondsSplit(tf, fract);
    YearTextPadded(tf.year);
    SameTail(IsoSeconds(tf.year, tf.month, tf.day, tf.hour, tf.minute, tf.second) + "." + ZeroPad(fract, 7) + "Z",
             SystemTimeText(tf, fract), YearText(tf.year), ZeroPadMin(tf.year, 4), FieldsAfterYear(tf, fract),
             tf.year >= 10000);
  }

  /** Two texts that end alike and whose heads differ by a `+` differ by a `+`. */
  lemma SameTail(rust: string, c: string, head: string, cHead: string, tail: string, plus: bool)
    requires rust == head + tail && c == cHead + tail
    requires head == if plus then "+" + cHead else cHead
    ensures rust == if plus then "+" + c else c
  {
    if plus {
      assert ("+" + cHead) + tail == "+" + (cHead + tail);
    }
  }

  /** The C text is the padded year followed by the rest of the fields. */
  lemma SystemTimeTextSplit(tf: TimeFields, fract: nat)
    requires WordFields(tf) && ValidTimeOfDay(tf) && ValidDate(tf) && fract < 10_000_000
    ensures SystemTimeText(tf, fract) == ZeroPadMin(tf.year, 4) + FieldsAfterYear(tf, fract)
  {
    assert Pow10(2) == 100 && Pow10(7) == 10_000_000;
    assert ZeroPadMin(tf.month, 2) == ZeroPad(tf.month, 2);
    assert ZeroPadMin(tf.day, 2) == ZeroPad(tf.day, 2);
    assert ZeroPadMin(tf.hour, 2) == ZeroPad(tf.hour, 2);
    assert ZeroPadMin(tf.minute, 2) == ZeroPad(tf.minute, 2);
    assert ZeroPadMin(tf.second, 2) == ZeroPad(tf.second, 2);
    assert ZeroPadMin(fract, 7) == ZeroPad(fract, 7);
    Reassoc(ZeroPadMin(tf.year, 4), ZeroPad(tf.month, 2), ZeroPad(tf.day, 2),
            ZeroPad(tf.hour, 2), ZeroPad(tf.minute, 2), ZeroPad(tf.second, 2), ZeroPad(fract, 7));
  }

  /** The Rust text is chrono's year followed by the rest of the fields. */
  lemma IsoSecondsSplit(tf: TimeFields, fract: nat)
    requires WordFields(tf)
    ensures IsoSeconds(tf.year, tf.month, tf.day, tf.hour, tf.minute, tf.second) + "." + ZeroPad(fract, 7) + "Z"
            == YearText(tf.year) + FieldsAfterYear(tf, fract)
  {
    Reassoc(YearText(tf.year), ZeroPad(tf.month, 2), ZeroPad(tf.day, 2),
            ZeroPad(tf.hour, 2), ZeroPad(tf.minute, 2), ZeroPad(tf.second, 2), ZeroPad(fract, 7));
  }

  lemma Reassoc(y: string, m: string, d: string, h: string, mi: string, s: string, f: string)
    ensures y + "-" + m + "-" + d + "T" + h + ":" + mi + ":" + s + "." + f + "Z"
            == y + ("-" + m + "-" + d + "T" + h + ":" + mi + ":" + s + "." + f + "Z")
  {
  }

  /** Everything both formatters print after the year. */
  function FieldsAfterYear(tf: TimeFields, fract: nat): string
    requires WordFields(tf)
  {
    "-" + ZeroPad(tf.month, 2) + "-" + ZeroPad(tf.day, 2)
      + "T" + ZeroPad(tf.hour, 2) + ":" + ZeroPad(tf.minute, 2) + ":" + ZeroPad(tf.second, 2)
      + "." + ZeroPad(fract, 7) + "Z"
  }

  /** chrono's year is C's `%04d` year, with a `+` past 9999. */
  lemma YearTextPadded(year: nat)
    ensures YearText(year) == if year < 10000 then ZeroPadMin(year, 4) else "+" + ZeroPadMin(year, 4)
  {
    assert Pow10(4) == 10000;
  }

  /** The two formatters agree on every non-negative FILETIME: the Rust text
      is the C text, with chrono's `+` in front of a year past 9999. */
  lemma FormatDateTimeMatchesC(ft: int)
    requires 0 <= ft <= I64_MAX
    ensures FormatDateTime(FiletimeToUnixNanosExact(ft))
            == if TimeFieldsOf(ft).year < 10000 then DatetimeText(ft) else "+" + DatetimeText(ft)
  {
    FiletimeSevenDigits(ft);
    SecondsTextOfFiletime(ft);
    TimeOfDayBounds(ft);
    DateBounds(ft);
    IsoMatchesSystemTimeText(TimeFieldsOf(ft), ft % 10_000_000);
  }

  // ---------------------------------------------------------------------------
  // find_guid

  /** `find_guid`: the text from just after the first `v` in `inp` through
      the first `}` after it, or the empty string. */
  function FindGuid(inp: string, v: string): (r: string)
    ensures r == GuidAfter(inp, v).GetOr("")
  {
    match IndexOf(inp, v)
    case None => ""
    case Some(i) =>
      var start := i + |v|;
      match IndexOf(inp[start..], "}")
      case None => ""
      case Some(j) => inp[start..][..j + 1]
  }
}

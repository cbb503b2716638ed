# sidr, modelled in Dafny

sidr reads the Windows Search Indexer database and writes forensic reports.
The database comes in two forms:

- **ESE** (`Windows.edb`), read through an ESE parser library.
- **SQLite** (`Windows.db`), a property store that keeps one row per
  `(WorkId, ColumnId, Value)` triple.

The program writes three fixed reports per database (file, IE/Edge history, activity history). It can also write
configured reports, where a YAML file names the columns each report takes.
Every report is a CSV or a JSON file.

This project models the core of that pipeline:

- **Record reconstruction.** Consecutive SQLite rows that share a WorkId are folded into one record.
- **Routing.** Each record is sent to exactly one report.
- **ESE reader.** Columns are bound by name and width, and the cursor moves over the rows.
- **Report sinks.** The CSV and JSON writers keep a field buffer and a first-record flag.
- **Codecs.** `find_guid`, UTF-16LE and UTF-8 decoding, little-endian integers, and the FILETIME conversion with its 7-digit timestamp format.
- **C calendar.** The calendar arithmetic of the SQLite extension in `tests/dtformat.c`.

How the model represents the program:

- A report is the sequence of sink calls it receives (`Report.SinkCall`). The classes `Report.ReportCsv` and `Report.ReportJson` replay such a sequence into the text of the file.
- A database table is a sequence of rows.
- A Rust panic or a C crash is the `Panic` case of `Wrappers.Outcome`.
- `DateTime<Utc>` is an integer count of nanoseconds since 1970-01-01T00:00:00Z.

Modules:

| module | file | models |
|---|---|---|
| `Wrappers` | wrappers.dfy | `Option`, and `Outcome` for a result that may panic |
| `Text` | text.dfy | string search, replace, decimal and zero-padded numbers |
| `Utf16`, `Utf8` | utf16.dfy, utf8.dfy | `from_utf16`, the strict UTF-16 decoder, `String::from_utf8_lossy` |
| `Config`, `FromBytes` | config.dfy | the report configuration types (src/lib.rs:19-59), little-endian integers |
| `DtFormat` | dtformat.dfy | tests/dtformat.c |
| `Utils` | utils.dfy | src/utils.rs |
| `Report` | report.dfy | src/report.rs |
| `ReportUnitTests` | report_tests.dfy | the two unit tests of src/report.rs |
| `EseRecords` | esereader.dfy | `EseReader` and `field_size` of src/lib.rs and src/bin/external_cfg.rs |
| `SqlRecords` | sqlreader.dfy | `SqlReader` of src/lib.rs and src/bin/external_cfg.rs |
| `DoReport` | doreport.dfy | `do_report` of src/lib.rs and src/bin/external_cfg.rs |
| `SqliteReport` | sqlite_report.dfy | src/sqlite.rs |
| `EseReport` | ese_report.dfy | src/ese.rs |
| `ExternalCfg` | external_cfg.dfy | the command line and dispatch of src/bin/external_cfg.rs |

Two programs share much of this code:

- the library `src/lib.rs`;
- the stand-alone `src/bin/external_cfg.rs`.

Where they differ, a `Config.Variant` (`LibReader` or `CfgReader`) picks the behaviour.

## Model

| member | source | states |
|---|---|---|
| Text.I64AsU64 | src/lib.rs:592 | `v as u64`: non-negative values are kept, negative ones gain 2^64, and the result is a u64 |
| Text.IndexOf | src/utils.rs:43 | `str::find`: `Some` exactly when the pattern occurs, and then at its first occurrence |
| Text.IndexOfFrom | src/utils.rs:45 | search from an offset: the first occurrence at or after it, or none at all |
| Text.OccursAtShift | src/utils.rs:44-45 | an occurrence in `s[start..]` is an occurrence in `s` shifted by `start`, both ways |
| Text.ReplaceChar | src/lib.rs:543 | every occurrence of one character is replaced, and nothing else changes or moves |
| Text.ReplaceAll | src/sqlite.rs:146 | `str::replace` of a character by a string; a text without it is unchanged |
| Text.ReplaceAllAppend | src/report.rs:74-76 | replacing distributes over concatenation |
| Text.ItemsUpToJoin | src/report.rs:153-160 | the items written with a separator after all but the last are the joined items |
| Text.DigitValue | src/report.rs:212 | digit characters and their values are inverse |
| Text.Decimal | src/report.rs:212 | `to_string` of a u64: a non-empty string of digits with no leading zero |
| Text.DecimalRoundTrip | src/report.rs:212 | reading back the decimal text gives the number |
| Text.ZeroPad | src/utils.rs:19 | a fixed-width digit string |
| Text.ZeroPadValue | src/utils.rs:19 | the padded text reads back as the number when it fits |
| Text.ZeroPadPrefix | src/utils.rs:31 | the first k of w padded digits are the number without its last w-k digits, padded to k |
| Text.ZeroPadMin | tests/dtformat.c:184 | `%0Nd`: at least N digits, exactly the padded text when the number fits |
| Utf16.CodeUnits | src/utils.rs:53-57 | `|val| / 2` units, unit k being byte 2k plus 256 times byte 2k+1 |
| Utf16.DecodeLossy | src/utils.rs:58 | `String::from_utf16_lossy`: never more characters than units |
| Utf16.DecodeEncode | src/utils.rs:58 | decoding the UTF-16 encoding of any string, lossily or strictly, gives it back |
| Utf16.StrictIffWellFormed | src/bin/external_cfg.rs:234-237 | the strict decoder succeeds exactly on well-formed input, and then agrees with the lossy one |
| Utf16.CodeUnitsOfBytes | src/utils.rs:53-57 | cutting the little-endian bytes of code units gives the units back |
| Utf16.FromUtf16RoundTrip | src/utils.rs:52-59 | `from_utf16` of the UTF-16LE bytes of any string is that string |
| Utf16.OddByteIgnored | src/utils.rs:54 | a trailing odd byte changes neither the units nor the text |
| Utf16.AsciiLe | src/ese.rs:293 | the UTF-16LE bytes of an ASCII text: each character then a zero byte |
| Utf16.SpellsAsciiBytes | src/ese.rs:293 | units spell an ASCII text exactly when the bytes are its UTF-16LE bytes |
| Utf16.StartsWithAscii | src/ese.rs:293 | the decoded text starts with an ASCII prefix iff the bytes start with its UTF-16LE bytes |
| Utf16.EqualsAscii | src/ese.rs:322-323 | the decoded text equals an ASCII text iff the bytes are its UTF-16LE bytes, plus at most one odd byte |
| Utf8.DecodeStep | src/sqlite.rs:150 | one decoding step takes 1 to 4 bytes; an ASCII byte decodes to itself |
| Utf8.DecodeEncodeChar | src/sqlite.rs:150 | the UTF-8 bytes of a character decode as that character, in one step |
| Utf8.DecodeEncode | src/sqlite.rs:150 | `from_utf8_lossy` of the UTF-8 encoding of any string is that string |
| Utf8.EqualsAscii | src/sqlite.rs:199-200 | the lossy text equals an ASCII text iff the bytes are that text's bytes |
| Utf8.StartsWithAscii | src/sqlite.rs:180-181 | the lossy text starts with an ASCII prefix iff the bytes start with its bytes |
| FromBytes.LeUnsigned | src/ese.rs:47 | a little-endian unsigned value of the given width, below 256^width |
| FromBytes.LeSigned | src/lib.rs:114-126 | the two's-complement reading of the same bytes: in range, and equal to the unsigned value or that minus 256^width |
| FromBytes.U64FromBytes | src/sqlite.rs:157-161 | `u64::from_bytes`: a u64 |
| FromBytes.I64FromBytes | src/lib.rs:435 | `i64::from_bytes`: an i64 |
| FromBytes.LeRoundTrip | src/sqlite.rs:161 | reading back the little-endian bytes of a number that fits gives the number |
| FromBytes.LeIgnoresTail | src/sqlite.rs:161 | bytes past the width do not change the value |
| DtFormat.MonthLength | tests/dtformat.c:81-85 | the `MonthLengths` table: 28 to 31 days |
| DtFormat.DaysToDate | tests/dtformat.c:125-143 | the year, month and day arithmetic: for every FILETIME's day count, a valid Gregorian date in 1601..30828 |
| DtFormat.RtlTimeToTimeFields | tests/dtformat.c:94-145 | for non-negative ticks, a valid time of day and date, weekday `(1 + days) % 7` |
| DtFormat.TimeOfDayBounds | tests/dtformat.c:104-119 | milliseconds < 1000, hour < 24, minute < 60, second < 60 |
| DtFormat.WeekdayOf | tests/dtformat.c:67 | the weekday counts from Monday 1601-01-01 |
| DtFormat.ValidDateOfDays | tests/dtformat.c:125-143 | month in 1..12 and day within its month of that year |
| DtFormat.FebruaryTwentyNinth | tests/dtformat.c:87-90 | the arithmetic yields February 29 only in a leap year |
| DtFormat.LeapDay | tests/dtformat.c:125-143 | every produced day lies within its month of that year, so February 29 only in leap years |
| DtFormat.DateOfDaysSucc | tests/dtformat.c:125-143 | consecutive day numbers give consecutive Gregorian dates: the next day of the month, the first of the next month, or January 1 of the next year, with February 29 exactly in leap years |
| DtFormat.FebruaryTwentyEighthNext | tests/dtformat.c:125-143 | the day after February 28 is February 29 in a leap year and March 1 otherwise |
| DtFormat.SuccWithinCentury | tests/dtformat.c:125-143 | while `cleaps` stays the same, the next day number is the next Gregorian date |
| DtFormat.SuccOverSkippedDay | tests/dtformat.c:125-126 | where `cleaps` grows, the day before is February 28 of a century year without a leap day and the next is March 1 |
| DtFormat.CenturyLeapsJump | tests/dtformat.c:125 | `cleaps` grows by at most one per day, and only just before the Julian February 29 of a century year not divisible by 400 |
| DtFormat.CenturySkip | tests/dtformat.c:126-143 | the shifted days around a skipped Julian February 29 fall on February 28 and March 1 of that century year |
| DtFormat.JulianDateSucc | tests/dtformat.c:127-143 | one more shifted day is the next Julian date, with February 29 in years divisible by 4 |
| DtFormat.MarchDateSucc | tests/dtformat.c:129-143 | within a March-based year, the next day of the year is the next date |
| DtFormat.MarchDateYearEnd | tests/dtformat.c:129-143 | the last day of a March-based year is February 28 or 29, and the first day of the next is March 1 |
| DtFormat.JulianYearBounds | tests/dtformat.c:127-128 | the year `years` computed for a shifted day count starts at most that day and ends after it |
| DtFormat.JulianYearsOf | tests/dtformat.c:127-128 | a shifted day count between the starts of a year and the next gets that year |
| DtFormat.JulianYearLength | tests/dtformat.c:128 | a Julian year has 366 days when its February falls in a year divisible by 4, and 365 otherwise |
| DtFormat.MonthStarts | tests/dtformat.c:143 | `(1959 * months) / 64` for months 4 to 16 |
| DtFormat.MonthIndexOf | tests/dtformat.c:129 | a day of the year between the starts of a month and the next gets that month |
| DtFormat.MonthAround | tests/dtformat.c:129-143 | the computed month starts before the day of the year and the next starts at or after it |
| DtFormat.MonthSpan | tests/dtformat.c:139-143 | from March to January, consecutive month starts are as far apart as `MonthLengths` says |
| DtFormat.DateBounds | tests/dtformat.c:125-143 | every non-negative FILETIME gives a valid date |
| DtFormat.FirstDate | tests/dtformat.c:125-143 | day 0 is 1601-01-01 |
| DtFormat.UnixEpochDate | tests/dtformat.c:74 | day 134774 is 1970-01-01 |
| DtFormat.UnixEpochDay | tests/dtformat.c:74-75 | `SECS_1601_TO_1970` is 11644473600 seconds, and its ticks give 1970-01-01 00:00:00, a Thursday |
| DtFormat.QuadPart | tests/dtformat.c:150-152 | the FILETIME's two words as one signed 64-bit value, negative iff the high bit is set |
| DtFormat.FileTimeOf | tests/dtformat.c:150 | every i64 is the quad part of a FILETIME |
| DtFormat.FileTimeToSystemTime | tests/dtformat.c:147-167 | FALSE and no change on a negative time; otherwise TRUE with every field copied from the time fields |
| DtFormat.Buffer30 | tests/dtformat.c:179-186 | the 30 bytes handed to SQLite: the printed text, its NUL, and what follows |
| DtFormat.DatetimeFormat | tests/dtformat.c:169-190 | an error for a negative time, otherwise the whole 30-byte buffer |
| DtFormat.DatetimeFormatFixed | tests/dtformat.c:169-190 | an error for a negative time, otherwise the printed text alone |
| DtFormat.SystemTimeTextLayout | tests/dtformat.c:184-185 | the `%04d-%02d-%02dT%02d:%02d:%02d.%07lluZ` layout: 28 characters, dashes, `T`, colons, point and `Z` in place |
| DtFormat.DatetimeTextLayout | tests/dtformat.c:181-185 | the printed text of a time before year 10000 is 28 characters, NUL-free, with fraction `v % 10^7` |
| DtFormat.DatetimeFormatEmbedsNul | tests/dtformat.c:179-186 | the 30-byte result holds the text, a NUL and one more byte |
| DtFormat.DatetimeTextAtZero | tests/dtformat.c:184-185 | FILETIME 0 prints as 1601-01-01T00:00:00.0000000Z |
| DtFormat.CString | tests/dtformat.c:202 | a C string ends at its first NUL |
| DtFormat.GuidAfter | tests/dtformat.c:208-219 | from just after the first marker through the first `}`, or nothing when either is missing |
| DtFormat.NoBraceIn | tests/dtformat.c:213 | when the search for `}` fails, the text holds no `}` |
| DtFormat.FirstBraceIn | src/utils.rs:45-46 | the first `}` found ends a prefix of the text that holds no earlier `}` |
| DtFormat.ExtractGuid | tests/dtformat.c:201-220 | no result for NULL or a C string without the marker; crashes exactly when the marker occurs with no `}` after it |
| DtFormat.ExtractGuidFixed | tests/dtformat.c:201-220 | text when the marker and a `}` after it occur, no result otherwise |
| DtFormat.ExtractGuidFixedAgrees | tests/dtformat.c:201-220 | where the C code does not crash, the fixed version gives the same result |
| DtFormat.ExtractGuidCrashes | tests/dtformat.c:213-214 | a marker without a closing `}` makes `strchr` return NULL |
| Utils.WrapI64 | src/utils.rs:12 | `as i64`: in range, the identity on i64 values, congruent modulo 2^64 |
| Utils.FiletimeToUnixNanos | src/utils.rs:4-15 | `(ft*100 - epoch) as i64`: always an i64 |
| Utils.FiletimeToUnixNanosExact | src/utils.rs:5-7 | the exact nanoseconds: a whole number of ticks whose count since 1601 is the FILETIME |
| Utils.FiletimeExactRange | src/utils.rs:12 | the cast is exact exactly for FILETIMEs in [24211015631452242, 208678456368547758] |
| Utils.FiletimeWrapsAround | src/utils.rs:12 | one tick past that range the time jumps backwards, and FILETIME 0 lands after 1970 |
| Utils.FiletimeExactOrder | src/utils.rs:5-12 | the exact conversion is strictly monotone, and the 1970 FILETIME maps to 0 |
| Utils.FiletimeExactOnto | src/utils.rs:5-12 | every whole-tick time at or after 1601 comes from exactly that FILETIME |
| Utils.YearText | src/utils.rs:30 | chrono `%Y`: four digits below 10000, a `+` and the digits above |
| Utils.YearTextPadded | src/utils.rs:30 | `%Y` is the year padded to four digits, with `+` in front past 9999 |
| Utils.FormatDateTimeFraction | src/utils.rs:19-36 | the 7-digit text holds `nanos / 100` padded to 7 digits; the other path holds the nanoseconds padded to 9 |
| Utils.FiletimeSplit | src/utils.rs:5-12 | the exact time's seconds and nanoseconds are the FILETIME's seconds and ticks |
| Utils.FiletimeSevenDigits | src/utils.rs:25-33 | an exact FILETIME time takes the 7-digit path and prints its own ticks |
| Utils.FiletimeTextInRange | src/ese.rs:249-256 | in the exact range, the seconds, then `ft % 10^7` as 7 digits |
| Utils.FiletimeTextNineDigits | src/utils.rs:12 | outside the exact range, the wrapped time is not whole ticks and prints 9 digits |
| Utils.FiletimeZeroText | src/utils.rs:12 | FILETIME 0 becomes 6802270473709551616 ns and prints nine digits `709551616` |
| Utils.MicrosDropsLastTick | src/bin/external_cfg.rs:525 | the micro text is the first six of the nine nanosecond digits; for whole ticks, the 7-digit text without its last digit |
| Utils.FiletimeCalendar | src/utils.rs:10-12 | the exact time's seconds since 1601 give the C calendar's fields |
| Utils.SecondsTextOfFiletime | src/utils.rs:30 | the Rust seconds text of a FILETIME is built from the C calendar's fields |
| Utils.IsoMatchesSystemTimeText | tests/dtformat.c:184-185 | the Rust and C texts agree below year 10000; above it Rust adds `+` |
| Utils.FormatDateTimeMatchesC | tests/dtformat.c:169-190 | `format_date_time` of a non-negative FILETIME is the C extension's text, with `+` past year 9999 |
| Utils.FindGuid | src/utils.rs:41-50 | the text from just after the first marker through the next `}`, or "" |
| Report.ReportFileName | src/report.rs:31-45 | `<db file name>.<suffix>.<ext>`, panicking when the path has no file name |
| Report.CsvEscapeRoundTrip | src/report.rs:147-149 | quotes are paired after escaping, and unescaping gives the text back |
| Report.FindField | src/report.rs:180 | the first field with that name, or none when the name is absent |
| Report.Upsert | src/report.rs:178-186 | an existing field gets the value in place; a new one is appended; no other entry changes |
| Report.UpsertNames | src/report.rs:178-186 | names stay unique and in first-insertion order |
| Report.Cleared | src/report.rs:173 | the same names with every value empty |
| Report.CsvNewRecord | src/report.rs:194-205 | nothing written if every value is empty; otherwise the header once, `\n`, the values, and the values cleared |
| Report.CsvRunAppend | src/report.rs:189-218 | replaying two call sequences one after the other is replaying their concatenation |
| Report.CsvApplyValid | src/report.rs:189-218 | every call keeps field names unique and the header-written flag consistent with the output |
| Report.CsvRunValid | src/report.rs:189-218 | every run from a fresh report keeps that invariant |
| Report.ReportCsv.constructor | src/report.rs:138-145 | an empty file, an empty buffer, first record pending |
| Report.ReportCsv.UpdateFieldWithValue | src/report.rs:178-186 | the buffer becomes the upsert of the old one; the output is unchanged |
| Report.ReportCsv.WriteHeader | src/report.rs:151-161 | appends the field names joined by `,` |
| Report.ReportCsv.WriteValues | src/report.rs:163-176 | appends the values joined by `,` and empties every value |
| Report.ReportCsv.NewRecord | src/report.rs:194-205 | the state becomes `CsvNewRecord` of the old one |
| Report.ReportCsv.Footer | src/report.rs:190-192 | the footer flushes like `new_record` |
| Report.ReportCsv.StrVal | src/report.rs:207-209 | stores the quoted, escaped text under the field |
| Report.ReportCsv.IntVal | src/report.rs:211-213 | stores the decimal text under the field |
| Report.ReportCsv.SetField | src/report.rs:215-218 | stores the field with an empty value |
| Report.ReportCsv.Apply | src/report.rs:189-218 | one call of the `Report` trait changes the state as `CsvApply` says |
| Report.ReportCsv.Replay | src/report.rs:189-218 | a sequence of calls leaves the state `CsvRun` computes |
| Report.JsonEscapeRoundTrip | src/report.rs:74-76 | unescaping gives the text back, and every quote in the escaped text is escaped |
| Report.JsonRecordJoin | src/report.rs:78-95 | a record is `{`, the fragments joined by `,`, `}` |
| Report.JsonNewRecord | src/report.rs:104-113 | nothing for an empty buffer; otherwise `,\n` unless first, then the record, and the buffer emptied |
| Report.JsonRunAppend | src/report.rs:98-121 | replaying is compositional, as for CSV |
| Report.JsonApplyValid | src/report.rs:98-121 | every call keeps the output a `[` followed by records separated by `,\n` |
| Report.JsonFooterValid | src/report.rs:99-102 | the footer flushes the pending record and closes the array with `]` |
| Report.JsonRunValid | src/report.rs:98-121 | every run from a fresh report keeps that invariant |
| Report.ReportJson.constructor | src/report.rs:64-72 | the file holds `[`, the buffer is empty, first record pending |
| Report.ReportJson.WriteValues | src/report.rs:78-95 | appends the record of the buffer and empties it |
| Report.ReportJson.NewRecord | src/report.rs:104-113 | the state becomes `JsonNewRecord` of the old one |
| Report.ReportJson.Footer | src/report.rs:99-102 | the state after the footer call |
| Report.ReportJson.StrVal | src/report.rs:115-117 | buffers `"field":"escaped text"` |
| Report.ReportJson.IntVal | src/report.rs:119-121 | buffers `"field":decimal` |
| Report.ReportJson.Apply | src/report.rs:98-121 | one call changes the state as `JsonApply` says; `set_field` changes nothing |
| Report.ReportJson.Replay | src/report.rs:98-121 | a sequence of calls leaves the state `JsonRun` computes |
| Report.SetFields | src/ese.rs:132-164 | one `set_field` per declared name, in order |
| Report.RowsAppend | src/report.rs:104-113 | rows of concatenated call sequences add up |
| Report.DropCloses | src/report.rs:124-128 | `Drop`'s footer closes a report that was never closed exactly once, at its end, and starts no row |
| Report.CellsHaveNoRows | src/report.rs:115-121 | value calls alone start no row |
| ReportUnitTests.CsvTestOutput | src/report.rs:227-259 | the CSV test's exact file text |
| ReportUnitTests.JsonTestOutput | src/report.rs:261-290 | the JSON test's exact file text, escapes included |
| EseRecords.FieldSize | src/lib.rs:84-103 | the width of each known column type, `cbmax` for binary, 0 for text, a panic on any other type |
| EseRecords.FieldSizeWidths | src/lib.rs:86-100 | each fixed width, and a panic for types outside the table |
| EseRecords.FindColumn | src/lib.rs:158 | the first table column with that name, or none when no column has it |
| EseRecords.BoundPanics | src/lib.rs:154-172 | `init` panics exactly when some configured name is missing from the table |
| EseRecords.BoundBinds | src/lib.rs:154-172 | each title is bound by its last configured column, and other entries are kept |
| EseRecords.BoundKeys | src/lib.rs:160-164 | the bound titles are the old ones plus those with an ESE name |
| EseRecords.BoundLastWins | src/lib.rs:160-164 | a title's last configured column decides its id and width |
| EseRecords.PanicPersists | src/lib.rs:166-169 | a panic on a prefix of the columns is a panic of `init` |
| EseRecords.MoveRow | src/lib.rs:182-186 | `MoveFirst` succeeds on a non-empty table; `MoveNext` succeeds before the last row |
| EseRecords.Step | src/lib.rs:180-190 | a successful `next` lands on a row and gets closer to the end |
| EseRecords.LibVisitsEveryRow | src/lib.rs:180-190 | after `init`, the k-th `next` is on row k-1, and `next` succeeds n times |
| EseRecords.CfgStaysAtEnd | src/bin/external_cfg.rs:173-176 | once `next` fails it keeps failing |
| EseRecords.StepFailsAgain | src/lib.rs:180-190 | a `next` that failed keeps the row and leaves the cursor where the following `next` fails too |
| EseRecords.GetInt | src/lib.rs:228-240 | None for an unbound title or a NULL column; a panic for a width other than 1, 2, 4, 8; the signed value otherwise |
| EseRecords.UnsignedReadAsSigned | src/lib.rs:236 | a 4-byte column is read as signed: `00 00 00 80` is -2^31 |
| EseRecords.GetStr | src/lib.rs:242-253 | None for an unbound title or NULL column, otherwise the UTF-16 text; only the external_cfg reader panics |
| EseRecords.GetStrVariants | src/bin/external_cfg.rs:228-242 | the external_cfg reader panics exactly on ill-formed UTF-16, and otherwise agrees with the lib reader |
| EseRecords.GetDatetime | src/lib.rs:192-226 | None unless an 8-byte value is present; without the VARIANT branch, the FILETIME conversion of the value |
| EseRecords.EseReader.constructor | src/lib.rs:130-143 | the table, its rows, no bound columns, the cursor before the first row |
| EseRecords.EseReader.Init | src/lib.rs:148-177 | panics as `Bound` does; otherwise returns the titles with an ESE name and binds them; the lib reader resets `rec_no` |
| EseRecords.EseReader.Next | src/lib.rs:180-190 | the cursor moves as `Step` says, and the result says whether it landed on a row |
| SqlRecords.WorkIdKey | src/bin/external_cfg.rs:264 | the record key of the WorkId: `WorkId` or `WorkID` |
| SqlRecords.CodeColDict | src/lib.rs:343-352 | each non-empty code maps to the titles that use it, in configuration order |
| SqlRecords.FlattenTitles | src/lib.rs:354-359 | flattening the dictionary gives the titles of the listed codes |
| SqlRecords.TitlesOfAllCodes | src/lib.rs:354-359 | over all codes, those are exactly the titles with an SQL name |
| SqlRecords.TitleUnderItsCode | src/lib.rs:343-352 | every title is listed under its own code |
| SqlRecords.InitNamesAreTitles | src/lib.rs:340-370 | `init` returns each title with an SQL name once |
| SqlRecords.TitlesOf | src/lib.rs:354-359 | the loop's names are the flattened dictionary |
| SqlRecords.StoreTitles | src/bin/external_cfg.rs:303-314 | the lib reader stores under every title of a code, the external_cfg reader under the first |
| SqlRecords.StoredAt | src/lib.rs:312-327 | the value lands under the code's titles and nothing else changes; an unknown code changes nothing |
| SqlRecords.Scan | src/lib.rs:373-407 | the position only moves forward; at the end the record is unchanged |
| SqlRecords.ScanBuffered | src/lib.rs:373-407 | the same, for the version that keeps the row that ends a group |
| SqlRecords.GroupEnd | src/lib.rs:391-392 | the end of the run of rows sharing the WorkId |
| SqlRecords.ScanRestOfGroup | src/lib.rs:377-402 | the rest of a group is folded and the next row is consumed |
| SqlRecords.BufferedRestOfGroup | src/lib.rs:377-402 | the rest of a group is folded and the next row is kept |
| SqlRecords.NextReadsGroup | src/lib.rs:373-407 | `next` reads one whole group, records its WorkId, and consumes the row after it |
| SqlRecords.NextBufferedReadsGroup | src/lib.rs:373-407 | the buffered `next` reads one whole group and stops at the row after it |
| SqlRecords.NextGuard | src/lib.rs:382-387 | a WorkId below the last one ends `next` with an empty record |
| SqlRecords.NextAtEnd | src/lib.rs:377 | at the end, `next` finds nothing |
| SqlRecords.FoldLastWins | src/lib.rs:308 | the last row of a title in a group decides its value |
| SqlRecords.FoldKeeps | src/lib.rs:305-310 | titles no row of the group maps to keep their values |
| SqlRecords.NextBufferedStopsAtLarger | src/lib.rs:382-392 | on sorted rows, the buffered `next` stops at a larger WorkId |
| SqlRecords.NextLosesSecondGroup | src/lib.rs:377-392 | on two one-row groups, the second `next` returns an empty record |
| SqlRecords.NextBufferedKeepsSecondGroup | src/lib.rs:377-392 | the buffered version returns both groups |
| SqlRecords.SqlReader.constructor | src/lib.rs:283-295 | the rows, an empty dictionary and record, last WorkId 0, at the first row |
| SqlRecords.SqlReader.Init | src/lib.rs:340-370 | the dictionary becomes `CodeColDict` and the result its flattening |
| SqlRecords.SqlReader.NextRow | src/lib.rs:297-299 | steps to the next row, if any |
| SqlRecords.SqlReader.StoreValues | src/lib.rs:305-310 | stores the value under every name |
| SqlRecords.SqlReader.StoreValue | src/lib.rs:312-327 | the record becomes `Stored` of the current row's value |
| SqlRecords.SqlReader.Next | src/lib.rs:373-407 | the cursor, last WorkId and record become `Scan`'s; true iff the record is not empty |
| SqlRecords.SqlReader.NextBuffered | src/lib.rs:373-407 | the same for `ScanBuffered` |
| SqlRecords.GetInt | src/lib.rs:427-442 | None for an empty id, an absent title or NULL; Integer or Binary read as i64; a panic otherwise |
| SqlRecords.GetStr | src/lib.rs:444-458 | None for an empty id, an absent title or NULL; String returned; a panic otherwise |
| SqlRecords.GetDatetime | src/lib.rs:409-425 | None for an empty id, an absent title or NULL; Binary converted from FILETIME; a panic otherwise |
| SqlRecords.GetGuid | src/lib.rs:460-465 | `find_guid` of the text after `<id>=`, panicking and absent where `get_str` is |
| SqlRecords.GettersDisjoint | src/lib.rs:409-458 | a stored value satisfies `get_str` only if `get_int` and `get_datetime` panic on it, and so on |
| SqlRecords.GuidShape | src/lib.rs:460-465 | a GUID is "" or ends at its only `}` |
| DoReport.LastDot | src/lib.rs:552 | the last `.` of a name, or none |
| DoReport.Sanitized | src/lib.rs:543 | `\`, `/` and space become `_`, nothing else changes |
| DoReport.Stem | src/lib.rs:552 | the name before its extension |
| DoReport.OutputFileNameShape | src/lib.rs:549-558 | the file name ends in `.csv` or `.json` as the format says |
| DoReport.OutputFileNameClean | src/lib.rs:543 | the file name has no `\`, `/` or space |
| DoReport.SanitizedClean | src/lib.rs:543 | the sanitized title has none of them either, and gains no `.` |
| DoReport.OutputFileNameDotted | src/lib.rs:552-556 | a title with a dot loses its last extension |
| DoReport.SelectedIndices | src/lib.rs:562-568 | the configured columns whose title is used, in configuration order |
| DoReport.Selected | src/lib.rs:577-579 | those columns |
| DoReport.TimeTextVariants | src/bin/external_cfg.rs:525 | for whole ticks, the external_cfg text is the lib text without its last fraction digit |
| DoReport.CellCall | src/lib.rs:581-613 | one value per column: the text, the integer as u64, the time text, or "" when absent |
| DoReport.Header | src/lib.rs:570-572 | `set_field` for each used title in src/lib.rs, none in src/bin/external_cfg.rs |
| DoReport.RowCalls | src/lib.rs:577-615 | a row panics iff a getter panics, and otherwise has one call per column |
| DoReport.FramedHasNoFooter | src/lib.rs:574-616 | the rows contain no footer and no `set_field` |
| DoReport.SqlAnswer | src/lib.rs:581-613 | the getter that matches the column kind |
| DoReport.SqlRowsFramed | src/lib.rs:574-616 | the rows are `new_record` followed by one call per column |
| DoReport.SqlRowsStep | src/lib.rs:574-616 | the row loop, one `next` at a time |
| DoReport.SqlRow | src/lib.rs:577-615 | the loop over the columns computes `RowCalls` |
| DoReport.SetFieldCalls | src/lib.rs:570-572 | one `set_field` per used title |
| DoReport.SqlRowLoop | src/lib.rs:574-616 | the `while reader.next()` loop computes `SqlRows` and leaves the reader at `SqlRowsEnd`; the report is complete exactly when the record left behind is empty |
| DoReport.SqlRowsEnd | src/lib.rs:574-616 | where the row loop leaves the reader's cursor: the run of rows has no panic exactly when the last `next` returned an empty record |
| DoReport.DoSqlReport | src/lib.rs:536-619 | `do_report` over an SQLite reader computes `SqlReport`; afterwards the reader holds the configuration's multimap and stands at `SqlRowsEnd`, the cursor the next report of `do_reports` starts from |
| DoReport.EseAnswer | src/lib.rs:581-613 | the ESE getter for the column kind; GUID panics |
| DoReport.EseRow | src/lib.rs:577-615 | the loop over the columns computes `RowCalls` |
| DoReport.EseRowsStep | src/lib.rs:574-616 | the ESE row loop, one `next` at a time |
| DoReport.EseRowLoop | src/lib.rs:574-616 | the `while reader.next()` loop computes `EseRows`, leaves the cursor at `EseRowsEnd`, and after a complete run a further `next` fails |
| DoReport.EseRowsEnd | src/lib.rs:180-190 | where the row loop leaves the cursor; after a run without a panic the next `next` fails |
| DoReport.DoEseReport | src/lib.rs:536-619 | `do_report` over an ESE reader computes `EseReport`; when the columns bind, the reader keeps the bound map and stands at `EseRowsEnd` of the rewound (src/lib.rs) or unmoved (src/bin/external_cfg.rs) cursor, where after a complete report `next` fails |
| DoReport.LibEseRowsCount | src/lib.rs:574-616 | through the lib ESE reader a report has one row per remaining table row |
| DoReport.LibEseReportRows | src/lib.rs:174 | since `init` rewinds, every lib report has one row per table row |
| DoReport.CfgEseLaterReportEmpty | src/bin/external_cfg.rs:173-176 | once the external_cfg cursor is at the end, later reports have no rows |
| DoReport.CfgEseNextReportEmpty | src/bin/external_cfg.rs:457-461 | in `do_reports` on the external_cfg ESE reader, a report after one that completed is only `footer` when its columns bind |
| DoReport.EseGuidPanics | src/lib.rs:255-257 | a GUID column in an ESE report panics on the first row |
| DoReport.JsonFileDoubleBracket | src/lib.rs:618 | the explicit footer plus the one in `Drop` end the file with `]]` |
| DoReport.EmptyJsonReportAsWritten | src/report.rs:124-128 | an empty JSON report is `[]]` |
| DoReport.JsonOpenShape | src/report.rs:98-121 | before the footer, the file is `[` or ends with `}` |
| DoReport.JsonFileClosesOnce | src/report.rs:99-102 | with one footer, the file ends with one `]` |
| DoReport.JsonFooterShape | src/report.rs:99-102 | the footer appends `]` after the last record |
| DoReport.SqlReportJsonCloses | src/lib.rs:618 | every SQLite JSON report, footer written once, is `[` ... `]` |
| DoReport.EseRowsFramed | src/lib.rs:574-616 | the ESE rows are framed |
| DoReport.EseReportJsonCloses | src/lib.rs:618 | every ESE JSON report, footer written once, is `[` ... `]` |
| SqliteReport.WorkIdOf | src/sqlite.rs:118 | `as u32`: the WorkId modulo 2^32 |
| SqliteReport.PopulatePropertyIdMaps | src/sqlite.rs:44-61 | the loop builds `IdToProp` and `NameToId` |
| SqliteReport.PropertyMapsLastWins | src/sqlite.rs:57-58 | every row's id and name are keys; the last row with a key decides its entry |
| SqliteReport.PropertyMapsKeys | src/sqlite.rs:52-58 | every key comes from a row |
| SqliteReport.PropertyMapsInverse | src/sqlite.rs:219-220 | with distinct ids and names, both maps have one entry per row and are inverse |
| SqliteReport.InternetOnBytes | src/sqlite.rs:170-187 | internet iff the TargetUrl is known and its bytes start with `http` |
| SqliteReport.ActivityOnBytes | src/sqlite.rs:189-206 | activity iff the ItemType is known and its bytes are `ActivityHistoryItem` |
| SqliteReport.FieldName | src/sqlite.rs:146 | `.` becomes `_`, length kept |
| SqliteReport.PropertyCall | src/sqlite.rs:144-165 | one value for a known property of storage type 11 or 12, none otherwise |
| SqliteReport.DatePropertyText | src/sqlite.rs:152-158 | in the exact range, a date prints seconds and the FILETIME's 7 tick digits |
| SqliteReport.DatePropertyZero | src/sqlite.rs:157 | a zero date prints the wrapped time with 9 fraction digits |
| SqliteReport.PropertyCalls | src/sqlite.rs:143-167 | at most one call per property |
| SqliteReport.PropertyCallsAreCells | src/sqlite.rs:143-167 | every call is a value for a known property, in key order |
| SqliteReport.SupportedPropertiesInOrder | src/sqlite.rs:143-165 | for supported properties, exactly one call each, in key order |
| SqliteReport.WriteRecordToReport | src/sqlite.rs:134-168 | the loop over the sorted keys computes `RecordCalls` |
| SqliteReport.RecordCallsShape | src/sqlite.rs:140-141 | `new_record`, then WorkId, then value calls |
| SqliteReport.RecordCallsOrdered | src/sqlite.rs:143 | for supported properties, one call per column in ascending ColumnId |
| SqliteReport.Flush | src/sqlite.rs:103 | an empty record produces no group |
| SqliteReport.GroupsFromRuns | src/sqlite.rs:115-130 | the loop's groups are the runs of equal WorkIds |
| SqliteReport.GroupsAreRuns | src/sqlite.rs:115-130 | the grouping equals the independent run definition |
| SqliteReport.RunsShape | src/sqlite.rs:117-125 | runs are non-empty, have distinct neighbouring WorkIds, and cover the rows |
| SqliteReport.FoldLastWins | src/sqlite.rs:125 | a repeated ColumnId keeps its last value |
| SqliteReport.FoldKeys | src/sqlite.rs:125 | the record's keys are the group's ColumnIds |
| SqliteReport.HandleAllAppend | src/sqlite.rs:117-130 | handling groups is compositional |
| SqliteReport.HandleOne | src/sqlite.rs:101-113 | handling one group |
| SqliteReport.Handler | src/sqlite.rs:101-113 | the closure: route and write a non-empty record |
| SqliteReport.SqliteGenerateReport | src/sqlite.rs:65-132 | the reports are `SqliteReports` of the rows and metadata: opened with the `init_reports` headers, filled by the row loop, and each ended by the footer of its `Drop` |
| SqliteReport.ReportRows | src/sqlite.rs:115-130 | the loop, starting from the opened reports, computes the handling of `Groups` |
| SqliteReport.RecordCallsOneRow | src/sqlite.rs:140 | each record is one row |
| SqliteReport.HandleAddsOneRow | src/sqlite.rs:101-113 | one record adds exactly one row, to the report it is routed to |
| SqliteReport.HandleAllRows | src/sqlite.rs:101-113 | each group adds one row to exactly one report |
| SqliteReport.SqliteReportRows | src/sqlite.rs:65-132 | the three reports together have one row per WorkId run; neither the headers nor the footers add a row |
| SqliteReport.DroppedRows | src/sqlite.rs:115-131 | filling then dropping the reports adds exactly one row per group |
| SqliteReport.OpenedIsEmpty | src/shared.rs:28-72 | the declared header lists start no row and hold no footer |
| SqliteReport.SqliteReportsClosed | src/shared.rs:24-74 | each report begins with the header list `init_reports` declares on it and ends with its single footer |
| SqliteReport.DroppedClosed | src/report.rs:221-225 | filled reports keep what they started with and are closed once, at their end, when dropped |
| SqliteReport.HandleAllOpen | src/sqlite.rs:101-113 | the handler only appends to the reports and never calls `footer` |
| EseReport.Parts | src/ese.rs:18 | the property name of each column |
| EseReport.KeptInTableOrder | src/ese.rs:15-23 | kept columns are those selected, in table order, each once |
| EseReport.UnmatchedNames | src/ese.rs:25-36 | the names reported missing are the selected names no kept column has |
| EseReport.IsSelected | src/ese.rs:17-22 | the inner loop finds a name iff it is selected |
| EseReport.IsKept | src/ese.rs:27-32 | the inner loop finds a name iff a kept column has it |
| EseReport.PrepareSelectedCols | src/ese.rs:14-39 | the kept columns, and the missing names only when the counts differ |
| EseReport.ReadColumnsValues | src/ese.rs:186-216 | WorkID read as u32 (0 when NULL); the other non-NULL columns in the map |
| EseReport.ReadRow | src/ese.rs:186-216 | the loop over the kept columns computes `ReadColumns` |
| EseReport.FileCell | src/ese.rs:245-285 | at most one value, under the column's name |
| EseReport.IeCell | src/ese.rs:296-306 | at most one value, under the column's name |
| EseReport.ActivityCell | src/ese.rs:329-346 | ContentUri gives three values; other columns at most one |
| EseReport.Cell | src/ese.rs:245-346 | only value calls |
| EseReport.Cells | src/ese.rs:245-346 | the loop body over every column of a row: value calls only |
| EseReport.FileCellHandled | src/ese.rs:247-257 | a column gives a value iff it is one of the file report's fields |
| EseReport.IeCellHandled | src/ese.rs:298-304 | a column gives a value iff it is one of the IE report's fields |
| EseReport.ActivityCellHandled | src/ese.rs:331-344 | a column gives a value iff it is an activity field other than VolumeId and ObjectId |
| EseReport.ContentUriCells | src/ese.rs:339-344 | VolumeId and ObjectId from `find_guid`, then the raw URI |
| EseReport.GuidFound | src/utils.rs:41-50 | `find_guid` gives "" or the text after the marker through its first `}` |
| EseReport.CellsSnoc | src/ese.rs:245 | one more column appends its cells |
| EseReport.RecordShape | src/ese.rs:243-244 | `new_record`, WorkId, then values |
| EseReport.WriteCells | src/ese.rs:245-286 | the loop over the map, in some order of its keys, computes `Cells` |
| EseReport.IeRecordOnBytes | src/ese.rs:291-293 | IE iff the ItemUrl is present and its bytes start with `iehistory://` in UTF-16LE |
| EseReport.ActivityRecordOnBytes | src/ese.rs:317-326 | activity iff the ItemType is present and its bytes are `ActivityHistoryItem` in UTF-16LE, plus at most one odd byte |
| EseReport.EseDumpFileRecord | src/ese.rs:230-287 | the file record's calls |
| EseReport.EseIeHistoryRecord | src/ese.rs:290-312 | claims the row iff it is an IE row, and then writes its calls |
| EseReport.EseActivityHistoryRecord | src/ese.rs:315-349 | claims the row iff it is an activity row, and then writes its calls |
| EseReport.Route | src/ese.rs:217-219 | IE first, then activity, then file: exactly one |
| EseReport.RoutedSum | src/ese.rs:217-219 | every row goes to exactly one report |
| EseReport.AddRowRows | src/ese.rs:217-219 | a row adds one record to its report and only appends |
| EseReport.EmitRows | src/ese.rs:186-225 | each report gains one record per row routed to it |
| EseReport.EmitExtends | src/ese.rs:186-225 | reports only grow |
| EseReport.EseReportRows | src/ese.rs:130-225 | each report starts with its header and has one record per row routed to it; the total is the row count |
| EseReport.EmitStep | src/ese.rs:186-225 | the row loop, one row at a time |
| EseReport.EseGenerateReport | src/ese.rs:119-227 | an error exactly for an empty table; otherwise the headers, every row routed, and the footer `Drop` adds to each report |
| EseReport.EseReportsClosed | src/ese.rs:119-227 | each dropped report opens with its declared fields, holds one record per row routed to it, and is closed once, at its end |
| EseReport.EmitOpen | src/ese.rs:217-219 | writing rows never calls `footer` |
| EseReport.ReportRow | src/ese.rs:186-220 | one pass of the loop: read, route, write, forget |
| ExternalCfg.LowerChar | src/bin/external_cfg.rs:595 | ASCII upper case is lowered, everything else kept |
| ExternalCfg.ToLower | src/bin/external_cfg.rs:595 | lowers each character |
| ExternalCfg.ParseFormat | src/bin/external_cfg.rs:595-599 | `json` or `csv` in any case, a panic otherwise |
| ExternalCfg.ParseFormatNames | src/bin/external_cfg.rs:595-599 | the extension names and upper-case spellings parse |
| ExternalCfg.ApplyCliAsWritten | src/bin/external_cfg.rs:590-600 | without `--outdir` the configuration is unchanged |
| ExternalCfg.AsWrittenIgnoresFormat | src/bin/external_cfg.rs:594 | `--format` never matters; `--outdir` sets both directory and format |
| ExternalCfg.OutdirParsedAsFormat | src/bin/external_cfg.rs:594-599 | `--outdir reports --format csv` panics |
| ExternalCfg.ApplyCli | src/bin/external_cfg.rs:590-600 | the directory from `--outdir`, the format from `--format`, a panic only for a bad format |
| ExternalCfg.ApplyCliOutdirIndependent | src/bin/external_cfg.rs:590-600 | the directory never affects the format or success |
| ExternalCfg.ReaderFor | src/bin/external_cfg.rs:602-606 | ESE for `Windows.edb`, SQLite for `Windows.db`, nothing otherwise |

## Left out

- src/main.rs (directory walk and argument parsing), src/shared.rs, the YAML loading, the clap parsing and the logger setup: I/O and argument handling, not modelled.
- The ESE parser library and the sqlite crate are not part of this model. A table is a column list and a row sequence, and a statement is a row sequence with a cursor.
- Database errors: the `?` early returns of src/sqlite.rs and src/ese.rs and the `unwrap` panics on library errors are not modelled. Every library call is taken to succeed.
- The hostname query (src/sqlite.rs:16-42) is not modelled, nor the part of `init_reports` that opens the sinks, names the files from the hostname and logs their paths. Its `set_field` header lists (src/shared.rs:28-72) are modelled: `SqliteReport.OPENED` is where the SQLite reports start.
- `ReportProducer::new` directory creation, `eprintln!`/`println!` text and logging are not modelled. Only the missing-column names that `prepare_selected_cols` prints are returned as a value.
- The csv-crate `ReportCsv` of src/lib.rs:474-527, which `do_report` uses for CSV, is not modelled. The JSON path uses `ReportJson` of src/report.rs and is modelled.
- `Drop` is not modelled as such; its `footer` call is written out where the report goes out of scope. `SqliteReports` and `EseGenerateReport` end each of their three reports with it, and `JsonFileAsWritten` adds it after the explicit footer of `do_report`.
- src/sqlite.rs calls `create_new_row`, `insert_int_val` and `insert_str_val`, which the `Report` trait of src/report.rs does not declare. The model reads them as `new_record`, `int_val` and `str_val`.
- `HashMap` iteration order is unspecified. `EseReport.WriteCells` visits the map in an order it returns; sorted iteration (src/sqlite.rs:143) is modelled as ascending keys.
- `do_reports` is not a member of its own. `DoSqlReport` and `DoEseReport` state the reader they leave (`SqlRowsEnd`, `EseRowsEnd`), which is where the next report of the loop starts. The SQLite statement is not restarted between reports, and SQLite's own reset after a finished statement is not modelled.
- The VARIANT-time branch of `get_datetime` (floating point and `VariantTimeToSystemTime`) is the parameter `variantTime`. Only its absence is followed into the FILETIME conversion.
- `column_string_part` and `file_attributes_to_string` come from outside the shown code. They are the parameters `part` and `attributes`.
- src/bin/dtformat.c (Windows `FileTimeToSystemTime` and `modf`), `to_int` and the sqlite3 registration in tests/dtformat.c are not modelled.
- tests/gen_reports.rs, tests/integration_tests.rs and the Python scripts under tests/ are not modelled.
- chrono's calendar is modelled by the integer calendar of tests/dtformat.c. Beyond it, chrono formatting is the layout in `Utils.IsoSeconds`.
- Utf16.CodeUnits: `u16::from_ne_bytes` is taken as little-endian, the byte order of the Windows hosts the databases come from.
- FromBytes.U64FromBytes: `from_bytes` is not part of this model. It is taken as a little-endian read of the first 8 bytes, with a shorter input padded with zero bytes.
- FromBytes.I64FromBytes: the same assumption, read as two's complement.
- FromBytes.LeUnsigned: short input is padded with zero bytes. This is an assumption about `from_bytes`.
- SqlRecords.GetDatetime: the ESE parser library's `get_date_time_from_filetime` is not part of this model. It is taken to convert as src/utils.rs does, `as i64` cast included.
- EseRecords.GetDatetime: the same assumption about the library's `get_date_time_from_filetime`.
- EseRecords.GetStr: the ESE parser library's `from_utf16` used by src/bin/external_cfg.rs is not part of this model. It is taken as a strict UTF-16LE decode that fails on an unpaired surrogate.
- ExternalCfg.ToLower: lowers ASCII letters only. `to_lowercase` also lowers other letters, which cannot turn a text into `json` or `csv` unless it already differs only in ASCII case.
- DoReport.OutputFileName: the `output_dir` join (src/lib.rs:542) is not modelled, only the file name. `set_extension` on an empty name or on `..` (which leaves the path unchanged) is not modelled either.
- DoReport.CellCall: the `as u64` text is stated for i64 values, which is every value the getters return. For a wider integer it is only bounded below 2^64.
- SqliteReport.DatePropertyText: stated only for FILETIMEs in the exact range. The others are covered by `Utils.FiletimeTextNineDigits` and `SqliteReport.DatePropertyZero`.
- DtFormat.DatetimeFormat: a NULL or shorter-than-8-byte blob, which the C code reads past, is not modelled. The value is an i64.
- DtFormat.RtlTimeToTimeFields: the calendar bounds are stated for non-negative times only. A negative time, which `FileTimeToSystemTime` rejects, gets the C arithmetic (truncating `/` and `%`, `CSHORT` narrowing) with no bounds promised.

## Findings

| source | as written | input that shows it | evidently intended | confidence | as-written member | corrected member |
|---|---|---|---|---|---|---|
| src/bin/external_cfg.rs:594-599 | the format is parsed from `cli.outdir` | `--outdir reports --format csv` panics with "Unknow output format 'reports'" | parse `cli.format` | not executed | ExternalCfg.OutdirParsedAsFormat | ExternalCfg.ApplyCliOutdirIndependent |
| src/lib.rs:377-392 | the row that ends a group is read by `next_row` and dropped | rows (1, c, 7), (2, c, 8): the second `next` returns false | the next group starts with that row | not executed | SqlRecords.NextLosesSecondGroup | SqlRecords.NextBufferedKeepsSecondGroup |
| tests/dtformat.c:213-214 | `strchr` may return NULL and `end - start` is computed from it | `file:///x?VolumeId={AC04` | no result without a `}` | not executed | DtFormat.ExtractGuidCrashes | DtFormat.ExtractGuidFixed |
| src/utils.rs:12 | `(ft*100 - epoch) as i64` wraps for FILETIMEs outside [24211015631452242, 208678456368547758] | FILETIME 0 prints as a time in 2185 with 9 fraction digits | the exact, monotone conversion | not executed | Utils.FiletimeWrapsAround | Utils.FiletimeExactOrder |
| tests/dtformat.c:179-186 | the result length is the buffer size 30, not the text length 28 | any non-negative time | the 28-character text | not executed | DtFormat.DatetimeFormatEmbedsNul | DtFormat.DatetimeFormatFixed |
| src/lib.rs:618 | `footer` is called, and `Drop` for `ReportJson` (src/report.rs:124-128) calls it again | any JSON report ends with `]]` | one closing `]` | not executed | DoReport.JsonFileDoubleBracket | DoReport.JsonFileClosesOnce |

The as-written halves are what the rest of the model uses. FILETIME columns are printed through the wrapping conversion. `SqlReader::next` drops the row that ends a group. Reports get one footer call, and `JsonFileAsWritten` adds the second. The corrected halves sit beside them: `FiletimeToUnixNanosExact`, `NextBuffered`, `ExtractGuidFixed`, `DatetimeFormatFixed`, `JsonFile` and `ApplyCli`.

/** `do_report` of src/lib.rs and of src/bin/external_cfg.rs: one report of
    a configuration, read through that program's readers. The two differ in
    two places: only src/lib.rs declares the used titles with `set_field`,
    and they print times differently. The report is modelled as the sequence of calls made on
    it (`Report.SinkCall`); `Report` turns such a sequence into the file. */
module DoReport {
  import opened Wrappers
  import opened Text
  import opened Config
  import opened Report
  import Utils
  import SqlRecords
  import EseRecords

  // ---------------------------------------------------------------------------
  // The output file

  /** The position of the last `.` in `s`. */
  function LastDot(s: string): (r: Option<nat>)
    ensures r.Some? ==> r.value < |s| && s[r.value] == '.' && '.' !in s[r.value + 1..]
    ensures r.None? <==> '.' !in s
  {
    if s == [] then None
    else if s[|s| - 1] == '.' then Some(|s| - 1)
    else
      var r := LastDot(s[..|s| - 1]);
      assert s == s[..|s| - 1] + [s[|s| - 1]];
      if r.Some? then
        assert s[r.value + 1..] == s[..|s| - 1][r.value + 1..] + [s[|s| - 1]];
        r
      else r
  }

  /** The title with `\`, `/` and space replaced by `_`. */
  function Sanitized(title: string): (r: string)
    ensures |r| == |title|
    ensures forall k :: 0 <= k < |title| ==> r[k] == (if title[k] in "\\/ " then '_' else title[k])
  {
    ReplaceChar(ReplaceChar(ReplaceChar(title, '\\', '_'), '/', '_'), ' ', '_')
  }

  /** `Path::file_stem`: the name without the text after its last `.`,
      unless that dot is the first character. */
  function Stem(name: string): (r: string)
    ensures StartsWith(name, r)
    ensures '.' !in name ==> r == name
  {
    match LastDot(name)
    case Some(i) => if i > 0 then name[..i] else name
    case None => name
  }

  function Extension(format: OutputFormat): string {
    if format == CsvOutput then ".csv" else ".json"
  }

  /** The file name `do_report` writes to (`set_extension` on the
      sanitized title). */
  function OutputFileName(title: string, format: OutputFormat): (r: string)
  {
    Stem(Sanitized(title)) + Extension(format)
  }

  /** The name ends with the format's extension, and is the sanitized title
      plus the extension when the title has no dot. */
  lemma OutputFileNameShape(title: string, format: OutputFormat)
    ensures var r := OutputFileName(title, format);
            && EndsWith(r, Extension(format))
            && ('.' !in title ==> r == Sanitized(title) + Extension(format))
  {
    var r := OutputFileName(title, format);
    var stem := Stem(Sanitized(title));
    assert r[..|stem|] == stem && r[|stem|..] == Extension(format);
    SanitizedClean(title);
  }

  /** The file name holds no path separator and no space. */
  lemma OutputFileNameClean(title: string, format: OutputFormat)
    ensures var r := OutputFileName(title, format);
            '\\' !in r && '/' !in r && ' ' !in r
  {
    var name := Sanitized(title);
    var stem := Stem(name);
    var ext := Extension(format);
    SanitizedClean(title);
    forall k | 0 <= k < |stem|
      ensures stem[k] != '\\' && stem[k] != '/' && stem[k] != ' '
    {
      assert stem[k] == name[k];
    }
    assert '\\' !in ext && '/' !in ext && ' ' !in ext;
    assert OutputFileName(title, format) == stem + ext;
  }

  lemma SanitizedClean(title: string)
    ensures forall k :: 0 <= k < |title| ==> Sanitized(title)[k] != '\\' && Sanitized(title)[k] != '/' && Sanitized(title)[k] != ' '
    ensures '.' !in title ==> '.' !in Sanitized(title)
  {
    var name := Sanitized(title);
    forall k | 0 <= k < |title|
      ensures name[k] != '\\' && name[k] != '/' && name[k] != ' '
      ensures name[k] == '.' ==> title[k] == '.'
    {
      if title[k] in "\\/ " { } else { }
    }
  }

  /** `set_extension` replaces what follows the title's last dot, unless
      that dot is the first character: a title `v1.2` gives `v1.csv`. */
  lemma OutputFileNameDotted(title: string, format: OutputFormat, i: nat)
    requires 0 < i < |title| && title[i] == '.' && '.' !in title[i + 1..]
    ensures OutputFileName(title, format) == Sanitized(title)[..i] + Extension(format)
  {
    var name := Sanitized(title);
    SanitizedClean(title);
    assert name[i] == '.';
    assert LastDot(name) == Some(i);
  }

  // ---------------------------------------------------------------------------
  // Column selection

  /** The indices of the configured columns whose titles the reader uses, in
      configuration order. */
  function SelectedIndices(columns: seq<ColumnPair>, used: seq<string>): (r: seq<nat>)
    ensures forall k :: 0 <= k < |r| ==> r[k] < |columns| && columns[r[k]].title in used
    ensures forall i :: 0 <= i < |columns| && columns[i].title in used ==> i in r
    ensures forall j, k :: 0 <= j < k < |r| ==> r[j] < r[k]
  {
    if columns == [] then []
    else
      var r := SelectedIndices(columns[..|columns| - 1], used);
      r + (if columns[|columns| - 1].title in used then [|columns| - 1] else [])
  }

  /** The selected columns themselves. */
  function Selected(columns: seq<ColumnPair>, used: seq<string>): (r: seq<ColumnPair>)
    ensures |r| == |SelectedIndices(columns, used)|
    ensures forall k :: 0 <= k < |r| ==> r[k] == columns[SelectedIndices(columns, used)[k]] && r[k].title in used
  {
    var idx := SelectedIndices(columns, used);
    seq(|idx|, k requires 0 <= k < |idx| => columns[idx[k]])
  }

  // ---------------------------------------------------------------------------
  // Cells

  /** What a getter gave for one cell of the current row. */
  datatype Answer = Text(text: Option<string>) | Number(number: Option<int>) | Time(time: Option<int>)

  /** A time `format_date_time` can print: not before 1601. */
  predicate Printable(a: Answer) {
    a.Time? && a.time.Some? ==> a.time.value >= -Utils.UNIX_EPOCH_NANOS
  }

  /** How a program prints a time: src/lib.rs with `format_date_time`,
      src/bin/external_cfg.rs as RFC 3339 with microseconds. */
  function TimeText(variant: Variant, t: int): string
    requires t >= -Utils.UNIX_EPOCH_NANOS
  {
    if variant == LibReader then Utils.FormatDateTime(t) else Utils.Rfc3339Micros(t)
  }

  /** The call `do_report` makes for one cell: the string, the integer as a
      `u64`, or the time as the program prints it; an absent value is
      written as "". */
  function CellCall(variant: Variant, title: string, a: Answer): (r: SinkCall)
    requires Printable(a)
    ensures r.IntVal? || r.StrVal?
    ensures r.field == title
    ensures r.IntVal? <==> a.Number? && a.number.Some?
    ensures r.IntVal? ==> r.n < U64_LIMIT && (IsI64(a.number.value) ==> r.n == I64AsU64(a.number.value))
    ensures a.Text? && a.text.Some? ==> r.s == a.text.value
    ensures a.Time? && a.time.Some? ==> r.s == TimeText(variant, a.time.value)
    ensures (a.Text? && a.text.None?) || (a.Number? && a.number.None?) || (a.Time? && a.time.None?) ==> r.s == ""
  {
    match a
    case Text(o) => StrVal(title, o.GetOr(""))
    case Number(o) => if o.Some? then IntVal(title, o.value % U64_LIMIT) else StrVal(title, "")
    case Time(o) => if o.Some? then StrVal(title, TimeText(variant, o.value)) else StrVal(title, "")
  }

  /** The two programs write the same time with the same seconds; on a
      whole number of 100 ns ticks, src/bin/external_cfg.rs drops the last
      of src/lib.rs's seven fractional digits. */
  lemma TimeTextVariants(t: int)
    requires t >= -Utils.UNIX_EPOCH_NANOS && t % 100 == 0
    ensures var lib := TimeText(LibReader, t);
            var cfg := TimeText(CfgReader, t);
            && |lib| == |Utils.SecondsText(t)| + 9 && |cfg| == |lib| - 1
            && cfg == lib[..|lib| - 2] + "Z"
  {
    Utils.MicrosDropsLastTick(t);
    var seven := ZeroPad(t % 1_000_000_000 / 100, 7);
    var lib := Utils.SecondsText(t) + "." + seven + "Z";
    assert lib[..|lib| - 2] == Utils.SecondsText(t) + "." + seven[..6];
  }

  /** The `set_field` calls before the rows: one per used title in
      src/lib.rs, none in src/bin/external_cfg.rs. */
  function Header(variant: Variant, used: seq<string>): (r: seq<SinkCall>)
    ensures forall k :: 0 <= k < |r| ==> r[k].SetField?
    ensures variant == CfgReader ==> r == []
    ensures variant == LibReader ==> |r| == |used| && forall k :: 0 <= k < |r| ==> r[k] == SetField(used[k])
  {
    if variant == LibReader then SetFields(used) else []
  }

  /** The calls for one row: one per selected column, in order, unless a
      getter panics. */
  function RowCalls(variant: Variant, selected: seq<ColumnPair>, answers: seq<Outcome<Answer>>): (r: Outcome<seq<SinkCall>>)
    requires |answers| == |selected|
    requires forall k :: 0 <= k < |answers| && answers[k].Ok? ==> Printable(answers[k].value)
    ensures r.Panic? <==> exists k :: 0 <= k < |answers| && answers[k].Panic?
    ensures r.Ok? ==> |r.value| == |selected|
                      && forall k :: 0 <= k < |selected| ==> r.value[k] == CellCall(variant, selected[k].title, answers[k].value)
  {
    if selected == [] then Ok([])
    else
      var n := |selected| - 1;
      var prior := answers[..n];
      assert forall k :: 0 <= k < n ==> prior[k] == answers[k];
      match RowCalls(variant, selected[..n], prior)
      case Panic => Panic
      case Ok(init) =>
        match answers[n]
        case Panic => assert answers[n].Panic?; Panic
        case Ok(a) => Ok(init + [CellCall(variant, selected[n].title, a)])
  }

  /** `Then(prefix, rest)`: the prefix followed by the rest of a run, unless
      the rest panics. */
  function Then(prefix: seq<SinkCall>, rest: Outcome<seq<SinkCall>>): Outcome<seq<SinkCall>> {
    match rest
    case Panic => Panic
    case Ok(r) => Ok(prefix + r)
  }

  /** A run followed by `suffix`, unless it panics. */
  function Append(run: Outcome<seq<SinkCall>>, suffix: seq<SinkCall>): Outcome<seq<SinkCall>> {
    match run
    case Panic => Panic
    case Ok(r) => Ok(r + suffix)
  }

  /** A run of rows: each row is `new_record` followed by one cell per
      selected column, titled after it. */
  predicate Framed(calls: seq<SinkCall>, selected: seq<ColumnPair>)
    decreases |calls|
  {
    calls == [] ||
    (&& |calls| > |selected|
     && calls[0] == NewRecord
     && (forall k :: 1 <= k <= |selected| ==>
           (calls[k].StrVal? || calls[k].IntVal?) && calls[k].field == selected[k - 1].title)
     && Framed(calls[|selected| + 1..], selected))
  }

  /** A framed run never calls `footer` or `set_field`. */
  lemma {:induction false} FramedHasNoFooter(calls: seq<SinkCall>, selected: seq<ColumnPair>)
    requires Framed(calls, selected)
    ensures forall k :: 0 <= k < |calls| ==> !calls[k].Footer? && !calls[k].SetField?
    decreases |calls|
  {
    if calls != [] {
      var rest := calls[|selected| + 1..];
      FramedHasNoFooter(rest, selected);
      forall k | 0 <= k < |calls|
        ensures !calls[k].Footer? && !calls[k].SetField?
      {
        if k > |selected| {
          assert calls[k] == rest[k - |selected| - 1];
        }
      }
    }
  }

  /** One more row keeps a run framed. */
  lemma FramedCons(variant: Variant, row: seq<SinkCall>, rest: seq<SinkCall>, selected: seq<ColumnPair>,
                   answers: seq<Outcome<Answer>>)
    requires |answers| == |selected|
    requires forall k :: 0 <= k < |answers| && answers[k].Ok? ==> Printable(answers[k].value)
    requires RowCalls(variant, selected, answers) == Ok(row) && Framed(rest, selected)
    ensures Framed([NewRecord] + row + rest, selected)
  {
    var calls := [NewRecord] + row + rest;
    assert calls[|selected| + 1..] == rest;
    forall k | 1 <= k <= |selected|
      ensures (calls[k].StrVal? || calls[k].IntVal?) && calls[k].field == selected[k - 1].title
    {
      assert calls[k] == row[k - 1];
    }
  }

  // ---------------------------------------------------------------------------
  // Through the SQLite reader

  /** The getter `do_report` calls for a column of its kind. */
  function SqlAnswer(rec: SqlRecords.Record, col: ColumnPair): (r: Outcome<Answer>)
    ensures r.Ok? ==> Printable(r.value)
  {
    match col.kind
    case StringColumn =>
      (match SqlRecords.GetStr(rec, col.title) case Panic => Panic case Ok(o) => Ok(Text(o)))
    case IntegerColumn =>
      (match SqlRecords.GetInt(rec, col.title) case Panic => Panic case Ok(o) => Ok(Number(o)))
    case DateTimeColumn =>
      (match SqlRecords.GetDatetime(rec, col.title) case Panic => Panic case Ok(o) => Ok(Time(o)))
    case GuidColumn =>
      (match SqlRecords.GetGuid(rec, col.title) case Panic => Panic case Ok(o) => Ok(Text(o)))
  }

  function SqlAnswers(rec: SqlRecords.Record, selected: seq<ColumnPair>): (r: seq<Outcome<Answer>>)
    ensures |r| == |selected| && forall k :: 0 <= k < |r| ==> r[k] == SqlAnswer(rec, selected[k])
  {
    seq(|selected|, k requires 0 <= k < |selected| => SqlAnswer(rec, selected[k]))
  }

  /** The rows of a report from row `pos` on: one per call of `next` that
      returns a non-empty record. */
  function SqlRows(variant: Variant, rows: seq<SqlRecords.Row>, dict: map<string, seq<string>>,
                   pos: nat, last: int, selected: seq<ColumnPair>): Outcome<seq<SinkCall>>
    requires pos <= |rows|
    decreases |rows| - pos
  {
    var c := SqlRecords.Scan(variant, rows, dict, pos, 0, last, map[]);
    if c.record == map[] then Ok([])
    else
      match RowCalls(variant, selected, SqlAnswers(c.record, selected))
      case Panic => Panic
      case Ok(row) => Then([NewRecord] + row, SqlRows(variant, rows, dict, c.pos, c.lastWorkId, selected))
  }

  /** Where the row loop leaves the reader: the cursor of the `next` that
      returned an empty record, or of the record whose getter panicked. */
  function SqlRowsEnd(variant: Variant, rows: seq<SqlRecords.Row>, dict: map<string, seq<string>>,
                      pos: nat, last: int, selected: seq<ColumnPair>): (c: SqlRecords.Cursor)
    requires pos <= |rows|
    ensures pos <= c.pos <= |rows|
    ensures SqlRows(variant, rows, dict, pos, last, selected).Ok? <==> c.record == map[]
    decreases |rows| - pos
  {
    var c := SqlRecords.Scan(variant, rows, dict, pos, 0, last, map[]);
    if c.record == map[] || RowCalls(variant, selected, SqlAnswers(c.record, selected)).Panic? then c
    else SqlRowsEnd(variant, rows, dict, c.pos, c.lastWorkId, selected)
  }

  /** The whole report: the used titles as fields (src/lib.rs only), the
      rows, the footer. */
  function SqlReport(variant: Variant, rows: seq<SqlRecords.Row>, columns: seq<ColumnPair>, keys: seq<string>,
                     pos: nat, last: int): Outcome<seq<SinkCall>>
    requires pos <= |rows| && SqlRecords.KeyOrder(keys, SqlRecords.CodeColDict(columns))
  {
    var dict := SqlRecords.CodeColDict(columns);
    assert forall j :: 0 <= j < |keys| ==> keys[j] in dict;
    var used := SqlRecords.Flatten(keys, dict);
    Then(Header(variant, used), Append(SqlRows(variant, rows, dict, pos, last, Selected(columns, used)), [Footer]))
  }

  /** Every run of SQLite rows is framed. */
  lemma {:induction false} SqlRowsFramed(variant: Variant, rows: seq<SqlRecords.Row>, dict: map<string, seq<string>>,
                                         pos: nat, last: int, selected: seq<ColumnPair>)
    requires pos <= |rows| && SqlRows(variant, rows, dict, pos, last, selected).Ok?
    ensures Framed(SqlRows(variant, rows, dict, pos, last, selected).value, selected)
    decreases |rows| - pos
  {
    var c := SqlRecords.Scan(variant, rows, dict, pos, 0, last, map[]);
    if c.record != map[] {
      var row := RowCalls(variant, selected, SqlAnswers(c.record, selected)).value;
      SqlRowsFramed(variant, rows, dict, c.pos, c.lastWorkId, selected);
      FramedCons(variant, row, SqlRows(variant, rows, dict, c.pos, c.lastWorkId, selected).value, selected,
                 SqlAnswers(c.record, selected));
    }
  }

  /** One call of `next`: an empty record ends the rows, otherwise its row
      comes first. */
  lemma SqlRowsStep(variant: Variant, rows: seq<SqlRecords.Row>, dict: map<string, seq<string>>,
                    pos: nat, last: int, selected: seq<ColumnPair>)
    requires pos <= |rows|
    ensures var c := SqlRecords.Scan(variant, rows, dict, pos, 0, last, map[]);
            && (c.record == map[] ==> SqlRows(variant, rows, dict, pos, last, selected) == Ok([]))
            && (c.record != map[] ==>
                  SqlRows(variant, rows, dict, pos, last, selected)
                  == match RowCalls(variant, selected, SqlAnswers(c.record, selected))
                     case Panic => Panic
                     case Ok(row) => Then([NewRecord] + row, SqlRows(variant, rows, dict, c.pos, c.lastWorkId, selected)))
  {
  }

  lemma ThenThen(a: seq<SinkCall>, b: seq<SinkCall>, x: Outcome<seq<SinkCall>>)
    ensures Then(a, Then(b, x)) == Then(a + b, x)
  {
    if x.Ok? {
      assert a + (b + x.value) == (a + b) + x.value;
    }
  }

  lemma ThenAppend(a: seq<SinkCall>, x: Outcome<seq<SinkCall>>, suffix: seq<SinkCall>)
    ensures Then(a, Append(x, suffix)) == Append(Then(a, x), suffix)
  {
    if x.Ok? {
      assert a + (x.value + suffix) == (a + x.value) + suffix;
    }
  }

  /** The inner loop of `do_report` on the current record: one call per
      selected column, unless a getter panics. */
  method SqlRow(reader: SqlRecords.SqlReader, selected: seq<ColumnPair>) returns (row: Outcome<seq<SinkCall>>)
    ensures row == RowCalls(reader.variant, selected, SqlAnswers(reader.rowValues, selected))
  {
    ghost var answers := SqlAnswers(reader.rowValues, selected);
    var out := [];
    var k := 0;
    while k < |selected|
      invariant 0 <= k <= |selected|
      invariant RowCalls(reader.variant, selected[..k], answers[..k]) == Ok(out)
    {
      var col := selected[k];
      var a := SqlAnswer(reader.rowValues, col);
      assert selected[..k + 1][..k] == selected[..k] && answers[..k + 1][..k] == answers[..k];
      if a.Panic? {
        assert answers[k].Panic?;
        return Panic;
      }
      out := out + [CellCall(reader.variant, col.title, a.value)];
      k := k + 1;
    }
    assert selected[..k] == selected && answers[..k] == answers;
    row := Ok(out);
  }

  /** `set_field` for each used title, in order. */
  method SetFieldCalls(used: seq<string>) returns (head: seq<SinkCall>)
    ensures head == SetFields(used)
  {
    head := [];
    var i := 0;
    while i < |used|
      invariant 0 <= i <= |used| && head == SetFields(used[..i])
    {
      head := head + [SetField(used[i])];
      i := i + 1;
    }
    assert used[..i] == used;
  }

  /** The row loop of `do_report` over a SQLite reader: per non-empty record,
      `new_record` and one call per selected column; a getter that panics
      ends the report. */
  method SqlRowLoop(reader: SqlRecords.SqlReader, selected: seq<ColumnPair>) returns (calls: Outcome<seq<SinkCall>>)
    requires reader.pos <= |reader.rows|
    modifies reader
    ensures calls == SqlRows(reader.variant, reader.rows, old(reader.codeColDict), old(reader.pos), old(reader.lastWorkId), selected)
    ensures SqlRecords.Cursor(reader.pos, reader.lastWorkId, reader.rowValues)
            == SqlRowsEnd(reader.variant, reader.rows, old(reader.codeColDict), old(reader.pos), old(reader.lastWorkId), selected)
    ensures calls.Ok? <==> reader.rowValues == map[]
    ensures reader.codeColDict == old(reader.codeColDict)
  {
    ghost var dict := reader.codeColDict;
    ghost var total := SqlRows(reader.variant, reader.rows, dict, reader.pos, reader.lastWorkId, selected);
    ghost var end := SqlRowsEnd(reader.variant, reader.rows, dict, reader.pos, reader.lastWorkId, selected);
    var out := [];
    assert total == Then(out, total) by {
      if total.Ok? {
        assert [] + total.value == total.value;
      }
    }
    while true
      invariant reader.pos <= |reader.rows| && reader.codeColDict == dict
      invariant total == Then(out, SqlRows(reader.variant, reader.rows, dict, reader.pos, reader.lastWorkId, selected))
      invariant end == SqlRowsEnd(reader.variant, reader.rows, dict, reader.pos, reader.lastWorkId, selected)
      decreases |reader.rows| - reader.pos
    {
      ghost var pos, last := reader.pos, reader.lastWorkId;
      var ok := reader.Next();
      SqlRowsStep(reader.variant, reader.rows, dict, pos, last, selected);
      if !ok {
        assert out + [] == out;
        break;
      }
      var row := SqlRow(reader, selected);
      if row.Panic? {
        assert SqlRows(reader.variant, reader.rows, dict, pos, last, selected) == Panic;
        return Panic;
      }
      ThenThen(out, [NewRecord] + row.value, SqlRows(reader.variant, reader.rows, dict, reader.pos, reader.lastWorkId, selected));
      out := out + ([NewRecord] + row.value);
    }
    calls := Ok(out);
  }

  /** `do_report` over a SQLite reader: `init`, `set_field` for every used
      title in src/lib.rs, the rows, then `footer`. */
  method DoSqlReport(reader: SqlRecords.SqlReader, cfg: ReportCfg, keys: seq<string>)
    returns (calls: Outcome<seq<SinkCall>>)
    requires reader.pos <= |reader.rows| && SqlRecords.KeyOrder(keys, SqlRecords.CodeColDict(cfg.columns))
    modifies reader
    ensures calls == SqlReport(reader.variant, reader.rows, cfg.columns, keys, old(reader.pos), old(reader.lastWorkId))
    ensures reader.codeColDict == SqlRecords.CodeColDict(cfg.columns)
    ensures SqlRecords.Cursor(reader.pos, reader.lastWorkId, reader.rowValues)
            == SqlRowsEnd(reader.variant, reader.rows, reader.codeColDict, old(reader.pos), old(reader.lastWorkId),
                          Selected(cfg.columns, SqlRecords.Flatten(keys, reader.codeColDict)))
    ensures calls.Ok? <==> reader.rowValues == map[]
  {
    var used := reader.Init(cfg.columns, keys);
    var selected := Selected(cfg.columns, used);
    var head := [];
    if reader.variant == LibReader {
      head := SetFieldCalls(used);
    }
    var rows := SqlRowLoop(reader, selected);
    ThenAppend(head, rows, [Footer]);
    calls := Then(head, Append(rows, [Footer]));
  }

  // ---------------------------------------------------------------------------
  // Through the ESE reader

  /** The getter `do_report` calls for a column of its kind; `get_guid` is
      not implemented and panics. */
  function EseAnswer(variant: Variant, infos: map<string, EseRecords.ColInfo>, row: EseRecords.EseRow,
                     col: ColumnPair, variantTime: seq<Byte> -> Option<nat>): (r: Outcome<Answer>)
    ensures r.Ok? ==> Printable(r.value)
    ensures r.Panic? && col.kind != GuidColumn ==> col.title in infos
  {
    match col.kind
    case StringColumn =>
      (match EseRecords.GetStr(variant, infos, row, col.title) case Panic => Panic case Ok(o) => Ok(Text(o)))
    case IntegerColumn =>
      (match EseRecords.GetInt(infos, row, col.title) case Panic => Panic case Ok(o) => Ok(Number(o)))
    case DateTimeColumn => Ok(Time(EseRecords.GetDatetime(infos, row, col.title, variantTime)))
    case GuidColumn => Panic
  }

  function EseAnswers(variant: Variant, infos: map<string, EseRecords.ColInfo>, row: EseRecords.EseRow,
                      selected: seq<ColumnPair>, variantTime: seq<Byte> -> Option<nat>): (r: seq<Outcome<Answer>>)
    ensures |r| == |selected| && forall k :: 0 <= k < |r| ==> r[k] == EseAnswer(variant, infos, row, selected[k], variantTime)
  {
    seq(|selected|, k requires 0 <= k < |selected| => EseAnswer(variant, infos, row, selected[k], variantTime))
  }

  /** The rows of a report from cursor position `pos` on: one per call of
      `next` that lands on a row. */
  function EseRows(variant: Variant, rows: seq<EseRecords.EseRow>, infos: map<string, EseRecords.ColInfo>,
                   pos: EseRecords.Position, selected: seq<ColumnPair>,
                   variantTime: seq<Byte> -> Option<nat>): Outcome<seq<SinkCall>>
    decreases EseRecords.Remaining(variant, |rows|, pos)
  {
    var (ok, next) := EseRecords.Step(variant, |rows|, pos);
    if !ok then Ok([])
    else
      match RowCalls(variant, selected, EseAnswers(variant, infos, rows[next.row], selected, variantTime))
      case Panic => Panic
      case Ok(row) => Then([NewRecord] + row, EseRows(variant, rows, infos, next, selected, variantTime))
  }

  /** Where the row loop leaves the cursor: after the `next` that failed,
      or on the row whose getter panicked. */
  function EseRowsEnd(variant: Variant, rows: seq<EseRecords.EseRow>, infos: map<string, EseRecords.ColInfo>,
                      pos: EseRecords.Position, selected: seq<ColumnPair>,
                      variantTime: seq<Byte> -> Option<nat>): (end: EseRecords.Position)
    ensures EseRows(variant, rows, infos, pos, selected, variantTime).Ok? ==> !EseRecords.Step(variant, |rows|, end).0
    decreases EseRecords.Remaining(variant, |rows|, pos)
  {
    var (ok, next) := EseRecords.Step(variant, |rows|, pos);
    if !ok then
      EseRecords.StepFailsAgain(variant, |rows|, pos);
      next
    else if RowCalls(variant, selected, EseAnswers(variant, infos, rows[next.row], selected, variantTime)).Panic? then next
    else EseRowsEnd(variant, rows, infos, next, selected, variantTime)
  }

  /** The whole report over an ESE reader: `init` (which may panic), the
      used titles as fields (src/lib.rs only), the rows, the footer. */
  function EseReport(variant: Variant, table: seq<EseRecords.EseColumn>, rows: seq<EseRecords.EseRow>,
                     columns: seq<ColumnPair>, infos: map<string, EseRecords.ColInfo>, pos: EseRecords.Position,
                     variantTime: seq<Byte> -> Option<nat>): Outcome<seq<SinkCall>>
  {
    match EseRecords.Bound(table, columns, infos)
    case Panic => Panic
    case Ok(bound) =>
      var used := EseRecords.EdbTitles(columns);
      var start := if variant == LibReader then pos.(recNo := 0) else pos;
      Then(Header(variant, used), Append(EseRows(variant, rows, bound, start, Selected(columns, used), variantTime), [Footer]))
  }

  /** The inner loop of `do_report` on the current ESE row. */
  method EseRow(reader: EseRecords.EseReader, selected: seq<ColumnPair>, variantTime: seq<Byte> -> Option<nat>)
    returns (row: Outcome<seq<SinkCall>>)
    requires 0 <= reader.pos.row < |reader.rows|
    ensures row == RowCalls(reader.variant, selected, EseAnswers(reader.variant, reader.colInfos, reader.rows[reader.pos.row], selected, variantTime))
  {
    var current := reader.rows[reader.pos.row];
    ghost var answers := EseAnswers(reader.variant, reader.colInfos, current, selected, variantTime);
    var out := [];
    var k := 0;
    while k < |selected|
      invariant 0 <= k <= |selected|
      invariant RowCalls(reader.variant, selected[..k], answers[..k]) == Ok(out)
    {
      var col := selected[k];
      var a := EseAnswer(reader.variant, reader.colInfos, current, col, variantTime);
      assert selected[..k + 1][..k] == selected[..k] && answers[..k + 1][..k] == answers[..k];
      if a.Panic? {
        assert answers[k].Panic?;
        return Panic;
      }
      out := out + [CellCall(reader.variant, col.title, a.value)];
      k := k + 1;
    }
    assert selected[..k] == selected && answers[..k] == answers;
    row := Ok(out);
  }

  lemma EseRowsStep(variant: Variant, rows: seq<EseRecords.EseRow>, infos: map<string, EseRecords.ColInfo>,
                    pos: EseRecords.Position, selected: seq<ColumnPair>, variantTime: seq<Byte> -> Option<nat>)
    ensures var (ok, next) := EseRecords.Step(variant, |rows|, pos);
            && (!ok ==> EseRows(variant, rows, infos, pos, selected, variantTime) == Ok([]))
            && (ok ==>
                  EseRows(variant, rows, infos, pos, selected, variantTime)
                  == match RowCalls(variant, selected, EseAnswers(variant, infos, rows[next.row], selected, variantTime))
                     case Panic => Panic
                     case Ok(row) => Then([NewRecord] + row, EseRows(variant, rows, infos, next, selected, variantTime)))
  {
  }

  /** The row loop of `do_report` over an ESE reader. */
  method EseRowLoop(reader: EseRecords.EseReader, selected: seq<ColumnPair>, variantTime: seq<Byte> -> Option<nat>)
    returns (calls: Outcome<seq<SinkCall>>)
    modifies reader
    ensures calls == EseRows(reader.variant, reader.rows, old(reader.colInfos), old(reader.pos), selected, variantTime)
    ensures reader.pos == EseRowsEnd(reader.variant, reader.rows, old(reader.colInfos), old(reader.pos), selected, variantTime)
    ensures calls.Ok? ==> !EseRecords.Step(reader.variant, |reader.rows|, reader.pos).0
    ensures reader.colInfos == old(reader.colInfos)
  {
    ghost var infos := reader.colInfos;
    ghost var total := EseRows(reader.variant, reader.rows, infos, reader.pos, selected, variantTime);
    ghost var end := EseRowsEnd(reader.variant, reader.rows, infos, reader.pos, selected, variantTime);
    var out := [];
    assert total == Then(out, total) by {
      if total.Ok? {
        assert [] + total.value == total.value;
      }
    }
    while true
      invariant reader.colInfos == infos
      invariant total == Then(out, EseRows(reader.variant, reader.rows, infos, reader.pos, selected, variantTime))
      invariant end == EseRowsEnd(reader.variant, reader.rows, infos, reader.pos, selected, variantTime)
      decreases EseRecords.Remaining(reader.variant, |reader.rows|, reader.pos)
    {
      ghost var pos := reader.pos;
      var ok := reader.Next();
      EseRowsStep(reader.variant, reader.rows, infos, pos, selected, variantTime);
      if !ok {
        assert out + [] == out;
        break;
      }
      var row := EseRow(reader, selected, variantTime);
      if row.Panic? {
        assert EseRows(reader.variant, reader.rows, infos, pos, selected, variantTime) == Panic;
        return Panic;
      }
      ThenThen(out, [NewRecord] + row.value, EseRows(reader.variant, reader.rows, infos, reader.pos, selected, variantTime));
      out := out + ([NewRecord] + row.value);
    }
    calls := Ok(out);
  }

  /** `do_report` over an ESE reader: `init`, `set_field` for every used
      title in src/lib.rs, the rows, then `footer`. */
  method DoEseReport(reader: EseRecords.EseReader, cfg: ReportCfg, variantTime: seq<Byte> -> Option<nat>)
    returns (calls: Outcome<seq<SinkCall>>)
    modifies reader
    ensures calls == EseReport(reader.variant, reader.table, reader.rows, cfg.columns, old(reader.colInfos),
                               old(reader.pos), variantTime)
    ensures EseRecords.Bound(reader.table, cfg.columns, old(reader.colInfos)).Ok? ==>
              && reader.colInfos == EseRecords.Bound(reader.table, cfg.columns, old(reader.colInfos)).value
              && reader.pos == EseRowsEnd(reader.variant, reader.rows, reader.colInfos,
                                          if reader.variant == LibReader then old(reader.pos).(recNo := 0) else old(reader.pos),
                                          Selected(cfg.columns, EseRecords.EdbTitles(cfg.columns)), variantTime)
    ensures calls.Ok? ==> !EseRecords.Step(reader.variant, |reader.rows|, reader.pos).0
  {
    var used := reader.Init(cfg.columns);
    if used.Panic? {
      return Panic;
    }
    var selected := Selected(cfg.columns, used.value);
    var head := [];
    if reader.variant == LibReader {
      head := SetFieldCalls(used.value);
    }
    var rows := EseRowLoop(reader, selected, variantTime);
    ThenAppend(head, rows, [Footer]);
    calls := Then(head, Append(rows, [Footer]));
  }

  // ---------------------------------------------------------------------------
  // Properties of a report

  /** A report read through src/lib.rs's ESE reader has one row per table
      row, each framed by the selected columns. */
  lemma {:induction false} LibEseRowsCount(rows: seq<EseRecords.EseRow>, infos: map<string, EseRecords.ColInfo>,
                                           pos: EseRecords.Position, selected: seq<ColumnPair>,
                                           variantTime: seq<Byte> -> Option<nat>)
    requires pos.recNo > 0 && -1 <= pos.row < |rows|
    requires EseRows(LibReader, rows, infos, pos, selected, variantTime).Ok?
    ensures var r := EseRows(LibReader, rows, infos, pos, selected, variantTime).value;
            Framed(r, selected) && |r| == (|rows| - 1 - pos.row) * (|selected| + 1)
    decreases |rows| - pos.row
  {
    var (ok, next) := EseRecords.Step(LibReader, |rows|, pos);
    EseRowsStep(LibReader, rows, infos, pos, selected, variantTime);
    if ok {
      assert next.row == pos.row + 1 && next.recNo > 0;
      var answers := EseAnswers(LibReader, infos, rows[next.row], selected, variantTime);
      assert RowCalls(LibReader, selected, answers).Ok?;
      var row := RowCalls(LibReader, selected, answers).value;
      var rest := EseRows(LibReader, rows, infos, next, selected, variantTime).value;
      assert EseRows(LibReader, rows, infos, pos, selected, variantTime).value == [NewRecord] + row + rest;
      LibEseRowsCount(rows, infos, next, selected, variantTime);
      FramedCons(LibReader, row, rest, selected, answers);
      assert |[NewRecord] + row + rest| == |selected| + 1 + |rest|;
      MulSucc(|rows| - 1 - next.row, |rows| - 1 - pos.row, |selected| + 1);
    } else {
      assert pos.row + 1 == |rows|;
    }
  }

  lemma MulSucc(a: int, b: int, w: int)
    requires b == a + 1
    ensures b * w == w + a * w
  {
  }

  /** Every report through src/lib.rs's ESE reader starts again from the
      first row: it has one row per table row. */
  lemma LibEseReportRows(rows: seq<EseRecords.EseRow>, infos: map<string, EseRecords.ColInfo>, row: int,
                         selected: seq<ColumnPair>, variantTime: seq<Byte> -> Option<nat>)
    requires EseRows(LibReader, rows, infos, EseRecords.Position(row, 0), selected, variantTime).Ok?
    ensures var r := EseRows(LibReader, rows, infos, EseRecords.Position(row, 0), selected, variantTime).value;
            Framed(r, selected) && |r| == |rows| * (|selected| + 1)
  {
    var (ok, next) := EseRecords.Step(LibReader, |rows|, EseRecords.Position(row, 0));
    if ok {
      var answers := EseAnswers(LibReader, infos, rows[0], selected, variantTime);
      LibEseRowsCount(rows, infos, next, selected, variantTime);
      FramedCons(LibReader, RowCalls(LibReader, selected, answers).value, EseRows(LibReader, rows, infos, next, selected, variantTime).value,
                 selected, answers);
      MulSucc(|rows| - 1, |rows|, |selected| + 1);
    }
  }

  /** Through src/bin/external_cfg.rs's ESE reader, once a report has run
      to the end of the table every later report has no rows. */
  lemma CfgEseLaterReportEmpty(rows: seq<EseRecords.EseRow>, infos: map<string, EseRecords.ColInfo>,
                               pos: EseRecords.Position, selected: seq<ColumnPair>,
                               variantTime: seq<Byte> -> Option<nat>)
    requires !EseRecords.Step(CfgReader, |rows|, pos).0
    ensures EseRows(CfgReader, rows, infos, pos, selected, variantTime) == Ok([])
  {
  }

  /** `do_reports` on src/bin/external_cfg.rs's ESE reader: a report that
      follows one that ran to the end, and whose columns bind, holds only
      `footer`. */
  lemma CfgEseNextReportEmpty(table: seq<EseRecords.EseColumn>, rows: seq<EseRecords.EseRow>,
                              infos: map<string, EseRecords.ColInfo>, pos: EseRecords.Position,
                              selected: seq<ColumnPair>, columns: seq<ColumnPair>,
                              variantTime: seq<Byte> -> Option<nat>)
    requires EseRows(CfgReader, rows, infos, pos, selected, variantTime).Ok?
    requires EseRecords.Bound(table, columns, infos).Ok?
    ensures EseReport(CfgReader, table, rows, columns, infos, EseRowsEnd(CfgReader, rows, infos, pos, selected, variantTime),
                      variantTime) == Ok([Footer])
  {
    var end := EseRowsEnd(CfgReader, rows, infos, pos, selected, variantTime);
    var bound := EseRecords.Bound(table, columns, infos).value;
    var used := EseRecords.EdbTitles(columns);
    CfgEseLaterReportEmpty(rows, bound, end, Selected(columns, used), variantTime);
    assert Header(CfgReader, used) == [];
    assert [] + ([] + [Footer]) == [Footer];
  }

  /** A GUID column in a report read from the ESE table panics on the first row. */
  lemma EseGuidPanics(variant: Variant, rows: seq<EseRecords.EseRow>, infos: map<string, EseRecords.ColInfo>,
                      pos: EseRecords.Position, selected: seq<ColumnPair>, variantTime: seq<Byte> -> Option<nat>, k: nat)
    requires k < |selected| && selected[k].kind == GuidColumn && EseRecords.Step(variant, |rows|, pos).0
    ensures EseRows(variant, rows, infos, pos, selected, variantTime).Panic?
  {
    var next := EseRecords.Step(variant, |rows|, pos).1;
    assert EseAnswers(variant, infos, rows[next.row], selected, variantTime)[k].Panic?;
  }

  // ---------------------------------------------------------------------------
  // The JSON file a report leaves

  /** The JSON file as written: `do_report` ends with `footer`, and dropping
      the `ReportJson` calls `footer` a second time. */
  function JsonFileAsWritten(calls: seq<SinkCall>): string {
    JsonRun(JsonInitial, calls + [Footer]).out
  }

  /** The JSON file when the closing bracket is written once: dropping the
      report adds the footer only when it has not been written. */
  function JsonFile(calls: seq<SinkCall>): string {
    JsonRun(JsonInitial, if Footer in calls then calls else calls + [Footer]).out
  }

  /** As written, the file of every finished report ends with two closing
      brackets. */
  lemma JsonFileDoubleBracket(calls: seq<SinkCall>)
    requires calls != [] && calls[|calls| - 1] == Footer
    ensures EndsWith(JsonFileAsWritten(calls), "]]")
  {
    var front := calls[..|calls| - 1];
    assert calls == front + [Footer];
    JsonRunSnoc(JsonInitial, front, Footer);
    JsonRunSnoc(JsonInitial, calls, Footer);
    var st := JsonRun(JsonInitial, calls);
    var r := JsonNewRecord(st);
    assert r == st;
    assert EndsWith(st.out, "]");
  }

  /** As written, a report with no columns and no rows leaves `[]]`. */
  lemma EmptyJsonReportAsWritten(calls: seq<SinkCall>)
    requires calls == [Footer]
    ensures JsonFileAsWritten(calls) == "[]]"
  {
    JsonRunSnoc(JsonInitial, [], Footer);
    JsonRunSnoc(JsonInitial, [Footer], Footer);
    assert [Footer] + [Footer] == calls + [Footer];
    assert JsonRun(JsonInitial, [Footer]).out == "[]";
  }

  /** Before the footer a JSON file is the opening bracket, or ends with a
      record. */
  lemma {:induction false} JsonOpenShape(calls: seq<SinkCall>)
    requires forall k :: 0 <= k < |calls| ==> !calls[k].Footer?
    ensures var out := JsonRun(JsonInitial, calls).out;
            out == "[" || EndsWith(out, "}")
  {
    if calls != [] {
      var front := calls[..|calls| - 1];
      var call := calls[|calls| - 1];
      assert calls == front + [call];
      JsonOpenShape(front);
      JsonRunSnoc(JsonInitial, front, call);
      var st := JsonRun(JsonInitial, front);
      if call.NewRecord? && |st.values| > 0 {
        var sep := if st.firstRecord then "" else ",\n";
        var rec := JsonRecord(st.values);
        assert rec == "{" + JsonItemsUpTo(st.values, |st.values|) + "}";
        assert JsonRun(JsonInitial, calls).out == (st.out + sep) + rec;
        EndsWithAppend(st.out + sep, rec, "}");
      }
    }
  }

  lemma EndsWithAppend(a: string, b: string, suffix: string)
    requires EndsWith(b, suffix)
    ensures EndsWith(a + b, suffix)
  {
    assert (a + b)[|a + b| - |suffix|..] == b[|b| - |suffix|..];
  }

  /** With the footer written once, the file of a report whose header is
      `set_field` calls and whose rows are framed is `[]`, or ends with a
      record and one closing bracket. */
  lemma JsonFileClosesOnce(head: seq<SinkCall>, rows: seq<SinkCall>, selected: seq<ColumnPair>)
    requires forall k :: 0 <= k < |head| ==> head[k].SetField?
    requires Framed(rows, selected)
    ensures var file := JsonFile(head + rows + [Footer]);
            file == "[]" || EndsWith(file, "}]")
  {
    var body := head + rows;
    HeadRowsNoFooter(head, rows, selected);
    assert Footer in body + [Footer];
    JsonOpenShape(body);
    JsonRunSnoc(JsonInitial, body, Footer);
    JsonFooterShape(JsonRun(JsonInitial, body));
  }

  lemma HeadRowsNoFooter(head: seq<SinkCall>, rows: seq<SinkCall>, selected: seq<ColumnPair>)
    requires forall k :: 0 <= k < |head| ==> head[k].SetField?
    requires Framed(rows, selected)
    ensures forall k :: 0 <= k < |head + rows| ==> !(head + rows)[k].Footer?
  {
    FramedHasNoFooter(rows, selected);
    forall k | 0 <= k < |head + rows|
      ensures !(head + rows)[k].Footer?
    {
      if k >= |head| {
        assert (head + rows)[k] == rows[k - |head|];
      }
    }
  }

  /** The footer closes an open file with one bracket after its last record. */
  lemma JsonFooterShape(st: JsonState)
    requires st.out == "[" || EndsWith(st.out, "}")
    ensures var out := JsonApply(st, Footer).out;
            out == "[]" || EndsWith(out, "}]")
  {
    var r := JsonNewRecord(st);
    if |st.values| > 0 {
      var sep := if st.firstRecord then "" else ",\n";
      assert JsonRecord(st.values) == "{" + JsonItemsUpTo(st.values, |st.values|) + "}";
      EndsWithAppend(st.out + sep, JsonRecord(st.values), "}");
    }
    if r.out != "[" {
      assert r.out + "]" == r.out[..|r.out| - 1] + "}]";
      EndsWithAppend(r.out[..|r.out| - 1], "}]", "}]");
    }
  }

  /** Every SQLite report, with its footer written once, leaves a closed
      JSON array. */
  lemma SqlReportJsonCloses(variant: Variant, rows: seq<SqlRecords.Row>, columns: seq<ColumnPair>, keys: seq<string>,
                            pos: nat, last: int)
    requires pos <= |rows| && SqlRecords.KeyOrder(keys, SqlRecords.CodeColDict(columns))
    requires SqlReport(variant, rows, columns, keys, pos, last).Ok?
    ensures var file := JsonFile(SqlReport(variant, rows, columns, keys, pos, last).value);
            file == "[]" || EndsWith(file, "}]")
  {
    var dict := SqlRecords.CodeColDict(columns);
    assert forall j :: 0 <= j < |keys| ==> keys[j] in dict;
    var used := SqlRecords.Flatten(keys, dict);
    var selected := Selected(columns, used);
    SqlRowsFramed(variant, rows, dict, pos, last, selected);
    var body := SqlRows(variant, rows, dict, pos, last, selected).value;
    assert SqlReport(variant, rows, columns, keys, pos, last).value == Header(variant, used) + body + [Footer];
    JsonFileClosesOnce(Header(variant, used), body, selected);
  }

  /** Every run of ESE rows is framed. */
  lemma {:induction false} EseRowsFramed(variant: Variant, rows: seq<EseRecords.EseRow>,
                                         infos: map<string, EseRecords.ColInfo>, pos: EseRecords.Position,
                                         selected: seq<ColumnPair>, variantTime: seq<Byte> -> Option<nat>)
    requires EseRows(variant, rows, infos, pos, selected, variantTime).Ok?
    ensures Framed(EseRows(variant, rows, infos, pos, selected, variantTime).value, selected)
    decreases EseRecords.Remaining(variant, |rows|, pos)
  {
    var (ok, next) := EseRecords.Step(variant, |rows|, pos);
    if ok {
      var answers := EseAnswers(variant, infos, rows[next.row], selected, variantTime);
      EseRowsFramed(variant, rows, infos, next, selected, variantTime);
      FramedCons(variant, RowCalls(variant, selected, answers).value, EseRows(variant, rows, infos, next, selected, variantTime).value,
                 selected, answers);
    }
  }

  /** Every ESE report, with its footer written once, leaves a closed JSON
      array. */
  lemma EseReportJsonCloses(variant: Variant, table: seq<EseRecords.EseColumn>, rows: seq<EseRecords.EseRow>,
                            columns: seq<ColumnPair>, infos: map<string, EseRecords.ColInfo>, pos: EseRecords.Position,
                            variantTime: seq<Byte> -> Option<nat>)
    requires EseReport(variant, table, rows, columns, infos, pos, variantTime).Ok?
    ensures var file := JsonFile(EseReport(variant, table, rows, columns, infos, pos, variantTime).value);
            file == "[]" || EndsWith(file, "}]")
  {
    var bound := EseRecords.Bound(table, columns, infos).value;
    var used := EseRecords.EdbTitles(columns);
    var start := if variant == LibReader then pos.(recNo := 0) else pos;
    var selected := Selected(columns, used);
    EseRowsFramed(variant, rows, bound, start, selected, variantTime);
    var body := EseRows(variant, rows, bound, start, selected, variantTime).value;
    assert EseReport(variant, table, rows, columns, infos, pos, variantTime).value == Header(variant, used) + body + [Footer];
    JsonFileClosesOnce(Header(variant, used), body, selected);
  }
}

/** src/report.rs: the report sinks. A report receives a sequence of calls
    (`set_field`, `new_record`, `str_val`, `int_val`, `footer`) and appends
    text to its output file; the file is modelled as the string `out`. */
module Report {
  import opened Wrappers
  import opened Text

  /** One call on a report. `IntVal` carries a `u64`. */
  datatype SinkCall =
    | SetField(field: string)
    | NewRecord
    | StrVal(field: string, s: string)
    | IntVal(field: string, n: nat)
    | Footer

  datatype ReportFormat = Json | Csv

  /** The file name `new_report` gives a report: the database's file name, the
      report suffix and the format's extension, joined by dots. A database
      path without a file name makes `new_report` panic. */
  function ReportFileName(dbFileName: Option<string>, suffix: string, format: ReportFormat): (r: Outcome<string>)
    ensures dbFileName.None? <==> r.Panic?
    ensures r.Ok? ==> && StartsWith(r.value, dbFileName.value + "." + suffix + ".")
                      && EndsWith(r.value, if format == Json then ".json" else ".csv")
                      && |r.value| == |dbFileName.value| + |suffix| + (if format == Json then 6 else 5)
  {
    match dbFileName
    case None => Panic
    case Some(name) =>
      var ext := match format case Json => "json" case Csv => "csv";
      var path := name + "." + suffix + "." + ext;
      assert path[..|name + "." + suffix + "."|] == name + "." + suffix + ".";
      Ok(path)
  }

  // ===========================================================================
  // ReportCsv

  /** `ReportCsv::escape`: every `"` doubled (section 2 of RFC 4180). */
  function CsvEscape(s: string): string {
    ReplaceAll(s, '"', "\"\"")
  }

  /** The text `str_val` stores: the escaped value in double quotes. */
  function CsvQuote(s: string): string {
    "\"" + CsvEscape(s) + "\""
  }

  /** A field body in which quotes only occur as `""` pairs. */
  predicate QuotesPaired(e: string)
    decreases |e|
  {
    if e == [] then true
    else if e[0] == '"' then |e| >= 2 && e[1] == '"' && QuotesPaired(e[2..])
    else QuotesPaired(e[1..])
  }

  /** The inverse of `CsvEscape`: every `""` pair back to one `"`. */
  function CsvUnescape(e: string): string
    decreases |e|
  {
    if e == [] then []
    else if |e| >= 2 && e[0] == '"' && e[1] == '"' then "\"" + CsvUnescape(e[2..])
    else [e[0]] + CsvUnescape(e[1..])
  }

  /** An escaped value has its quotes in pairs, so the quoted field is well
      formed, and unescaping gives the value back. */
  lemma {:induction false} CsvEscapeRoundTrip(s: string)
    ensures QuotesPaired(CsvEscape(s))
    ensures CsvUnescape(CsvEscape(s)) == s
  {
    if s != [] {
      CsvEscapeRoundTrip(s[1..]);
      var e := CsvEscape(s);
      var rest := CsvEscape(s[1..]);
      if s[0] == '"' {
        assert e == "\"\"" + rest;
        assert e[2..] == rest;
      } else {
        assert e == [s[0]] + rest;
        assert e[1..] == rest;
      }
      assert s == [s[0]] + s[1..];
    }
  }

  /** A buffered column: its name and the text of its current value. */
  type Field = (string, string)

  function Names(values: seq<Field>): (r: seq<string>)
    ensures |r| == |values| && forall k :: 0 <= k < |values| ==> r[k] == values[k].0
  {
    seq(|values|, k requires 0 <= k < |values| => values[k].0)
  }

  function Vals(values: seq<Field>): (r: seq<string>)
    ensures |r| == |values| && forall k :: 0 <= k < |values| ==> r[k] == values[k].1
  {
    seq(|values|, k requires 0 <= k < |values| => values[k].1)
  }

  predicate UniqueNames(values: seq<Field>) {
    forall i, j :: 0 <= i < j < |values| ==> values[i].0 != values[j].0
  }

  /** The position of the first field named `f`. */
  function FindField(values: seq<Field>, f: string): (r: Option<nat>)
    ensures r.Some? ==> r.value < |values| && values[r.value].0 == f
    ensures r.Some? ==> forall k :: 0 <= k < r.value ==> values[k].0 != f
    ensures r.None? <==> f !in Names(values)
  {
    if values == [] then None
    else if values[0].0 == f then Some(0)
    else match FindField(values[1..], f)
         case None => None
         case Some(i) => Some(i + 1)
  }

  /** `update_field_with_value` on the buffer: the field's value replaced
      when it is buffered, otherwise the field appended. */
  function Upsert(values: seq<Field>, f: string, v: string): (r: seq<Field>)
    ensures f in Names(values) ==> |r| == |values|
    ensures f !in Names(values) ==> |r| == |values| + 1 && r[|values|] == (f, v)
    ensures forall k :: 0 <= k < |values| ==> r[k].0 == values[k].0
    ensures forall k :: 0 <= k < |values| && values[k].0 != f ==> r[k] == values[k]
    ensures FindField(r, f).Some? && r[FindField(r, f).value].1 == v
  {
    match FindField(values, f)
    case Some(i) =>
      var r := values[i := (values[i].0, v)];
      assert FindField(r, f) == Some(i) by {
        assert f in Names(r) by { assert Names(r)[i] == f; }
        var j := FindField(r, f).value;
        assert j <= i;
        assert values[j].0 == f;
      }
      r
    case None =>
      var r := values + [(f, v)];
      assert FindField(r, f) == Some(|values|) by {
        assert f in Names(r) by { assert Names(r)[|values|] == f; }
      }
      r
  }

  /** The buffer keeps its names unique, in first-insertion order: an update
      either keeps the list of names or appends the new one. */
  lemma UpsertNames(values: seq<Field>, f: string, v: string)
    requires UniqueNames(values)
    ensures UniqueNames(Upsert(values, f, v))
    ensures Names(Upsert(values, f, v))
            == if f in Names(values) then Names(values) else Names(values) + [f]
  {
    var r := Upsert(values, f, v);
    if f !in Names(values) {
      forall i | 0 <= i < |values|
        ensures r[i].0 != f
      {
        assert Names(values)[i] == values[i].0;
      }
    }
  }

  /** Every value of the buffer emptied, the names kept. */
  function Cleared(values: seq<Field>): (r: seq<Field>)
    ensures Names(r) == Names(values)
    ensures forall k :: 0 <= k < |r| ==> r[k].1 == ""
  {
    seq(|values|, k requires 0 <= k < |values| => (values[k].0, ""))
  }

  predicate AnyValue(values: seq<Field>) {
    exists k :: 0 <= k < |values| && values[k].1 != ""
  }

  /** What a CSV report holds between calls. */
  datatype CsvState = CsvState(out: string, firstRecord: bool, values: seq<Field>)

  const CsvInitial := CsvState("", true, [])

  /** `new_record`: when some value is buffered, the header (first time
      only), a line break and the values joined by commas; the values are
      emptied. With nothing buffered, nothing happens. */
  function CsvNewRecord(st: CsvState): (r: CsvState)
    ensures AnyValue(st.values) ==>
              && !r.firstRecord && Names(r.values) == Names(st.values)
              && r.out == st.out + (if st.firstRecord then Join(Names(st.values), ",") else "")
                                 + "\n" + Join(Vals(st.values), ",")
    ensures !AnyValue(st.values) ==> r == st
  {
    if AnyValue(st.values) then
      CsvState(st.out + (if st.firstRecord then Join(Names(st.values), ",") else "")
                      + "\n" + Join(Vals(st.values), ","),
               false, Cleared(st.values))
    else st
  }

  function CsvApply(st: CsvState, call: SinkCall): CsvState {
    match call
    case SetField(f) => st.(values := Upsert(st.values, f, ""))
    case NewRecord => CsvNewRecord(st)
    case StrVal(f, s) => st.(values := Upsert(st.values, f, CsvQuote(s)))
    case IntVal(f, n) => st.(values := Upsert(st.values, f, Decimal(n)))
    case Footer => CsvNewRecord(st)
  }

  function CsvRun(st: CsvState, calls: seq<SinkCall>): CsvState {
    if calls == [] then st else CsvApply(CsvRun(st, calls[..|calls| - 1]), calls[|calls| - 1])
  }

  lemma CsvRunSnoc(st: CsvState, calls: seq<SinkCall>, call: SinkCall)
    ensures CsvRun(st, calls + [call]) == CsvApply(CsvRun(st, calls), call)
  {
    assert (calls + [call])[..|calls|] == calls;
  }

  /** Replaying two call sequences one after the other is replaying both. */
  lemma {:induction false} CsvRunAppend(st: CsvState, a: seq<SinkCall>, b: seq<SinkCall>)
    ensures CsvRun(st, a + b) == CsvRun(CsvRun(st, a), b)
  {
    if b == [] {
      assert a + b == a;
    } else {
      var c := b[|b| - 1];
      var b' := b[..|b| - 1];
      assert b == b' + [c];
      assert a + b == (a + b') + [c];
      CsvRunAppend(st, a, b');
      CsvRunSnoc(st, a + b', c);
      CsvRunSnoc(CsvRun(st, a), b', c);
    }
  }

  /** What a CSV report keeps true: nothing is written before the first
      record, the names are unique, and the file only grows. */
  predicate CsvValid(st: CsvState) {
    (st.firstRecord ==> st.out == "") && UniqueNames(st.values)
  }

  /** Every call keeps the report valid and only appends to the file; once
      the header has been written the flag stays down, so every later
      record adds a line break and a row and never a second header. */
  lemma CsvApplyValid(st: CsvState, call: SinkCall)
    requires CsvValid(st)
    ensures var r := CsvApply(st, call);
            && CsvValid(r)
            && StartsWith(r.out, st.out)
            && (!st.firstRecord ==> !r.firstRecord)
            && (!st.firstRecord && r.out != st.out ==>
                  r.out == st.out + "\n" + Join(Vals(st.values), ","))
  {
    var r := CsvApply(st, call);
    match call
    case SetField(f) => UpsertNames(st.values, f, "");
    case StrVal(f, s) => UpsertNames(st.values, f, CsvQuote(s));
    case IntVal(f, n) => UpsertNames(st.values, f, Decimal(n));
    case NewRecord =>
      assert UniqueNames(r.values) by { assert Names(r.values) == Names(st.values); }
    case Footer =>
      assert UniqueNames(r.values) by { assert Names(r.values) == Names(st.values); }
  }

  lemma {:induction false} CsvRunValid(calls: seq<SinkCall>)
    ensures CsvValid(CsvRun(CsvInitial, calls))
  {
    if calls != [] {
      CsvRunValid(calls[..|calls| - 1]);
      CsvApplyValid(CsvRun(CsvInitial, calls[..|calls| - 1]), calls[|calls| - 1]);
    }
  }

  /** `ReportCsv`. */
  class ReportCsv {
    var out: string
    var firstRecord: bool
    var values: seq<Field>

    function State(): CsvState
      reads this
    {
      CsvState(out, firstRecord, values)
    }

    constructor ()
      ensures State() == CsvInitial
    {
      out := "";
      firstRecord := true;
      values := [];
    }

    /** `update_field_with_value`: the search for the field, then the
        replacement or the append. */
    method UpdateFieldWithValue(f: string, v: string)
      modifies this
      ensures values == Upsert(old(values), f, v)
      ensures out == old(out) && firstRecord == old(firstRecord)
    {
      var i := 0;
      while i < |values| && values[i].0 != f
        invariant 0 <= i <= |values|
        invariant forall k :: 0 <= k < i ==> values[k].0 != f
      {
        i := i + 1;
      }
      if i < |values| {
        assert FindField(values, f) == Some(i);
        values := values[i := (values[i].0, v)];
      } else {
        assert f !in Names(values) by {
          forall k | 0 <= k < |values|
            ensures Names(values)[k] != f
          {
          }
        }
        values := values + [(f, v)];
      }
    }

    /** `write_header`: the buffered names, comma-separated. */
    method WriteHeader()
      modifies this
      ensures out == old(out) + Join(Names(values), ",")
      ensures values == old(values) && firstRecord == old(firstRecord)
    {
      var names := Names(values);
      var i := 0;
      while i < |values|
        invariant 0 <= i <= |values| && values == old(values) && firstRecord == old(firstRecord)
        invariant out == old(out) + ItemsUpTo(names, i, ",")
      {
        if i == |values| - 1 {
          out := out + values[i].0;
        } else {
          out := out + values[i].0 + ",";
        }
        i := i + 1;
      }
      assert ItemsUpTo(names, |names|, ",") == Join(names, ",") by {
        if |names| > 0 {
          ItemsUpToJoin(names, |names|, ",");
          assert names[..|names|] == names;
        }
      }
    }

    /** `write_values`: the values, comma-separated, each emptied once
        written. */
    method WriteValues()
      modifies this
      ensures out == old(out) + Join(Vals(old(values)), ",")
      ensures values == Cleared(old(values)) && firstRecord == old(firstRecord)
    {
      var vs := values;
      var vals := Vals(vs);
      var written, cleared := "", vs;
      var i := 0;
      while i < |vs|
        invariant 0 <= i <= |vs| == |cleared|
        invariant written == ItemsUpTo(vals, i, ",")
        invariant forall k :: 0 <= k < i ==> cleared[k] == (vs[k].0, "")
        invariant forall k :: i <= k < |vs| ==> cleared[k] == vs[k]
      {
        ghost var before := written;
        var last := if i == |vs| - 1 then "" else ",";
        if vs[i].1 == "" {
          written := written + last;
        } else {
          written := written + vs[i].1 + last;
          cleared := cleared[i := (vs[i].0, "")];
        }
        assert written == before + Item(vals, i, ",");
        assert cleared[i] == (vs[i].0, "");
        i := i + 1;
      }
      assert cleared == Cleared(vs);
      assert ItemsUpTo(vals, |vals|, ",") == Join(vals, ",") by {
        if |vals| > 0 {
          ItemsUpToJoin(vals, |vals|, ",");
          assert vals[..|vals|] == vals;
        }
      }
      out := out + written;
      values := cleared;
    }

    /** `new_record`. */
    method NewRecord()
      modifies this
      ensures State() == CsvNewRecord(old(State()))
    {
      var someValues := false;
      var i := 0;
      while i < |values| && !someValues
        invariant 0 <= i <= |values|
        invariant someValues <==> exists k :: 0 <= k < i && values[k].1 != ""
      {
        someValues := values[i].1 != "";
        i := i + 1;
      }
      if someValues {
        if firstRecord {
          WriteHeader();
          firstRecord := false;
        }
        out := out + "\n";
        WriteValues();
      }
    }

    method Footer()
      modifies this
      ensures State() == CsvApply(old(State()), SinkCall.Footer)
    {
      NewRecord();
    }

    method StrVal(f: string, s: string)
      modifies this
      ensures State() == CsvApply(old(State()), SinkCall.StrVal(f, s))
    {
      UpdateFieldWithValue(f, "\"" + CsvEscape(s) + "\"");
    }

    method IntVal(f: string, n: nat)
      modifies this
      ensures State() == CsvApply(old(State()), SinkCall.IntVal(f, n))
    {
      UpdateFieldWithValue(f, Decimal(n));
    }

    method SetField(f: string)
      modifies this
      ensures State() == CsvApply(old(State()), SinkCall.SetField(f))
    {
      UpdateFieldWithValue(f, "");
    }

    method Apply(call: SinkCall)
      modifies this
      ensures State() == CsvApply(old(State()), call)
    {
      match call
      case SetField(f) => SetField(f);
      case NewRecord => NewRecord();
      case StrVal(f, s) => StrVal(f, s);
      case IntVal(f, n) => IntVal(f, n);
      case Footer => Footer();
    }

    /** The calls, one after the other. */
    method Replay(calls: seq<SinkCall>)
      modifies this
      ensures State() == CsvRun(old(State()), calls)
    {
      var i := 0;
      while i < |calls|
        invariant 0 <= i <= |calls|
        invariant State() == CsvRun(old(State()), calls[..i])
      {
        assert calls[..i + 1][..i] == calls[..i];
        Apply(calls[i]);
        i := i + 1;
      }
      assert calls[..|calls|] == calls;
    }
  }

  // ===========================================================================
  // ReportJson

  /** `ReportJson::escape`: first every `\` doubled, then every `"` preceded
      by a `\` (section 7 of RFC 8259, for these two characters). */
  function JsonEscape(s: string): string {
    ReplaceAll(ReplaceAll(s, '\\', "\\\\"), '"', "\\\"")
  }

  /** The two passes in one: each character's escape. */
  function JsonEscapeChar(c: char): string {
    if c == '\\' then "\\\\" else if c == '"' then "\\\"" else [c]
  }

  lemma {:induction false} JsonEscapeOnePass(s: string)
    ensures s != [] ==> JsonEscape(s) == JsonEscapeChar(s[0]) + JsonEscape(s[1..])
    ensures s == [] ==> JsonEscape(s) == []
  {
    if s != [] {
      var first := ReplaceAll([s[0]], '\\', "\\\\");
      assert ReplaceAll(s, '\\', "\\\\") == first + ReplaceAll(s[1..], '\\', "\\\\");
      ReplaceAllAppend(first, ReplaceAll(s[1..], '\\', "\\\\"), '"', "\\\"");
      assert ReplaceAll(first, '"', "\\\"") == JsonEscapeChar(s[0]) by {
        if s[0] == '\\' {
          assert first == "\\\\";
          assert first == "\\" + "\\";
          ReplaceAllAppend("\\", "\\", '"', "\\\"");
        }
      }
    }
  }

  /** The inverse of `JsonEscape`: a `\` and the character after it become
      that character. */
  function JsonUnescape(e: string): string
    decreases |e|
  {
    if e == [] then []
    else if |e| >= 2 && e[0] == '\\' then [e[1]] + JsonUnescape(e[2..])
    else [e[0]] + JsonUnescape(e[1..])
  }

  /** Because backslashes are doubled first, the escaping is reversible,
      and no `"` of the value is left bare to end the JSON string early. */
  lemma {:induction false} JsonEscapeRoundTrip(s: string)
    ensures JsonUnescape(JsonEscape(s)) == s
    ensures forall k :: 0 <= k < |JsonEscape(s)| && JsonEscape(s)[k] == '"' ==>
              k > 0 && JsonEscape(s)[k - 1] == '\\'
  {
    JsonEscapeOnePass(s);
    if s != [] {
      JsonEscapeRoundTrip(s[1..]);
      var e := JsonEscape(s);
      var rest := JsonEscape(s[1..]);
      var head := JsonEscapeChar(s[0]);
      assert e == head + rest;
      if s[0] == '\\' || s[0] == '"' {
        assert |head| == 2 && head[0] == '\\';
        assert e[2..] == rest;
        forall k | 0 <= k < |e| && e[k] == '"'
          ensures k > 0 && e[k - 1] == '\\'
        {
          if k >= 2 {
            assert e[k] == rest[k - 2];
            if k >= 3 {
              assert e[k - 1] == rest[k - 3];
            }
          }
        }
      } else {
        assert e[1..] == rest;
        forall k | 0 <= k < |e| && e[k] == '"'
          ensures k > 0 && e[k - 1] == '\\'
        {
          assert e[k] == rest[k - 1];
          if k >= 2 {
            assert e[k - 1] == rest[k - 2];
          }
        }
      }
      assert s == [s[0]] + s[1..];
    }
  }

  /** The text `write_values` writes for fragment `k`: nothing for an empty
      fragment, otherwise the fragment followed by a comma unless it is the
      last one. */
  function JsonItem(values: seq<string>, k: nat): string
    requires k < |values|
  {
    if values[k] == "" then "" else Item(values, k, ",")
  }

  function JsonItemsUpTo(values: seq<string>, i: nat): string
    requires i <= |values|
  {
    if i == 0 then "" else JsonItemsUpTo(values, i - 1) + JsonItem(values, i - 1)
  }

  /** One JSON record: `{`, the fragments, `}`; nothing for no fragments. */
  function JsonRecord(values: seq<string>): string {
    if |values| == 0 then "" else "{" + JsonItemsUpTo(values, |values|) + "}"
  }

  predicate NoneEmpty(values: seq<string>) {
    forall k :: 0 <= k < |values| ==> values[k] != ""
  }

  /** When every fragment is non-empty, as `str_val` and `int_val` make
      them, a record is its fragments joined by commas, in braces. */
  lemma JsonRecordJoin(values: seq<string>)
    requires |values| > 0 && NoneEmpty(values)
    ensures JsonRecord(values) == "{" + Join(values, ",") + "}"
  {
    assert JsonItemsUpTo(values, |values|) == Join(values, ",") by {
      JsonItemsAreItems(values, |values|);
      ItemsUpToJoin(values, |values|, ",");
      assert values[..|values|] == values;
    }
  }

  lemma {:induction false} JsonItemsAreItems(values: seq<string>, i: nat)
    requires i <= |values| && NoneEmpty(values)
    ensures JsonItemsUpTo(values, i) == ItemsUpTo(values, i, ",")
  {
    if i > 0 {
      JsonItemsAreItems(values, i - 1);
    }
  }

  /** What a JSON report holds between calls. */
  datatype JsonState = JsonState(out: string, firstRecord: bool, values: seq<string>)

  /** `ReportJson::new` has written the opening bracket. */
  const JsonInitial := JsonState("[", true, [])

  /** `new_record`: when fragments are buffered, a `,\n` separator unless
      this is the first record, then the record; the buffer is emptied. */
  function JsonNewRecord(st: JsonState): (r: JsonState)
    ensures |st.values| > 0 ==>
              r == JsonState(st.out + (if st.firstRecord then "" else ",\n") + JsonRecord(st.values), false, [])
    ensures |st.values| == 0 ==> r == st
  {
    if |st.values| > 0 then
      JsonState(st.out + (if st.firstRecord then "" else ",\n") + JsonRecord(st.values), false, [])
    else st
  }

  function JsonStrFragment(f: string, s: string): string {
    "\"" + f + "\":\"" + JsonEscape(s) + "\""
  }

  function JsonIntFragment(f: string, n: nat): string {
    "\"" + f + "\":" + Decimal(n)
  }

  /** A JSON report ignores `set_field`; `footer` ends the array. */
  function JsonApply(st: JsonState, call: SinkCall): JsonState {
    match call
    case SetField(_) => st
    case NewRecord => JsonNewRecord(st)
    case StrVal(f, s) => st.(values := st.values + [JsonStrFragment(f, s)])
    case IntVal(f, n) => st.(values := st.values + [JsonIntFragment(f, n)])
    case Footer => var r := JsonNewRecord(st); r.(out := r.out + "]")
  }

  function JsonRun(st: JsonState, calls: seq<SinkCall>): JsonState {
    if calls == [] then st else JsonApply(JsonRun(st, calls[..|calls| - 1]), calls[|calls| - 1])
  }

  lemma JsonRunSnoc(st: JsonState, calls: seq<SinkCall>, call: SinkCall)
    ensures JsonRun(st, calls + [call]) == JsonApply(JsonRun(st, calls), call)
  {
    assert (calls + [call])[..|calls|] == calls;
  }

  /** Replaying two call sequences one after the other is replaying both. */
  lemma {:induction false} JsonRunAppend(st: JsonState, a: seq<SinkCall>, b: seq<SinkCall>)
    ensures JsonRun(st, a + b) == JsonRun(JsonRun(st, a), b)
  {
    if b == [] {
      assert a + b == a;
    } else {
      var c := b[|b| - 1];
      var b' := b[..|b| - 1];
      assert b == b' + [c];
      assert a + b == (a + b') + [c];
      JsonRunAppend(st, a, b');
      JsonRunSnoc(st, a + b', c);
      JsonRunSnoc(JsonRun(st, a), b', c);
    }
  }

  /** What a JSON report keeps true: the file starts with `[`, holds no
      record before the first one is written (only closing brackets may
      follow), and no buffered fragment is empty. */
  predicate JsonValid(st: JsonState) {
    && StartsWith(st.out, "[")
    && (st.firstRecord ==> forall k :: 1 <= k < |st.out| ==> st.out[k] == ']')
    && NoneEmpty(st.values)
  }

  /** Every call keeps the report valid and only appends; after the first
      record each record is preceded by `,\n`; a footer ends the file with
      `]`. */
  lemma JsonApplyValid(st: JsonState, call: SinkCall)
    requires JsonValid(st)
    ensures var r := JsonApply(st, call);
            && JsonValid(r)
            && StartsWith(r.out, st.out)
            && (!st.firstRecord ==> !r.firstRecord)
            && (call.NewRecord? && |st.values| > 0 ==>
                  r.out == st.out + (if st.firstRecord then "" else ",\n")
                                  + "{" + Join(st.values, ",") + "}")
            && (call.Footer? ==> EndsWith(r.out, "]"))
  {
    match call
    case SetField(_) =>
    case StrVal(f, s) =>
      JsonBufferValid(st, JsonStrFragment(f, s));
    case IntVal(f, n) =>
      JsonBufferValid(st, JsonIntFragment(f, n));
    case NewRecord =>
      if |st.values| > 0 {
        JsonNewRecordText(st);
      }
      JsonNewRecordGrows(st);
    case Footer =>
      JsonFooterValid(st);
  }

  /** The text a flushed record appends. */
  lemma JsonNewRecordText(st: JsonState)
    requires |st.values| > 0 && NoneEmpty(st.values)
    ensures JsonNewRecord(st).out == st.out + (if st.firstRecord then "" else ",\n") + "{" + Join(st.values, ",") + "}"
  {
    JsonRecordJoin(st.values);
  }

  /** Buffering a non-empty fragment keeps the report valid. */
  lemma JsonBufferValid(st: JsonState, fragment: string)
    requires JsonValid(st) && fragment != ""
    ensures JsonValid(st.(values := st.values + [fragment]))
  {
  }

  /** A footer keeps the report valid, only appends, and ends it with `]`. */
  lemma JsonFooterValid(st: JsonState)
    requires JsonValid(st)
    ensures var r := JsonApply(st, Footer);
            && JsonValid(r) && StartsWith(r.out, st.out)
            && (!st.firstRecord ==> !r.firstRecord)
            && EndsWith(r.out, "]")
  {
    var m := JsonNewRecord(st);
    JsonNewRecordGrows(st);
    var r := m.(out := m.out + "]");
    assert r.out[..|st.out|] == m.out[..|st.out|];
    assert r.out[..1] == m.out[..1];
  }

  lemma JsonNewRecordGrows(st: JsonState)
    requires JsonValid(st)
    ensures JsonValid(JsonNewRecord(st)) && StartsWith(JsonNewRecord(st).out, st.out)
  {
    var r := JsonNewRecord(st);
    if |st.values| > 0 {
      var tail := (if st.firstRecord then "" else ",\n") + JsonRecord(st.values);
      assert r.out == st.out + tail;
      assert r.out[..|st.out|] == st.out;
      assert r.out[..1] == st.out[..1];
    }
  }

  lemma {:induction false} JsonRunValid(calls: seq<SinkCall>)
    ensures JsonValid(JsonRun(JsonInitial, calls))
  {
    if calls != [] {
      JsonRunValid(calls[..|calls| - 1]);
      JsonApplyValid(JsonRun(JsonInitial, calls[..|calls| - 1]), calls[|calls| - 1]);
    }
  }

  /** `ReportJson`. */
  class ReportJson {
    var out: string
    var firstRecord: bool
    var values: seq<string>

    function State(): JsonState
      reads this
    {
      JsonState(out, firstRecord, values)
    }

    /** `ReportJson::new`: writes `[`. */
    constructor ()
      ensures State() == JsonInitial
    {
      out := "[";
      firstRecord := true;
      values := [];
    }

    /** `write_values`. */
    method WriteValues()
      modifies this
      ensures out == old(out) + JsonRecord(old(values))
      ensures values == [] && firstRecord == old(firstRecord)
    {
      var vs := values;
      var len := |vs|;
      if len == 0 {
        return;
      }
      var written := "";
      var i := 0;
      while i < len
        invariant 0 <= i <= len
        invariant written == JsonItemsUpTo(vs, i)
      {
        ghost var before := written;
        if vs[i] != "" {
          var last := if i == len - 1 then "" else ",";
          written := written + vs[i] + last;
        }
        assert written == before + JsonItem(vs, i);
        i := i + 1;
      }
      assert JsonRecord(vs) == "{" + written + "}";
      out := out + "{" + written + "}";
      values := [];
    }

    /** `new_record`. */
    method NewRecord()
      modifies this
      ensures State() == JsonNewRecord(old(State()))
    {
      if |values| > 0 {
        if !firstRecord {
          out := out + ",\n";
        } else {
          firstRecord := false;
        }
        WriteValues();
      }
    }

    /** `footer`: the pending record, then `]`. */
    method Footer()
      modifies this
      ensures State() == JsonApply(old(State()), SinkCall.Footer)
    {
      NewRecord();
      out := out + "]";
    }

    method StrVal(f: string, s: string)
      modifies this
      ensures State() == JsonApply(old(State()), SinkCall.StrVal(f, s))
    {
      values := values + ["\"" + f + "\":\"" + JsonEscape(s) + "\""];
    }

    method IntVal(f: string, n: nat)
      modifies this
      ensures State() == JsonApply(old(State()), SinkCall.IntVal(f, n))
    {
      values := values + ["\"" + f + "\":" + Decimal(n)];
    }

    method Apply(call: SinkCall)
      modifies this
      ensures State() == JsonApply(old(State()), call)
    {
      match call
      case SetField(_) =>
      case NewRecord => NewRecord();
      case StrVal(f, s) => StrVal(f, s);
      case IntVal(f, n) => IntVal(f, n);
      case Footer => Footer();
    }

    method Replay(calls: seq<SinkCall>)
      modifies this
      ensures State() == JsonRun(old(State()), calls)
    {
      var i := 0;
      while i < |calls|
        invariant 0 <= i <= |calls|
        invariant State() == JsonRun(old(State()), calls[..i])
      {
        assert calls[..i + 1][..i] == calls[..i];
        Apply(calls[i]);
        i := i + 1;
      }
      assert calls[..|calls|] == calls;
    }
  }

  /** The `set_field` calls declaring a report's columns, in order. */
  function SetFields(used: seq<string>): (r: seq<SinkCall>)
    ensures |r| == |used| && forall k :: 0 <= k < |used| ==> r[k] == SetField(used[k])
  {
    seq(|used|, k requires 0 <= k < |used| => SetField(used[k]))
  }

  // ---------------------------------------------------------------------------
  // Counting the rows of a report

  /** A cell of a row, its field free of `.`. */
  predicate IsCell(call: SinkCall) {
    (call.StrVal? || call.IntVal?) && '.' !in call.field
  }

  /** The number of rows in a report. */
  function Rows(calls: seq<SinkCall>): nat {
    if calls == [] then 0 else (if calls[0] == NewRecord then 1 else 0) + Rows(calls[1..])
  }

  lemma {:induction false} RowsAppend(a: seq<SinkCall>, b: seq<SinkCall>)
    ensures Rows(a + b) == Rows(a) + Rows(b)
  {
    if a == [] {
      assert a + b == b;
    } else {
      assert (a + b)[0] == a[0] && (a + b)[1..] == a[1..] + b;
      RowsAppend(a[1..], b);
    }
  }

  /** A report its `footer` has closed: the last call, and the only one. */
  predicate ClosedOnce(calls: seq<SinkCall>) {
    |calls| > 0 && calls[|calls| - 1] == Footer && Footer !in calls[..|calls| - 1]
  }

  /** Dropping a report that was never closed closes it once and adds no row. */
  lemma DropCloses(calls: seq<SinkCall>)
    requires Footer !in calls
    ensures ClosedOnce(calls + [Footer]) && Rows(calls + [Footer]) == Rows(calls)
  {
    assert (calls + [Footer])[..|calls|] == calls;
    RowsAppend(calls, [Footer]);
    CellsHaveNoRows([Footer]);
  }

  /** A run of cells starts no row. */
  lemma {:induction false} CellRunHasNoRows(calls: seq<SinkCall>)
    requires forall k :: 0 <= k < |calls| ==> IsCell(calls[k])
    ensures Rows(calls) == 0
  {
    if calls != [] {
      assert forall k :: 0 <= k < |calls[1..]| ==> calls[1..][k] == calls[k + 1];
      CellRunHasNoRows(calls[1..]);
    }
  }

  lemma {:induction false} CellsHaveNoRows(calls: seq<SinkCall>)
    requires NewRecord !in calls
    ensures Rows(calls) == 0
  {
    if calls != [] {
      CellsHaveNoRows(calls[1..]);
    }
  }
}

/** The two unit tests of src/report.rs, as lemmas about the call sequences
    they make: `test_report_csv` and `test_report_json`. Both tests set one
    or two values, then run `for i in 1..10 { new_record(); <value i> }`,
    and end when the report is dropped, which calls `footer`.

    The loop is first replayed for any step function that flushes and
    buffers the way the reports do (`CsvLoopJoin`, `JsonLoopJoin`), then
    instantiated with `CsvApply` or `JsonApply` and the tests' values; only
    the last lemmas use the tests' literals, and state the expected files
    line by line (CSV) or record by record (JSON). */
module ReportUnitTests {
  import opened Wrappers
  import opened Text
  import opened Report

  // ---------------------------------------------------------------------------
  // The loop, for any values and any step function

  /** The calls of `for k in 1..=i { new_record(); <value k> }`. */
  function Loop(val: nat -> SinkCall, i: nat): seq<SinkCall> {
    if i == 0 then [] else Loop(val, i - 1) + [NewRecord, val(i)]
  }

  /** The calls replayed one by one through `step`. */
  function Replay<S>(step: (S, SinkCall) -> S, st: S, calls: seq<SinkCall>): S {
    if calls == [] then st else step(Replay(step, st, calls[..|calls| - 1]), calls[|calls| - 1])
  }

  lemma ReplaySnoc<S>(step: (S, SinkCall) -> S, st: S, calls: seq<SinkCall>, c: SinkCall)
    ensures Replay(step, st, calls + [c]) == step(Replay(step, st, calls), c)
  {
    assert (calls + [c])[..|calls|] == calls;
  }

  /** One iteration: the flush, then the value. */
  lemma ReplayLoop<S>(step: (S, SinkCall) -> S, st: S, val: nat -> SinkCall, i: nat)
    requires i >= 1
    ensures Replay(step, st, Loop(val, i)) == step(step(Replay(step, st, Loop(val, i - 1)), NewRecord), val(i))
  {
    assert Loop(val, i) == Loop(val, i - 1) + [NewRecord] + [val(i)];
    ReplaySnoc(step, st, Loop(val, i - 1), NewRecord);
    ReplaySnoc(step, st, Loop(val, i - 1) + [NewRecord], val(i));
  }

  lemma {:induction false} CsvReplay(st: CsvState, calls: seq<SinkCall>)
    ensures CsvRun(st, calls) == Replay(CsvApply, st, calls)
    decreases |calls|
  {
    if calls != [] {
      CsvReplay(st, calls[..|calls| - 1]);
    }
  }

  lemma {:induction false} JsonReplay(st: JsonState, calls: seq<SinkCall>)
    ensures JsonRun(st, calls) == Replay(JsonApply, st, calls)
    decreases |calls|
  {
    if calls != [] {
      JsonReplay(st, calls[..|calls| - 1]);
    }
  }

  /** The text once iteration `i >= 1` has flushed: `first`, then `sep`
      and `f(k)` for each earlier iteration `k`. */
  function Written(out0: string, first: string, f: nat -> string, sep: string, i: nat): string
    requires i >= 1
  {
    if i == 1 then out0 + first else Written(out0, first, f, sep, i - 1) + sep + f(i - 1)
  }

  /** `init` followed by `f(1), .., f(i - 1)`. */
  function Grow(init: seq<string>, f: nat -> string, i: nat): (r: seq<string>)
    requires i >= 1
    ensures |r| == |init| + i - 1
  {
    if i == 1 then init else Grow(init, f, i - 1) + [f(i - 1)]
  }

  lemma {:induction false} GrowAt(init: seq<string>, f: nat -> string, i: nat, k: nat)
    requires 1 <= i && k < |init| + i - 1
    ensures Grow(init, f, i)[k] == if k < |init| then init[k] else f(k - |init| + 1)
  {
    if i > 1 && k < |init| + i - 2 {
      GrowAt(init, f, i - 1, k);
    }
  }

  lemma JoinSnoc(xs: seq<string>, s: string, sep: string)
    requires |xs| >= 1
    ensures Join(xs + [s], sep) == Join(xs, sep) + sep + s
  {
    assert (xs + [s])[..|xs|] == xs;
  }

  lemma JoinOne(s: string, sep: string)
    ensures Join([s], sep) == s
  {
  }

  lemma CallsAssoc(a: seq<SinkCall>, b: seq<SinkCall>, c: seq<SinkCall>)
    ensures a + b + c == a + (b + c)
  {
  }

  lemma EmptyAppend(v: string)
    ensures [] + [v] == [v]
  {
  }

  lemma Regroup(out: string, j: string, sep: string, r: string)
    ensures out + j + sep + r == out + (j + sep + r)
  {
  }

  /** What the loop writes is `init` and the later lines or records,
      joined by `sep`. */
  lemma {:induction false} WrittenJoin(out0: string, init: seq<string>, f: nat -> string, sep: string, i: nat)
    requires 1 <= i && |init| >= 1
    ensures Written(out0, Join(init, sep), f, sep, i) == out0 + Join(Grow(init, f, i), sep)
  {
    if i > 1 {
      var g := Grow(init, f, i - 1);
      WrittenJoin(out0, init, f, sep, i - 1);
      JoinSnoc(g, f(i - 1), sep);
      Regroup(out0, Join(g, sep), sep, f(i - 1));
    }
  }

  /** The same, from a single first line or record. */
  lemma WrittenJoinOne(out0: string, first: string, f: nat -> string, sep: string, i: nat)
    requires 1 <= i
    ensures Written(out0, first, f, sep, i) == out0 + Join(Grow([first], f, i), sep)
  {
    JoinOne(first, sep);
    WrittenJoin(out0, [first], f, sep, i);
  }

  // ---------------------------------------------------------------------------
  // CSV: the loop over two columns

  /** A report past its first record, with both columns emptied, and one
      whose columns hold `a` and `b`. */
  function Emptied(out: string, x: string, y: string): CsvState {
    CsvState(out, false, [(x, ""), (y, "")])
  }

  function Filled(out: string, x: string, y: string, a: string, b: string): CsvState {
    CsvState(out, false, [(x, a), (y, b)])
  }

  /** `step` flushes a filled buffer as a line, both on `new_record` and
      on `footer`. */
  ghost predicate CsvFlushes(step: (CsvState, SinkCall) -> CsvState, x: string, y: string) {
    && (forall out, a, b {:trigger step(Filled(out, x, y, a, b), NewRecord)} ::
          a != "" || b != "" ==> step(Filled(out, x, y, a, b), NewRecord) == Emptied(out + "\n" + (a + "," + b), x, y))
    && (forall out, a, b {:trigger step(Filled(out, x, y, a, b), Footer)} ::
          a != "" || b != "" ==> step(Filled(out, x, y, a, b), Footer).out == out + "\n" + (a + "," + b))
  }

  /** `val(k)` fills an emptied buffer with `vx(k)` and `vy(k)`, not both
      empty; `row(k)` is the line of that buffer. */
  ghost predicate CsvValues(step: (CsvState, SinkCall) -> CsvState, x: string, y: string, val: nat -> SinkCall,
                            vx: nat -> string, vy: nat -> string, row: nat -> string)
  {
    && (forall k, out {:trigger step(Emptied(out, x, y), val(k))} ::
          step(Emptied(out, x, y), val(k)) == Filled(out, x, y, vx(k), vy(k)))
    && (forall k :: vx(k) != "" || vy(k) != "")
    && (forall k :: row(k) == vx(k) + "," + vy(k))
  }

  /** From a report whose first flush writes `first`: one line per
      earlier iteration, and iteration `i`'s values buffered. */
  lemma {:induction false} CsvLoopRun(step: (CsvState, SinkCall) -> CsvState, st: CsvState, out0: string,
                                      first: string, x: string, y: string, val: nat -> SinkCall,
                                      vx: nat -> string, vy: nat -> string, row: nat -> string, i: nat)
    requires 1 <= i && CsvFlushes(step, x, y) && CsvValues(step, x, y, val, vx, vy, row)
    requires step(st, NewRecord) == Emptied(out0 + first, x, y)
    ensures Replay(step, st, Loop(val, i)) == Filled(Written(out0, first, row, "\n", i), x, y, vx(i), vy(i))
  {
    ReplayLoop(step, st, val, i);
    if i == 1 {
      assert Replay(step, st, Loop(val, 0)) == st;
    } else {
      CsvLoopRun(step, st, out0, first, x, y, val, vx, vy, row, i - 1);
    }
  }

  /** The drop's footer flushes iteration `i`'s line. */
  lemma CsvLoopFooter(step: (CsvState, SinkCall) -> CsvState, st: CsvState, out0: string, first: string,
                      x: string, y: string, val: nat -> SinkCall, vx: nat -> string, vy: nat -> string,
                      row: nat -> string, i: nat)
    requires 1 <= i && CsvFlushes(step, x, y) && CsvValues(step, x, y, val, vx, vy, row)
    requires step(st, NewRecord) == Emptied(out0 + first, x, y)
    ensures Replay(step, st, Loop(val, i) + [Footer]).out == Written(out0, first, row, "\n", i + 1)
  {
    CsvLoopRun(step, st, out0, first, x, y, val, vx, vy, row, i);
    ReplaySnoc(step, st, Loop(val, i), Footer);
  }

  /** The whole file, from a report whose first flush writes the lines
      `init`: those lines and one line per iteration. */
  lemma CsvLoopJoin(step: (CsvState, SinkCall) -> CsvState, st: CsvState, init: seq<string>,
                    x: string, y: string, val: nat -> SinkCall, vx: nat -> string, vy: nat -> string,
                    row: nat -> string, i: nat)
    requires 1 <= i && |init| >= 1 && CsvFlushes(step, x, y) && CsvValues(step, x, y, val, vx, vy, row)
    requires step(st, NewRecord) == Emptied("" + Join(init, "\n"), x, y)
    ensures Replay(step, st, Loop(val, i) + [Footer]).out == Join(Grow(init, row, i + 1), "\n")
  {
    CsvLoopFooter(step, st, "", Join(init, "\n"), x, y, val, vx, vy, row, i);
    WrittenJoin("", init, row, "\n", i + 1);
    assert "" + Join(Grow(init, row, i + 1), "\n") == Join(Grow(init, row, i + 1), "\n");
  }

  // ---------------------------------------------------------------------------
  // JSON: the loop over one fragment per record

  /** A report past its first record, with nothing buffered, and one
      holding the single fragment `v`. */
  function JsonEmptied(out: string): JsonState {
    JsonState(out, false, [])
  }

  function Holding(out: string, v: string): JsonState {
    JsonState(out, false, [v])
  }

  /** `step` flushes a single fragment as a record, both on `new_record`
      and, with the closing bracket, on `footer`. */
  ghost predicate JsonFlushes(step: (JsonState, SinkCall) -> JsonState) {
    && (forall out, v {:trigger step(Holding(out, v), NewRecord)} ::
          v != "" ==> step(Holding(out, v), NewRecord) == JsonEmptied(out + ",\n" + ("{" + v + "}")))
    && (forall out, v {:trigger step(Holding(out, v), Footer)} ::
          v != "" ==> step(Holding(out, v), Footer).out == out + ",\n" + ("{" + v + "}") + "]")
  }

  /** `val(k)` buffers the fragment `frag(k)`, which is never empty;
      `rec(k)` is the record of that fragment alone. */
  ghost predicate JsonValues(step: (JsonState, SinkCall) -> JsonState, val: nat -> SinkCall,
                             frag: nat -> string, rec: nat -> string)
  {
    && (forall k, out {:trigger step(JsonEmptied(out), val(k))} ::
          step(JsonEmptied(out), val(k)) == Holding(out, frag(k)))
    && (forall k :: frag(k) != "")
    && (forall k :: rec(k) == "{" + frag(k) + "}")
  }

  /** From a report whose first flush writes `first`: one record per
      earlier iteration, and iteration `i`'s fragment buffered. */
  lemma {:induction false} JsonLoopRun(step: (JsonState, SinkCall) -> JsonState, st: JsonState, out0: string,
                                       first: string, val: nat -> SinkCall, frag: nat -> string,
                                       rec: nat -> string, i: nat)
    requires 1 <= i && JsonFlushes(step) && JsonValues(step, val, frag, rec)
    requires step(st, NewRecord) == JsonEmptied(out0 + first)
    ensures Replay(step, st, Loop(val, i)) == Holding(Written(out0, first, rec, ",\n", i), frag(i))
  {
    ReplayLoop(step, st, val, i);
    if i == 1 {
      assert Replay(step, st, Loop(val, 0)) == st;
    } else {
      JsonLoopRun(step, st, out0, first, val, frag, rec, i - 1);
    }
  }

  /** The drop's footer writes iteration `i`'s record and the closing
      bracket. */
  lemma JsonLoopFooter(step: (JsonState, SinkCall) -> JsonState, st: JsonState, out0: string, first: string,
                       val: nat -> SinkCall, frag: nat -> string, rec: nat -> string, i: nat)
    requires 1 <= i && JsonFlushes(step) && JsonValues(step, val, frag, rec)
    requires step(st, NewRecord) == JsonEmptied(out0 + first)
    ensures Replay(step, st, Loop(val, i) + [Footer]).out == Written(out0, first, rec, ",\n", i + 1) + "]"
  {
    JsonLoopRun(step, st, out0, first, val, frag, rec, i);
    ReplaySnoc(step, st, Loop(val, i), Footer);
  }

  /** The whole file, from a report whose first flush writes the record
      `first`: that record and one record per iteration, in brackets. */
  lemma JsonLoopJoin(step: (JsonState, SinkCall) -> JsonState, st: JsonState, out0: string, first: string,
                     val: nat -> SinkCall, frag: nat -> string, rec: nat -> string, i: nat)
    requires 1 <= i && JsonFlushes(step) && JsonValues(step, val, frag, rec)
    requires step(st, NewRecord) == JsonEmptied(out0 + first)
    ensures Replay(step, st, Loop(val, i) + [Footer]).out == out0 + Join(Grow([first], rec, i + 1), ",\n") + "]"
  {
    JsonLoopFooter(step, st, out0, first, val, frag, rec, i);
    WrittenJoinOne(out0, first, rec, ",\n", i + 1);
  }

  // ---------------------------------------------------------------------------
  // The reports flush that way

  /** A flush of two columns, at least one of them set. */
  lemma CsvNewRecordTwo(out: string, first: bool, x: string, y: string, vx: string, vy: string)
    requires vx != "" || vy != ""
    ensures CsvApply(CsvState(out, first, [(x, vx), (y, vy)]), NewRecord)
            == CsvState(out + (if first then x + "," + y else "") + "\n" + (vx + "," + vy),
                        false, [(x, ""), (y, "")])
  {
    var values := [(x, vx), (y, vy)];
    assert values[0].1 != "" || values[1].1 != "";
    assert Names(values) == [x, y];
    assert Vals(values) == [vx, vy];
    assert Join([x, y], ",") == x + "," + y by {
      assert [x, y][..1] == [x];
    }
    assert Join([vx, vy], ",") == vx + "," + vy by {
      assert [vx, vy][..1] == [vx];
    }
    assert Cleared(values) == [(x, ""), (y, "")];
  }

  lemma CsvFlushOne(out: string, x: string, y: string, a: string, b: string)
    requires a != "" || b != ""
    ensures CsvApply(Filled(out, x, y, a, b), NewRecord) == Emptied(out + "\n" + (a + "," + b), x, y)
    ensures CsvApply(Filled(out, x, y, a, b), Footer).out == out + "\n" + (a + "," + b)
  {
    CsvNewRecordTwo(out, false, x, y, a, b);
    assert out + "" == out;
  }

  lemma CsvApplyFlushes(x: string, y: string)
    ensures CsvFlushes(CsvApply, x, y)
  {
    forall out, a, b | a != "" || b != ""
      ensures CsvApply(Filled(out, x, y, a, b), NewRecord) == Emptied(out + "\n" + (a + "," + b), x, y)
      ensures CsvApply(Filled(out, x, y, a, b), Footer).out == out + "\n" + (a + "," + b)
    {
      CsvFlushOne(out, x, y, a, b);
    }
  }

  /** Flushing a single buffered fragment. */
  lemma JsonFlushOne(out: string, first: bool, v: string)
    requires v != ""
    ensures JsonApply(JsonState(out, first, [v]), NewRecord)
            == JsonState(out + (if first then "" else ",\n") + ("{" + v + "}"), false, [])
  {
    JsonRecordJoin([v]);
  }

  lemma JsonApplyFlushes()
    ensures JsonFlushes(JsonApply)
  {
    forall out, v | v != ""
      ensures JsonApply(Holding(out, v), NewRecord) == JsonEmptied(out + ",\n" + ("{" + v + "}"))
      ensures JsonApply(Holding(out, v), Footer).out == out + ",\n" + ("{" + v + "}") + "]"
    {
      JsonFlushOne(out, false, v);
    }
  }

  // ---------------------------------------------------------------------------
  // The tests' values

  /** The value the loop gives column `x` or `y` in iteration `i`. */
  function TestValue(i: nat, x: string, y: string): SinkCall {
    if i % 2 == 0 then StrVal(y, "string" + Decimal(i)) else IntVal(x, i)
  }

  function TestValues(x: string, y: string): nat -> SinkCall {
    (k: nat) => TestValue(k, x, y)
  }

  lemma DecimalDigit(d: nat)
    requires d < 10
    ensures Decimal(d) == [DigitChar(d)]
  {
  }

  /** `"string" + i.to_string()` holds nothing to escape. */
  lemma NumberedPlain(i: nat)
    ensures '"' !in "string" + Decimal(i) && '\\' !in "string" + Decimal(i)
  {
    var s := "string" + Decimal(i);
    forall k | 0 <= k < |s|
      ensures s[k] != '"' && s[k] != '\\'
    {
      if k >= 6 {
        assert s[k] == Decimal(i)[k - 6];
      }
    }
  }

  // ---------------------------------------------------------------------------
  // test_report_csv

  function CsvPrelude(x: string, y: string, z: string): seq<SinkCall> {
    [SetField(x), SetField(y), IntVal(x, 0), StrVal(y, z)]
  }

  /** The cells of iteration `k`'s line. */
  function CsvIntCell(k: nat): string {
    if k % 2 == 0 then "" else Decimal(k)
  }

  function CsvStrCell(k: nat): string {
    if k % 2 == 0 then CsvQuote("string" + Decimal(k)) else ""
  }

  function CsvRowText(k: nat): string {
    CsvIntCell(k) + "," + CsvStrCell(k)
  }

  lemma UpsertTwo(x: string, y: string, vx: string, vy: string, f: string, v: string)
    requires x != y && (f == x || f == y)
    ensures Upsert([(x, vx), (y, vy)], f, v) == if f == x then [(x, v), (y, vy)] else [(x, vx), (y, v)]
  {
    var values := [(x, vx), (y, vy)];
    if f == x {
      assert FindField(values, f) == Some(0);
    } else {
      assert values[1..] == [(y, vy)];
      assert FindField(values[1..], f) == Some(0);
      assert FindField(values, f) == Some(1);
    }
  }

  lemma CsvTestValues(x: string, y: string)
    requires x != y
    ensures CsvValues(CsvApply, x, y, TestValues(x, y), CsvIntCell, CsvStrCell, CsvRowText)
  {
    forall k: nat, out: string
      ensures CsvApply(Emptied(out, x, y), TestValues(x, y)(k)) == Filled(out, x, y, CsvIntCell(k), CsvStrCell(k))
    {
      if k % 2 == 0 {
        UpsertTwo(x, y, "", "", y, CsvQuote("string" + Decimal(k)));
      } else {
        UpsertTwo(x, y, "", "", x, Decimal(k));
      }
    }
    forall k: nat
      ensures CsvIntCell(k) != "" || CsvStrCell(k) != ""
    {
      if k % 2 == 0 {
        assert CsvStrCell(k)[0] == '"';
      }
    }
  }

  lemma CsvPreludeFirst(x: string)
    ensures CsvApply(CsvInitial, SetField(x)) == CsvState("", true, [(x, "")])
  {
    assert Upsert([], x, "") == [(x, "")];
  }

  lemma CsvPreludeSecond(x: string, y: string)
    requires x != y
    ensures CsvApply(CsvState("", true, [(x, "")]), SetField(y)) == CsvState("", true, [(x, ""), (y, "")])
  {
    assert FindField([(x, "")], y) == None by {
      assert [(x, "")][1..] == [];
    }
  }

  lemma CsvPreludeValues(x: string, y: string, z: string)
    requires x != y
    ensures CsvApply(CsvState("", true, [(x, ""), (y, "")]), IntVal(x, 0)) == CsvState("", true, [(x, "0"), (y, "")])
    ensures CsvApply(CsvState("", true, [(x, "0"), (y, "")]), StrVal(y, z))
            == CsvState("", true, [(x, "0"), (y, CsvQuote(z))])
  {
    assert Decimal(0) == "0";
    UpsertTwo(x, y, "", "", x, "0");
    UpsertTwo(x, y, "0", "", y, CsvQuote(z));
  }

  /** The report once the prelude has run, and the two lines its first
      flush writes. */
  function CsvTestState(x: string, y: string, z: string): CsvState {
    CsvState("", true, [(x, "0"), (y, CsvQuote(z))])
  }

  function CsvTestInit(x: string, y: string, z: string): seq<string> {
    [x + "," + y, "0" + "," + CsvQuote(z)]
  }

  lemma CsvPreludeState(x: string, y: string, z: string)
    requires x != y
    ensures CsvRun(CsvInitial, CsvPrelude(x, y, z)) == CsvTestState(x, y, z)
  {
    var c0, c1, c2, c3 := SetField(x), SetField(y), IntVal(x, 0), StrVal(y, z);
    assert CsvPrelude(x, y, z) == [] + [c0] + [c1] + [c2] + [c3];
    CsvPreludeFirst(x);
    CsvPreludeSecond(x, y);
    CsvPreludeValues(x, y, z);
    CsvRunSnoc(CsvInitial, [], c0);
    CsvRunSnoc(CsvInitial, [] + [c0], c1);
    CsvRunSnoc(CsvInitial, [] + [c0] + [c1], c2);
    CsvRunSnoc(CsvInitial, [] + [c0] + [c1] + [c2], c3);
  }

  /** The first flush writes the header and the prelude's line. */
  lemma CsvTestFirstFlush(x: string, y: string, z: string)
    ensures CsvApply(CsvTestState(x, y, z), NewRecord) == Emptied("" + Join(CsvTestInit(x, y, z), "\n"), x, y)
  {
    var init := CsvTestInit(x, y, z);
    CsvNewRecordTwo("", true, x, y, "0", CsvQuote(z));
    assert Join(init, "\n") == x + "," + y + "\n" + ("0" + "," + CsvQuote(z)) by {
      assert init[..1] == [x + "," + y];
    }
    Regroup("", x + "," + y, "\n", "0" + "," + CsvQuote(z));
  }

  /** The loop and the drop, from the report the prelude leaves. */
  lemma CsvTestLoop(i: nat, x: string, y: string, z: string)
    requires 1 <= i && x != y
    ensures CsvRun(CsvTestState(x, y, z), Loop(TestValues(x, y), i) + [Footer]).out
            == Join(Grow(CsvTestInit(x, y, z), CsvRowText, i + 1), "\n")
  {
    CsvReplay(CsvTestState(x, y, z), Loop(TestValues(x, y), i) + [Footer]);
    CsvTestFirstFlush(x, y, z);
    CsvApplyFlushes(x, y);
    CsvTestValues(x, y);
    CsvLoopJoin(CsvApply, CsvTestState(x, y, z), CsvTestInit(x, y, z), x, y, TestValues(x, y),
                CsvIntCell, CsvStrCell, CsvRowText, i);
  }

  /** The file after `i` iterations and the drop: the header, the
      prelude's line, and one line per iteration. */
  lemma CsvTestRun(i: nat, x: string, y: string, z: string)
    requires 1 <= i && x != y
    ensures CsvRun(CsvInitial, CsvPrelude(x, y, z) + Loop(TestValues(x, y), i) + [Footer]).out
            == Join(Grow(CsvTestInit(x, y, z), CsvRowText, i + 1), "\n")
  {
    var prelude, rest := CsvPrelude(x, y, z), Loop(TestValues(x, y), i) + [Footer];
    CallsAssoc(prelude, Loop(TestValues(x, y), i), [Footer]);
    CsvRunAppend(CsvInitial, prelude, rest);
    CsvPreludeState(x, y, z);
    CsvTestLoop(i, x, y, z);
  }

  /** An odd iteration's line: the integer cell alone. */
  lemma CsvRowOdd(k: nat)
    requires k % 2 == 1 && k < 10
    ensures CsvRowText(k) == [DigitChar(k)] + ","
  {
    DecimalDigit(k);
  }

  /** An even iteration's line: the string cell alone, nothing escaped. */
  lemma CsvRowEven(k: nat)
    requires k % 2 == 0 && k < 10
    ensures CsvRowText(k) == ",\"string" + [DigitChar(k)] + "\""
  {
    DecimalDigit(k);
    NumberedPlain(k);
  }

  lemma CsvTestPrelude(x: string, y: string, z: string)
    requires x == "int_field" && y == "str_field" && z == "string0"
    ensures x + "," + y == "int_field,str_field"
    ensures "0" + "," + CsvQuote(z) == "0,\"string0\""
  {
    assert '"' !in z;
  }

  /** The lines of the file `test_report_csv` expects. */
  const CsvExpectedLines: seq<string> :=
    ["int_field,str_field", "0,\"string0\"", "1,", ",\"string2\"", "3,", ",\"string4\"",
     "5,", ",\"string6\"", "7,", ",\"string8\"", "9,"]

  lemma CsvTestHeader(x: string, y: string, z: string, k: nat)
    requires x == "int_field" && y == "str_field" && z == "string0" && k < 2
    ensures Grow(CsvTestInit(x, y, z), CsvRowText, 10)[k] == CsvExpectedLines[k]
  {
    CsvTestPrelude(x, y, z);
    GrowAt(CsvTestInit(x, y, z), CsvRowText, 10, k);
  }

  lemma CsvTestOddLine(k: nat)
    requires k % 2 == 1 && k < 10
    ensures [DigitChar(k)] + "," == CsvExpectedLines[k + 1]
  {
    if k == 1 {
    } else if k == 3 {
    } else if k == 5 {
    } else if k == 7 {
    } else {
    }
  }

  lemma CsvTestEvenLine(k: nat)
    requires k % 2 == 0 && 0 < k < 10
    ensures ",\"string" + [DigitChar(k)] + "\"" == CsvExpectedLines[k + 1]
  {
    if k == 2 {
    } else if k == 4 {
    } else if k == 6 {
    } else {
    }
  }

  lemma CsvTestRow(k: nat)
    requires 1 <= k < 10
    ensures CsvRowText(k) == CsvExpectedLines[k + 1]
  {
    if k % 2 == 1 {
      CsvRowOdd(k);
      CsvTestOddLine(k);
    } else {
      CsvRowEven(k);
      CsvTestEvenLine(k);
    }
  }

  lemma CsvTestLines(x: string, y: string, z: string)
    requires x == "int_field" && y == "str_field" && z == "string0"
    ensures Grow(CsvTestInit(x, y, z), CsvRowText, 10) == CsvExpectedLines
  {
    var rs := Grow(CsvTestInit(x, y, z), CsvRowText, 10);
    forall k | 0 <= k < 11
      ensures rs[k] == CsvExpectedLines[k]
    {
      if k < 2 {
        CsvTestHeader(x, y, z, k);
      } else {
        GrowAt(CsvTestInit(x, y, z), CsvRowText, 10, k);
        CsvTestRow(k - 1);
      }
    }
  }

  /** `test_report_csv`: the file the test expects, for the test's column
      names and first value. */
  lemma CsvTestOutput(x: string, y: string, z: string)
    requires x == "int_field" && y == "str_field" && z == "string0"
    ensures CsvRun(CsvInitial, CsvPrelude(x, y, z) + Loop(TestValues(x, y), 9) + [Footer]).out
            == Join(CsvExpectedLines, "\n")
  {
    CsvTestRun(9, x, y, z);
    CsvTestLines(x, y, z);
  }

  // ---------------------------------------------------------------------------
  // test_report_json

  function JsonPrelude(x: string, y: string, z: string): seq<SinkCall> {
    [IntVal(x, 0), StrVal(y, z)]
  }

  /** The one fragment buffered by iteration `i`. */
  function JsonFragment(i: nat, x: string, y: string): string {
    if i % 2 == 0 then JsonStrFragment(y, "string" + Decimal(i)) else JsonIntFragment(x, i)
  }

  function JsonFragments(x: string, y: string): nat -> string {
    (k: nat) => JsonFragment(k, x, y)
  }

  function JsonRecords(x: string, y: string): nat -> string {
    (k: nat) => "{" + JsonFragment(k, x, y) + "}"
  }

  lemma JsonTestValues(x: string, y: string)
    ensures JsonValues(JsonApply, TestValues(x, y), JsonFragments(x, y), JsonRecords(x, y))
  {
    forall k: nat, out: string
      ensures JsonApply(JsonEmptied(out), TestValues(x, y)(k)) == Holding(out, JsonFragment(k, x, y))
    {
      EmptyAppend(JsonFragment(k, x, y));
    }
    forall k: nat
      ensures JsonFragment(k, x, y) != ""
    {
      assert JsonFragment(k, x, y)[0] == '"';
    }
  }

  /** The report once the prelude has run, and the record its first flush
      writes. */
  function JsonTestState(x: string, y: string, z: string): JsonState {
    JsonState("[", true, [JsonIntFragment(x, 0), JsonStrFragment(y, z)])
  }

  function JsonTestInit(x: string, y: string, z: string): seq<string> {
    [JsonRecord([JsonIntFragment(x, 0), JsonStrFragment(y, z)])]
  }

  lemma JsonPreludeState(x: string, y: string, z: string)
    ensures JsonRun(JsonInitial, JsonPrelude(x, y, z)) == JsonTestState(x, y, z)
  {
    var pre := [JsonIntFragment(x, 0), JsonStrFragment(y, z)];
    JsonRunSnoc(JsonInitial, [], IntVal(x, 0));
    JsonRunSnoc(JsonInitial, [IntVal(x, 0)], StrVal(y, z));
    assert [IntVal(x, 0)] + [StrVal(y, z)] == JsonPrelude(x, y, z);
    assert [] + [IntVal(x, 0)] == [IntVal(x, 0)];
    assert [] + [pre[0]] + [pre[1]] == pre;
  }

  lemma JsonTestFirstFlush(x: string, y: string, z: string)
    ensures JsonApply(JsonTestState(x, y, z), NewRecord) == JsonEmptied("[" + JsonTestInit(x, y, z)[0])
  {
    assert "[" + "" == "[";
  }

  /** The loop and the drop, from the report the prelude leaves. */
  lemma JsonTestLoop(i: nat, x: string, y: string, z: string)
    requires 1 <= i
    ensures JsonRun(JsonTestState(x, y, z), Loop(TestValues(x, y), i) + [Footer]).out
            == "[" + Join(Grow(JsonTestInit(x, y, z), JsonRecords(x, y), i + 1), ",\n") + "]"
  {
    var first := JsonTestInit(x, y, z)[0];
    JsonReplay(JsonTestState(x, y, z), Loop(TestValues(x, y), i) + [Footer]);
    JsonTestFirstFlush(x, y, z);
    JsonApplyFlushes();
    JsonTestValues(x, y);
    JsonLoopJoin(JsonApply, JsonTestState(x, y, z), "[", first, TestValues(x, y), JsonFragments(x, y),
                 JsonRecords(x, y), i);
    assert [first] == JsonTestInit(x, y, z);
  }

  /** The file after `i` iterations and the drop: the prelude's record and
      one record per iteration, in brackets. */
  lemma JsonTestRun(i: nat, x: string, y: string, z: string)
    requires 1 <= i
    ensures JsonRun(JsonInitial, JsonPrelude(x, y, z) + Loop(TestValues(x, y), i) + [Footer]).out
            == "[" + Join(Grow(JsonTestInit(x, y, z), JsonRecords(x, y), i + 1), ",\n") + "]"
  {
    var prelude, rest := JsonPrelude(x, y, z), Loop(TestValues(x, y), i) + [Footer];
    CallsAssoc(prelude, Loop(TestValues(x, y), i), [Footer]);
    JsonRunAppend(JsonInitial, prelude, rest);
    JsonPreludeState(x, y, z);
    JsonTestLoop(i, x, y, z);
  }

  /** An odd iteration's record: the integer field alone. */
  lemma JsonIntRecord(i: nat, x: string, y: string)
    requires i % 2 == 1 && i < 10
    ensures "{" + JsonFragment(i, x, y) + "}" == "{\"" + x + "\":" + [DigitChar(i)] + "}"
  {
    DecimalDigit(i);
  }

  /** An even iteration's record: the string field alone, nothing escaped. */
  lemma JsonStrRecord(i: nat, x: string, y: string)
    requires i % 2 == 0 && i < 10
    ensures "{" + JsonFragment(i, x, y) + "}" == "{\"" + y + "\":\"string" + [DigitChar(i)] + "\"}"
  {
    DecimalDigit(i);
    NumberedPlain(i);
    JsonEscapePlain("string" + Decimal(i));
  }

  lemma JsonEscapePlain(s: string)
    requires '\\' !in s && '"' !in s
    ensures JsonEscape(s) == s
  {
  }

  /** Escaping distributes over concatenation. */
  lemma JsonEscapeAppend(s: string, t: string)
    ensures JsonEscape(s + t) == JsonEscape(s) + JsonEscape(t)
  {
    ReplaceAllAppend(s, t, '\\', "\\\\");
    ReplaceAllAppend(ReplaceAll(s, '\\', "\\\\"), ReplaceAll(t, '\\', "\\\\"), '"', "\\\"");
  }

  lemma JsonEscapeSpecial()
    ensures JsonEscape("\"") == "\\\"" && JsonEscape("\\") == "\\\\"
  {
    JsonEscapeOnePass("\"");
    JsonEscapeOnePass("\\");
    assert "\""[1..] == [] && "\\"[1..] == [];
  }

  /** Escaping a value with one quote and one trailing backslash. */
  lemma JsonEscapeExample(a: string, b: string)
    requires '\\' !in a && '"' !in a && '\\' !in b && '"' !in b
    ensures JsonEscape(a + "\"" + b + "\\") == a + "\\\"" + b + "\\\\"
  {
    JsonEscapeAppend(a + "\"" + b, "\\");
    JsonEscapeAppend(a + "\"", b);
    JsonEscapeAppend(a, "\"");
    JsonEscapePlain(a);
    JsonEscapePlain(b);
    JsonEscapeSpecial();
  }

  // The first record of `test_report_json`, whose string value
  // `a + "\"" + b + "\\"` holds a quote and a backslash, built up one
  // literal piece at a time.

  lemma JsonTestPlainParts(a: string, b: string)
    requires a == "string0_with_escapes_here1" && b == "here2"
    ensures '\\' !in a && '"' !in a && '\\' !in b && '"' !in b
  {
  }

  lemma JsonTestEscaped(a: string, b: string)
    requires a == "string0_with_escapes_here1" && b == "here2"
    ensures a + "\\\"" + b + "\\\\" == "string0_with_escapes_here1\\\"here2\\\\"
  {
  }

  lemma JsonTestPiece1(y: string)
    requires y == "str_field"
    ensures "\"" + y + "\":\"" == "\"str_field\":\""
  {
  }

  lemma JsonTestPiece2(e: string)
    requires e == "string0_with_escapes_here1\\\"here2\\\\"
    ensures "\"str_field\":\"" + e == "\"str_field\":\"string0_with_escapes_here1\\\"here2\\\\"
  {
  }

  lemma JsonTestPiece3()
    ensures "\"str_field\":\"string0_with_escapes_here1\\\"here2\\\\" + "\"" == "\"str_field\":\"string0_with_escapes_here1\\\"here2\\\\\""
  {
  }

  lemma JsonTestStrFragment(y: string, a: string, b: string)
    requires y == "str_field" && a == "string0_with_escapes_here1" && b == "here2"
    ensures JsonStrFragment(y, a + "\"" + b + "\\") == "\"str_field\":\"string0_with_escapes_here1\\\"here2\\\\\""
  {
    JsonTestPlainParts(a, b);
    JsonEscapeExample(a, b);
    JsonTestEscaped(a, b);
    JsonTestPiece1(y);
    JsonTestPiece2(a + "\\\"" + b + "\\\\");
    JsonTestPiece3();
  }

  lemma JsonTestIntFragment(x: string)
    requires x == "int_field"
    ensures JsonIntFragment(x, 0) == "\"int_field\":0"
  {
    DecimalDigit(0);
  }

  lemma JsonTestPiece4()
    ensures "{" + "\"int_field\":0" + "," == "{\"int_field\":0,"
  {
  }

  lemma JsonTestPiece5()
    ensures "{\"int_field\":0," + "\"str_field\":\"string0_with_escapes_here1\\\"here2\\\\\""
            == ("{\"int_field\":0," + "\"str_field\":\"string0_") + "with_escapes_here1\\\"here2\\\\\""
  {
    assert "\"str_field\":\"string0_with_escapes_here1\\\"here2\\\\\"" == "\"str_field\":\"string0_" + "with_escapes_here1\\\"here2\\\\\"";
  }

  lemma JsonTestPiece6()
    ensures "{\"int_field\":0," + "\"str_field\":\"string0_" == "{\"int_field\":0,\"str_field\":\"string0_"
  {
  }

  lemma JsonTestPiece7()
    ensures "{\"int_field\":0,\"str_field\":\"string0_" + "with_escapes_here1\\\"here2\\\\\""
            == "{\"int_field\":0,\"str_field\":\"string0_with_escapes_here1\\\"here2\\\\\""
  {
  }

  lemma JsonTestPiece8()
    ensures "{\"int_field\":0,\"str_field\":\"string0_with_escapes_here1\\\"here2\\\\\"" + "}" == "{\"int_field\":0,\"str_field\":\"string0_with_escapes_here1\\\"here2\\\\\"}"
  {
  }

  lemma JsonTestFirstText(f0: string, f1: string)
    requires f0 == "\"int_field\":0" && f1 == "\"str_field\":\"string0_with_escapes_here1\\\"here2\\\\\""
    ensures "{" + f0 + "," + f1 + "}" == JsonExpectedRecords[0]
  {
    JsonTestPiece4();
    JsonTestPiece5();
    JsonTestPiece6();
    JsonTestPiece7();
    JsonTestPiece8();
  }

  lemma JsonRecordTwo(f0: string, f1: string)
    requires f0 != "" && f1 != ""
    ensures JsonRecord([f0, f1]) == "{" + f0 + "," + f1 + "}"
  {
    JsonRecordJoin([f0, f1]);
    assert Join([f0, f1], ",") == f0 + "," + f1 by {
      assert [f0, f1][..1] == [f0];
    }
  }

  lemma JsonTestFirstRecord(x: string, y: string, a: string, b: string)
    requires x == "int_field" && y == "str_field" && a == "string0_with_escapes_here1" && b == "here2"
    ensures JsonRecord([JsonIntFragment(x, 0), JsonStrFragment(y, a + "\"" + b + "\\")]) == JsonExpectedRecords[0]
  {
    var f0, f1 := JsonIntFragment(x, 0), JsonStrFragment(y, a + "\"" + b + "\\");
    assert f0[0] == '"' && f1[0] == '"';
    JsonRecordTwo(f0, f1);
    JsonTestIntFragment(x);
    JsonTestStrFragment(y, a, b);
    JsonTestFirstText(f0, f1);
  }

  // The later records of `test_report_json`.

  lemma JsonTestIntRecord(k: nat, x: string)
    requires x == "int_field" && k < 10 && k % 2 == 1
    ensures "{\"" + x + "\":" + [DigitChar(k)] + "}" == JsonExpectedRecords[k]
  {
    if k == 1 {
    } else if k == 3 {
    } else if k == 5 {
    } else if k == 7 {
    } else {
    }
  }

  lemma JsonTestStrRecord(k: nat, y: string)
    requires y == "str_field" && 0 < k < 10 && k % 2 == 0
    ensures "{\"" + y + "\":\"string" + [DigitChar(k)] + "\"}" == JsonExpectedRecords[k]
  {
    JsonTestStrDigit(k);
  }

  lemma JsonTestStrDigit(k: nat)
    requires 0 < k < 10 && k % 2 == 0
    ensures "{\"str_field\":\"string" + [DigitChar(k)] + "\"}" == JsonExpectedRecords[k]
  {
    if k == 2 {
    } else if k == 4 {
    } else if k == 6 {
    } else {
    }
  }

  /** The records of the file `test_report_json` expects. */
  const JsonExpectedRecords: seq<string> :=
    ["{\"int_field\":0,\"str_field\":\"string0_with_escapes_here1\\\"here2\\\\\"}",
     "{\"int_field\":1}", "{\"str_field\":\"string2\"}", "{\"int_field\":3}",
     "{\"str_field\":\"string4\"}", "{\"int_field\":5}", "{\"str_field\":\"string6\"}",
     "{\"int_field\":7}", "{\"str_field\":\"string8\"}", "{\"int_field\":9}"]

  lemma JsonTestLaterInt(x: string, y: string, k: nat)
    requires x == "int_field" && k < 10 && k % 2 == 1
    ensures JsonRecords(x, y)(k) == JsonExpectedRecords[k]
  {
    JsonIntRecord(k, x, y);
    JsonTestIntRecord(k, x);
  }

  lemma JsonTestLaterStr(x: string, y: string, k: nat)
    requires y == "str_field" && 0 < k < 10 && k % 2 == 0
    ensures JsonRecords(x, y)(k) == JsonExpectedRecords[k]
  {
    JsonStrRecord(k, x, y);
    JsonTestStrRecord(k, y);
  }

  lemma JsonTestLater(init: seq<string>, x: string, y: string, k: nat)
    requires x == "int_field" && y == "str_field" && |init| == 1 && 1 <= k < 10
    ensures Grow(init, JsonRecords(x, y), 10)[k] == JsonExpectedRecords[k]
  {
    GrowAt(init, JsonRecords(x, y), 10, k);
    if k % 2 == 1 {
      JsonTestLaterInt(x, y, k);
    } else {
      JsonTestLaterStr(x, y, k);
    }
  }

  lemma JsonTestRecords(x: string, y: string, a: string, b: string)
    requires x == "int_field" && y == "str_field" && a == "string0_with_escapes_here1" && b == "here2"
    ensures Grow(JsonTestInit(x, y, a + "\"" + b + "\\"), JsonRecords(x, y), 10) == JsonExpectedRecords
  {
    var init := JsonTestInit(x, y, a + "\"" + b + "\\");
    var rs := Grow(init, JsonRecords(x, y), 10);
    forall k | 0 <= k < 10
      ensures rs[k] == JsonExpectedRecords[k]
    {
      if k == 0 {
        GrowAt(init, JsonRecords(x, y), 10, k);
        JsonTestFirstRecord(x, y, a, b);
      } else {
        JsonTestLater(init, x, y, k);
      }
    }
  }

  /** `test_report_json`: the file the test expects, for the test's field
      names and its first string value `a + "\"" + b + "\\"`. */
  lemma JsonTestOutput(x: string, y: string, a: string, b: string)
    requires x == "int_field" && y == "str_field" && a == "string0_with_escapes_here1" && b == "here2"
    ensures JsonRun(JsonInitial, JsonPrelude(x, y, a + "\"" + b + "\\") + Loop(TestValues(x, y), 9) + [Footer]).out
            == "[" + Join(JsonExpectedRecords, ",\n") + "]"
  {
    JsonTestRun(9, x, y, a + "\"" + b + "\\");
    JsonTestRecords(x, y, a, b);
  }
}

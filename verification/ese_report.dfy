/** src/ese.rs: the three reports of the ESE database `Windows.edb`.

    The table `SystemIndex_PropertyStore` is the column catalogue and the rows
    of `EseRecords`. Only the columns whose property name is one of `SELECTED`
    are read. Each row is gathered into a map from the full column name to the
    column's bytes, with the `WorkID` column read as a `u32`. Then the row is
    offered to the IE/Edge history writer, then to the activity history
    writer, and if neither claims it, it goes to the file report.

    Two helpers come from the ESE parser crate and are taken as parameters:
    `column_string_part` (`part`), which gives the property name inside a
    catalogue column name such as `33-System_ItemUrl`, and
    `file_attributes_to_string` (`attributes`).

    The writers walk a `HashMap`, whose order of iteration is unspecified. The
    writer methods therefore pick the next column nondeterministically, and
    report the order they used as a ghost enumeration of the map's keys. */
module EseReport {
  import opened Text
  import opened Report
  import opened EseRecords
  import Utf16
  import Utils
  import FromBytes
  import IntSets

  type PartOf = string -> string
  type AttributesText = seq<Byte> -> string

  // ---------------------------------------------------------------------------
  // prepare_selected_cols

  /** The property names the report asks for, in the order `ese_generate_report`
      lists them (`System_ItemType` appears twice). */
  const SELECTED: seq<string> := [
    "WorkID", "System_ItemPathDisplay", "System_DateModified",
    "System_DateCreated", "System_DateAccessed", "System_Size", "System_FileOwner",
    "System_Search_AutoSummary", "System_FileAttributes",
    "System_Search_GatherTime", "System_ItemType",
    "System_ItemName", "System_ItemUrl", "System_Link_TargetUrl", "System_ItemDate",
    "System_ItemType", "System_ItemNameDisplay", "System_ActivityHistory_StartTime",
    "System_ActivityHistory_EndTime", "System_Activity_AppDisplayName",
    "System_ActivityHistory_AppId", "System_Activity_DisplayText",
    "System_Activity_ContentUri"]

  /** The property name of each column. */
  function Parts(cols: seq<EseColumn>, part: PartOf): (r: seq<string>)
    ensures |r| == |cols| && forall k :: 0 <= k < |cols| ==> r[k] == part(cols[k].name)
  {
    seq(|cols|, k requires 0 <= k < |cols| => part(cols[k].name))
  }

  /** The table columns whose property name is selected, in table order. */
  function Kept(cols: seq<EseColumn>, sel: seq<string>, part: PartOf): seq<EseColumn> {
    if cols == [] then []
    else
      var c := cols[|cols| - 1];
      var rest := Kept(cols[..|cols| - 1], sel, part);
      if part(c.name) in sel then rest + [c] else rest
  }

  /** The kept columns are, in table order and each once, exactly the table
      columns whose property name is selected: `idx` says where each sits. */
  lemma {:induction false} KeptInTableOrder(cols: seq<EseColumn>, sel: seq<string>, part: PartOf)
    returns (idx: seq<nat>)
    ensures |idx| == |Kept(cols, sel, part)|
    ensures forall k :: 0 <= k < |idx| ==> idx[k] < |cols| && Kept(cols, sel, part)[k] == cols[idx[k]]
    ensures forall k, l :: 0 <= k < l < |idx| ==> idx[k] < idx[l]
    ensures forall j :: 0 <= j < |cols| ==> (part(cols[j].name) in sel <==> j in idx)
  {
    if cols == [] {
      return [];
    }
    var n := |cols| - 1;
    var init := cols[..n];
    var prefix := KeptInTableOrder(init, sel, part);
    var rest := Kept(init, sel, part);
    if part(cols[n].name) in sel {
      idx := prefix + [n];
      assert Kept(cols, sel, part) == rest + [cols[n]];
      forall k | 0 <= k < |idx|
        ensures idx[k] < |cols| && Kept(cols, sel, part)[k] == cols[idx[k]]
      {
        if k < |prefix| {
          assert idx[k] == prefix[k] && init[prefix[k]] == cols[prefix[k]];
        }
      }
      forall j | 0 <= j < |cols|
        ensures part(cols[j].name) in sel <==> j in idx
      {
        if j < n {
          assert init[j] == cols[j];
        } else {
          assert idx[|prefix|] == n;
        }
      }
    } else {
      idx := prefix;
      assert Kept(cols, sel, part) == rest;
      forall k | 0 <= k < |idx|
        ensures idx[k] < |cols| && Kept(cols, sel, part)[k] == cols[idx[k]]
      {
        assert init[prefix[k]] == cols[prefix[k]];
      }
      forall j | 0 <= j < |cols|
        ensures part(cols[j].name) in sel <==> j in idx
      {
        if j < n {
          assert init[j] == cols[j];
        }
      }
    }
  }

  /** The selected names no kept column carries, in the order of `sel`. */
  function Unmatched(sel: seq<string>, found: seq<string>): seq<string> {
    if sel == [] then []
    else
      var rest := Unmatched(sel[..|sel| - 1], found);
      if sel[|sel| - 1] in found then rest else rest + [sel[|sel| - 1]]
  }

  lemma {:induction false} UnmatchedNames(sel: seq<string>, found: seq<string>)
    ensures forall n :: n in Unmatched(sel, found) <==> n in sel && n !in found
  {
    if sel != [] {
      var m := |sel| - 1;
      UnmatchedNames(sel[..m], found);
      assert sel == sel[..m] + [sel[m]];
    }
  }

  /** The first loop's inner search: is `name` selected? */
  method IsSelected(name: string, sel: seq<string>) returns (found: bool)
    ensures found <==> name in sel
  {
    for j := 0 to |sel|
      invariant name !in sel[..j]
    {
      if sel[j] == name {
        return true;
      }
    }
    assert sel[..|sel|] == sel;
    return false;
  }

  /** The second loop's inner search: does a kept column carry `name`? */
  method IsKept(name: string, only: seq<EseColumn>, part: PartOf) returns (found: bool)
    ensures found <==> name in Parts(only, part)
  {
    for j := 0 to |only|
      invariant name !in Parts(only, part)[..j]
    {
      if name == part(only[j].name) {
        return true;
      }
    }
    assert Parts(only, part)[..|only|] == Parts(only, part);
    return false;
  }

  /** `prepare_selected_cols`: the kept columns, and the selected names it
      reports as missing ("Requested column … not found in table columns"),
      which it looks for only when the two counts differ. */
  method PrepareSelectedCols(cols: seq<EseColumn>, sel: seq<string>, part: PartOf)
    returns (only: seq<EseColumn>, missing: seq<string>)
    ensures only == Kept(cols, sel, part)
    ensures missing == if |sel| != |only| then Unmatched(sel, Parts(only, part)) else []
  {
    only := [];
    for i := 0 to |cols|
      invariant only == Kept(cols[..i], sel, part)
    {
      assert cols[..i + 1][..i] == cols[..i];
      var keep := IsSelected(part(cols[i].name), sel);
      if keep {
        only := only + [cols[i]];
      }
    }
    assert cols[..|cols|] == cols;
    missing := [];
    if |sel| != |only| {
      for i := 0 to |sel|
        invariant missing == Unmatched(sel[..i], Parts(only, part))
      {
        assert sel[..i + 1][..i] == sel[..i];
        var found := IsKept(sel[i], only, part);
        if !found {
          missing := missing + [sel[i]];
        }
      }
      assert sel[..|sel|] == sel;
    }
  }

  // ---------------------------------------------------------------------------
  // Reading one row

  /** What one row holds for the kept columns: the `WorkID` column as a `u32`
      (0 when it is NULL), and every other non-NULL column by its full name. */
  datatype RowValues = RowValues(workId: nat, h: map<string, seq<Byte>>)

  const WORK_ID_COLUMN := "WorkID"

  /** The inner `for c in &sel_cols` loop, from a fresh `workId` and an empty map. */
  function ReadColumns(sel: seq<EseColumn>, row: EseRow): RowValues {
    if sel == [] then RowValues(0, map[])
    else
      var c := sel[|sel| - 1];
      var v := ReadColumns(sel[..|sel| - 1], row);
      if c.name == WORK_ID_COLUMN then
        if c.id in row then v.(workId := FromBytes.LeUnsigned(row[c.id], 4)) else v
      else if c.id in row then v.(h := v.h[c.name := row[c.id]])
      else v
  }

  /** The map holds exactly the non-NULL kept columns other than `WorkID`,
      each with the bytes of a column so named; the work id fits a `u32` and
      is 0 unless a `WorkID` column is non-NULL. */
  lemma {:induction false} ReadColumnsValues(sel: seq<EseColumn>, row: EseRow)
    ensures var v := ReadColumns(sel, row);
            && v.workId < 0x1_0000_0000
            && ((forall k :: 0 <= k < |sel| && sel[k].name == WORK_ID_COLUMN ==> sel[k].id !in row) ==> v.workId == 0)
            && (forall k :: 0 <= k < |sel| && sel[k].name != WORK_ID_COLUMN && sel[k].id in row ==> sel[k].name in v.h)
            && (forall name :: name in v.h ==>
                  name != WORK_ID_COLUMN
                  && exists k :: 0 <= k < |sel| && sel[k].name == name && sel[k].id in row && v.h[name] == row[sel[k].id])
  {
    if sel != [] {
      var n := |sel| - 1;
      ReadColumnsValues(sel[..n], row);
      assert forall k :: 0 <= k < n ==> sel[..n][k] == sel[k];
      var c := sel[n];
      if c.name == WORK_ID_COLUMN && c.id in row {
        assert FromBytes.Pow256(4) == 0x1_0000_0000;
      }
    }
  }

  /** The per-row loop body that fills `workId` and `h`. */
  method ReadRow(sel: seq<EseColumn>, row: EseRow) returns (workId: nat, h: map<string, seq<Byte>>)
    ensures RowValues(workId, h) == ReadColumns(sel, row)
  {
    workId := 0;
    h := map[];
    for i := 0 to |sel|
      invariant RowValues(workId, h) == ReadColumns(sel[..i], row)
    {
      assert sel[..i + 1][..i] == sel[..i];
      var c := sel[i];
      if c.name == WORK_ID_COLUMN {
        if c.id in row {
          workId := FromBytes.LeUnsigned(row[c.id], 4);
        }
      } else if c.id in row {
        h := h[c.name := row[c.id]];
      }
    }
    assert sel[..|sel|] == sel;
  }

  // ---------------------------------------------------------------------------
  // The three writers

  /** The fields each report declares with `set_field`. */
  const FILE_FIELDS: seq<string> := [
    "WorkId", "System_ItemPathDisplay", "System_DateModified", "System_DateCreated",
    "System_DateAccessed", "System_Size", "System_FileOwner", "System_Search_AutoSummary",
    "System_FileAttributes", "System_Search_GatherTime", "System_ItemType"]
  const IE_FIELDS: seq<string> := [
    "WorkId", "System_ItemName", "System_DateModified", "System_ItemUrl",
    "System_Link_TargetUrl", "System_ItemDate", "System_Search_GatherTime"]
  const ACT_FIELDS: seq<string> := [
    "WorkId", "System_ItemNameDisplay", "System_ItemUrl", "System_ActivityHistory_StartTime",
    "System_ActivityHistory_EndTime", "System_Activity_AppDisplayName",
    "System_ActivityHistory_AppId", "System_Activity_DisplayText",
    "VolumeId", "ObjectId", "System_Activity_ContentUri"]

  const CONTENT_URI := "System_Activity_ContentUri"

  /** The writer a row goes to; the IE writer carries the decoded item URL. */
  datatype Writer = FileWriter(attributes: AttributesText) | IeWriter(url: string) | ActivityWriter

  /** A `str_val` or `int_val` call. */
  predicate IsValue(call: SinkCall) {
    call.StrVal? || call.IntVal?
  }

  /** A FILETIME column as `format_date_time` prints it: seven digits in
      the exact range (`Utils.FiletimeTextInRange`), otherwise as the cast
      leaves it. */
  function DateText(val: seq<Byte>): string {
    Utils.FiletimeText(FromBytes.U64FromBytes(val))
  }

  /** The `match csp` of `ese_dump_file_record`. */
  function FileCell(attributes: AttributesText, csp: string, val: seq<Byte>): (r: seq<SinkCall>)
    ensures |r| <= 1 && forall k :: 0 <= k < |r| ==> IsValue(r[k]) && r[k].field == csp
  {
    if csp in ["System_ItemPathDisplay", "System_FileOwner", "System_Search_AutoSummary", "System_ItemType"] then
      [StrVal(csp, Utf16.FromUtf16(val))]
    else if csp in ["System_DateModified", "System_DateCreated", "System_DateAccessed", "System_Search_GatherTime"] then
      [StrVal(csp, DateText(val))]
    else if csp == "System_Size" then [IntVal(csp, FromBytes.U64FromBytes(val))]
    else if csp == "System_FileAttributes" then [StrVal(csp, attributes(val))]
    else []
  }

  /** The `match csp` of `ese_IE_history_record`; the item URL is the one
      the row was claimed by. */
  function IeCell(url: string, csp: string, val: seq<Byte>): (r: seq<SinkCall>)
    ensures |r| <= 1 && forall k :: 0 <= k < |r| ==> IsValue(r[k]) && r[k].field == csp
  {
    if csp in ["System_ItemName", "System_Link_TargetUrl"] then [StrVal(csp, Utf16.FromUtf16(val))]
    else if csp in ["System_DateModified", "System_ItemDate", "System_Search_GatherTime"] then
      [StrVal(csp, DateText(val))]
    else if csp == "System_ItemUrl" then [StrVal(csp, url)]
    else []
  }

  /** The `match csp` of `ese_activity_history_record`. */
  function ActivityCell(csp: string, val: seq<Byte>): (r: seq<SinkCall>)
    ensures |r| <= 3 && forall k :: 0 <= k < |r| ==> IsValue(r[k])
    ensures csp == CONTENT_URI ==> |r| == 3
    ensures csp != CONTENT_URI ==> |r| <= 1 && forall k :: 0 <= k < |r| ==> IsValue(r[k]) && r[k].field == csp
  {
    if csp in ["System_ItemNameDisplay", "System_ItemUrl", "System_Activity_AppDisplayName",
               "System_ActivityHistory_AppId", "System_Activity_DisplayText"] then
      [StrVal(csp, Utf16.FromUtf16(val))]
    else if csp in ["System_ActivityHistory_StartTime", "System_ActivityHistory_EndTime"] then
      [StrVal(csp, DateText(val))]
    else if csp == CONTENT_URI then
      var v := Utf16.FromUtf16(val);
      [StrVal("VolumeId", Utils.FindGuid(v, "VolumeId=")),
       StrVal("ObjectId", Utils.FindGuid(v, "ObjectId=")),
       StrVal(csp, v)]
    else []
  }

  /** The calls one column makes in a writer's loop. */
  function Cell(w: Writer, csp: string, val: seq<Byte>): (r: seq<SinkCall>)
    ensures forall k :: 0 <= k < |r| ==> IsValue(r[k])
  {
    match w
    case FileWriter(attributes) => FileCell(attributes, csp, val)
    case IeWriter(url) => IeCell(url, csp, val)
    case ActivityWriter => ActivityCell(csp, val)
  }

  /** Each writer writes a column exactly when its property name is one of
      the fields its report declares (besides `WorkId`, and for the activity
      report besides the two GUIDs taken from the content URI). */
  lemma FileCellHandled(attributes: AttributesText, csp: string, val: seq<Byte>)
    ensures FileCell(attributes, csp, val) != [] <==> csp in FILE_FIELDS[1..]
  {
  }

  lemma IeCellHandled(url: string, csp: string, val: seq<Byte>)
    ensures IeCell(url, csp, val) != [] <==> csp in IE_FIELDS[1..]
  {
  }

  lemma ActivityCellHandled(csp: string, val: seq<Byte>)
    ensures ActivityCell(csp, val) != [] <==> csp in ACT_FIELDS[1..] && csp != "VolumeId" && csp != "ObjectId"
  {
  }

  /** The content URI gives the volume and object GUIDs, each empty or the
      text after the first `VolumeId=` (`ObjectId=`) up to and including the
      next `}`, and then the URI itself. */
  lemma ContentUriCells(val: seq<Byte>)
    ensures var r := ActivityCell(CONTENT_URI, val);
            var v := Utf16.FromUtf16(val);
            && |r| == 3
            && r[0] == StrVal("VolumeId", r[0].s) && GuidText(v, "VolumeId=", r[0].s)
            && r[1] == StrVal("ObjectId", r[1].s) && GuidText(v, "ObjectId=", r[1].s)
            && r[2] == StrVal(CONTENT_URI, v)
  {
    var v := Utf16.FromUtf16(val);
    GuidFound(v, "VolumeId=");
    GuidFound(v, "ObjectId=");
  }

  /** `g` is empty, or `pat` followed by `g` occurs in `s` and `g` ends with
      its only `}`. */
  predicate GuidText(s: string, pat: string, g: string) {
    g == "" || (Contains(s, pat + g) && EndsWith(g, "}") && '}' !in g[..|g| - 1])
  }

  lemma GuidFound(s: string, pat: string)
    ensures GuidText(s, pat, Utils.FindGuid(s, pat))
  {
    var g := Utils.FindGuid(s, pat);
    if g != "" {
      var i := IndexOf(s, pat).value;
      var start := i + |pat|;
      assert StartsWith(s[start..], g);
      assert s[i..start] == pat;
      assert s[start..start + |g|] == g;
      AdjacentSlices(s, i, start, start + |g|);
      assert OccursAt(s, pat + g, i);
    }
  }

  lemma AdjacentSlices(s: string, i: nat, j: nat, k: nat)
    requires i <= j <= k <= |s|
    ensures s[i..k] == s[i..j] + s[j..k]
  {
  }

  predicate InMap(order: seq<string>, h: map<string, seq<Byte>>) {
    forall k :: 0 <= k < |order| ==> order[k] in h
  }

  /** `order` lists the keys of a map, each once. */
  ghost predicate Enumerates(order: seq<string>, keys: set<string>) {
    && (forall k :: 0 <= k < |order| ==> order[k] in keys)
    && (forall x :: x in keys ==> x in order)
    && (forall k, l :: 0 <= k < l < |order| ==> order[k] != order[l])
  }

  /** The `for (col, val) in h` loop of a writer, visiting the columns in `order`. */
  function Cells(w: Writer, order: seq<string>, h: map<string, seq<Byte>>, part: PartOf): (r: seq<SinkCall>)
    requires InMap(order, h)
    ensures forall k :: 0 <= k < |r| ==> IsValue(r[k])
  {
    if order == [] then []
    else
      var col := order[|order| - 1];
      var rest := Cells(w, order[..|order| - 1], h, part);
      var cell := Cell(w, part(col), h[col]);
      assert forall k :: 0 <= k < |rest| ==> (rest + cell)[k] == rest[k];
      assert forall k :: 0 <= k < |cell| ==> (rest + cell)[|rest| + k] == cell[k];
      rest + cell
  }

  lemma CellsSnoc(w: Writer, order: seq<string>, col: string, h: map<string, seq<Byte>>, part: PartOf)
    requires InMap(order, h) && col in h
    ensures InMap(order + [col], h)
    ensures Cells(w, order + [col], h, part) == Cells(w, order, h, part) + Cell(w, part(col), h[col])
  {
    assert (order + [col])[..|order|] == order;
  }

  /** A writer's `new_record`, `int_val("WorkId", …)` and cells. */
  function RecordCalls(w: Writer, workId: nat, order: seq<string>, h: map<string, seq<Byte>>, part: PartOf): seq<SinkCall>
    requires InMap(order, h)
  {
    [NewRecord, IntVal("WorkId", workId)] + Cells(w, order, h, part)
  }

  /** Every record opens with `new_record` and the work id, then sets
      values only, and so makes exactly one row. */
  lemma RecordShape(w: Writer, workId: nat, order: seq<string>, h: map<string, seq<Byte>>, part: PartOf)
    requires InMap(order, h)
    ensures var r := RecordCalls(w, workId, order, h, part);
            && r[..2] == [NewRecord, IntVal("WorkId", workId)]
            && Rows(r) == 1
            && forall k :: 2 <= k < |r| ==> IsValue(r[k])
  {
    var cells := Cells(w, order, h, part);
    assert NewRecord !in cells;
    CellsHaveNoRows(cells);
    RowsAppend([NewRecord, IntVal("WorkId", workId)], cells);
  }

  /** The writers' loop: it takes the columns in an unspecified order. */
  method WriteCells(w: Writer, h: map<string, seq<Byte>>, part: PartOf)
    returns (calls: seq<SinkCall>, ghost order: seq<string>)
    ensures Enumerates(order, h.Keys)
    ensures calls == Cells(w, order, h, part)
  {
    calls := [];
    order := [];
    var remaining := h.Keys;
    while remaining != {}
      invariant Listing(order, remaining, h.Keys)
      invariant calls == Cells(w, order, h, part)
      decreases |remaining|
    {
      ghost var some := IntSets.Pick(remaining);
      var col :| col in remaining;
      CellsSnoc(w, order, col, h, part);
      ListingStep(order, remaining, h.Keys, col);
      calls := calls + Cell(w, part(col), h[col]);
      order := order + [col];
      remaining := remaining - {col};
    }
  }

  /** Part way through listing `keys`: `order` lists, each once, the keys
      no longer `remaining`. */
  ghost predicate Listing(order: seq<string>, remaining: set<string>, keys: set<string>) {
    && remaining <= keys
    && (forall k :: 0 <= k < |order| ==> order[k] in keys && order[k] !in remaining)
    && (forall x :: x in keys ==> x in remaining || x in order)
    && (forall k, l :: 0 <= k < l < |order| ==> order[k] != order[l])
    && (remaining == {} ==> Enumerates(order, keys))
  }

  lemma ListingStep(order: seq<string>, remaining: set<string>, keys: set<string>, col: string)
    requires Listing(order, remaining, keys) && col in remaining
    ensures Listing(order + [col], remaining - {col}, keys)
  {
    var order', remaining' := order + [col], remaining - {col};
    forall k | 0 <= k < |order'|
      ensures order'[k] in keys && order'[k] !in remaining'
    {
      if k < |order| {
        assert order'[k] == order[k];
      }
    }
    forall x | x in keys
      ensures x in remaining' || x in order'
    {
      if x !in remaining' && x != col {
        assert x in order;
        var k :| 0 <= k < |order| && order[k] == x;
        assert order'[k] == x;
      }
      if x == col {
        assert order'[|order|] == x;
      }
    }
  }

  const IE_URL_COLUMN := "33-System_ItemUrl"
  const ITEM_TYPE_COLUMN := "4450-System_ItemType"
  const ACTIVITY_ITEM := "ActivityHistoryItem"
  const IE_PREFIX := "iehistory://"

  /** The IE/Edge history writer claims a row whose item URL starts with
      `iehistory://`. */
  predicate IsIeRecord(h: map<string, seq<Byte>>) {
    IE_URL_COLUMN in h && StartsWith(Utf16.FromUtf16(h[IE_URL_COLUMN]), IE_PREFIX)
  }

  /** The activity history writer claims a row whose item type is
      `ActivityHistoryItem`. */
  predicate IsActivityRecord(h: map<string, seq<Byte>>) {
    ITEM_TYPE_COLUMN in h && Utf16.FromUtf16(h[ITEM_TYPE_COLUMN]) == ACTIVITY_ITEM
  }

  /** The IE writer claims a row exactly when the item URL column is present
      and its bytes start with `iehistory://` in UTF-16LE. */
  lemma IeRecordOnBytes(h: map<string, seq<Byte>>)
    ensures IsIeRecord(h) <==> IE_URL_COLUMN in h && StartsWith(h[IE_URL_COLUMN], Utf16.AsciiLe(IE_PREFIX))
  {
    if IE_URL_COLUMN in h {
      IePrefixIsAscii();
      Utf16.StartsWithAscii(h[IE_URL_COLUMN], IE_PREFIX);
    }
  }

  lemma IePrefixIsAscii()
    ensures Utf16.IsAscii(IE_PREFIX)
  {
  }

  /** The activity writer claims a row exactly when the item type column is
      present and its bytes are `ActivityHistoryItem` in UTF-16LE, with at
      most one odd byte after them. */
  lemma ActivityRecordOnBytes(h: map<string, seq<Byte>>)
    ensures IsActivityRecord(h) <==> && ITEM_TYPE_COLUMN in h
                                     && StartsWith(h[ITEM_TYPE_COLUMN], Utf16.AsciiLe(ACTIVITY_ITEM))
                                     && |h[ITEM_TYPE_COLUMN]| <= 39
  {
    if ITEM_TYPE_COLUMN in h {
      ActivityItemIsAscii();
      Utf16.EqualsAscii(h[ITEM_TYPE_COLUMN], ACTIVITY_ITEM);
    }
  }

  lemma ActivityItemIsAscii()
    ensures Utf16.IsAscii(ACTIVITY_ITEM) && 2 * |ACTIVITY_ITEM| + 1 == 39
  {
  }

  /** `ese_dump_file_record`. */
  method EseDumpFileRecord(workId: nat, h: map<string, seq<Byte>>, part: PartOf, attributes: AttributesText)
    returns (calls: seq<SinkCall>, ghost order: seq<string>)
    ensures Enumerates(order, h.Keys)
    ensures calls == RecordCalls(FileWriter(attributes), workId, order, h, part)
  {
    var cells;
    cells, order := WriteCells(FileWriter(attributes), h, part);
    calls := [NewRecord, IntVal("WorkId", workId)] + cells;
  }

  /** `ese_IE_history_record`: whether it claimed the row, and what it wrote. */
  method EseIeHistoryRecord(workId: nat, h: map<string, seq<Byte>>, part: PartOf)
    returns (claimed: bool, calls: seq<SinkCall>, ghost order: seq<string>)
    ensures claimed <==> IsIeRecord(h)
    ensures !claimed ==> calls == []
    ensures claimed ==> Enumerates(order, h.Keys)
                        && calls == RecordCalls(IeWriter(Utf16.FromUtf16(h[IE_URL_COLUMN])), workId, order, h, part)
  {
    claimed, calls, order := false, [], [];
    if IE_URL_COLUMN in h {
      var url := Utf16.FromUtf16(h[IE_URL_COLUMN]);
      if StartsWith(url, IE_PREFIX) {
        var cells;
        cells, order := WriteCells(IeWriter(url), h, part);
        claimed, calls := true, [NewRecord, IntVal("WorkId", workId)] + cells;
      }
    }
  }

  /** `ese_activity_history_record`: whether it claimed the row, and what it wrote. */
  method EseActivityHistoryRecord(workId: nat, h: map<string, seq<Byte>>, part: PartOf)
    returns (claimed: bool, calls: seq<SinkCall>, ghost order: seq<string>)
    ensures claimed <==> IsActivityRecord(h)
    ensures !claimed ==> calls == []
    ensures claimed ==> Enumerates(order, h.Keys)
                        && calls == RecordCalls(ActivityWriter, workId, order, h, part)
  {
    claimed, calls, order := false, [], [];
    if ITEM_TYPE_COLUMN !in h {
      return;
    }
    var v := Utf16.FromUtf16(h[ITEM_TYPE_COLUMN]);
    if v != ACTIVITY_ITEM {
      return;
    }
    var cells;
    cells, order := WriteCells(ActivityWriter, h, part);
    claimed, calls := true, [NewRecord, IntVal("WorkId", workId)] + cells;
  }

  // ---------------------------------------------------------------------------
  // ese_generate_report

  datatype Destination = FileReport | IeReport | ActivityReport

  /** The routing of a row: IE first, activity only when IE declines, the
      file report when both decline. */
  function Route(h: map<string, seq<Byte>>): (d: Destination)
    ensures d == IeReport <==> IsIeRecord(h)
    ensures d == ActivityReport <==> !IsIeRecord(h) && IsActivityRecord(h)
    ensures d == FileReport <==> !IsIeRecord(h) && !IsActivityRecord(h)
  {
    if IsIeRecord(h) then IeReport
    else if IsActivityRecord(h) then ActivityReport
    else FileReport
  }

  function WriterOf(h: map<string, seq<Byte>>, attributes: AttributesText): Writer {
    match Route(h)
    case IeReport => IeWriter(Utf16.FromUtf16(h[IE_URL_COLUMN]))
    case ActivityReport => ActivityWriter
    case FileReport => FileWriter(attributes)
  }

  datatype EseReports = EseReports(file: seq<SinkCall>, ie: seq<SinkCall>, act: seq<SinkCall>) {
    function Of(d: Destination): seq<SinkCall> {
      match d
      case FileReport => file
      case IeReport => ie
      case ActivityReport => act
    }

    /** Each report dropped at the end of `ese_generate_report`: `Drop` calls `footer`. */
    function Dropped(): EseReports {
      EseReports(file + [Footer], ie + [Footer], act + [Footer])
    }
  }

  /** The three reports right after they are created: their declared fields. */
  const HEADERS := EseReports(SetFields(FILE_FIELDS), SetFields(IE_FIELDS), SetFields(ACT_FIELDS))

  /** One row, written by the writer its routing picks. */
  function AddRow(reps: EseReports, v: RowValues, order: seq<string>, part: PartOf, attributes: AttributesText): EseReports
    requires InMap(order, v.h)
  {
    var calls := RecordCalls(WriterOf(v.h, attributes), v.workId, order, v.h, part);
    match Route(v.h)
    case IeReport => reps.(ie := reps.ie + calls)
    case ActivityReport => reps.(act := reps.act + calls)
    case FileReport => reps.(file := reps.file + calls)
  }

  /** `orders[i]` is the order in which row `i`'s columns were visited. */
  ghost predicate ValidOrders(sel: seq<EseColumn>, rows: seq<EseRow>, orders: seq<seq<string>>) {
    |orders| == |rows| && forall i :: 0 <= i < |rows| ==> Enumerates(orders[i], ReadColumns(sel, rows[i]).h.Keys)
  }

  /** The rows, one after the other, appended to `reps`. */
  ghost function Emit(reps: EseReports, sel: seq<EseColumn>, rows: seq<EseRow>, orders: seq<seq<string>>,
                      part: PartOf, attributes: AttributesText): EseReports
    requires ValidOrders(sel, rows, orders)
  {
    if rows == [] then reps
    else
      var n := |rows| - 1;
      assert ValidOrders(sel, rows[..n], orders[..n]) by {
        forall i | 0 <= i < n
          ensures Enumerates(orders[..n][i], ReadColumns(sel, rows[..n][i]).h.Keys)
        {
          assert orders[..n][i] == orders[i] && rows[..n][i] == rows[i];
        }
      }
      AddRow(Emit(reps, sel, rows[..n], orders[..n], part, attributes), ReadColumns(sel, rows[n]), orders[n], part, attributes)
  }

  /** The number of `rows` the routing sends to `d`. */
  function RoutedTo(sel: seq<EseColumn>, rows: seq<EseRow>, d: Destination): nat {
    if rows == [] then 0
    else
      var n := |rows| - 1;
      RoutedTo(sel, rows[..n], d) + (if Route(ReadColumns(sel, rows[n]).h) == d then 1 else 0)
  }

  /** Every row is routed to exactly one report. */
  lemma {:induction false} RoutedSum(sel: seq<EseColumn>, rows: seq<EseRow>)
    ensures RoutedTo(sel, rows, FileReport) + RoutedTo(sel, rows, IeReport) + RoutedTo(sel, rows, ActivityReport) == |rows|
  {
    if rows != [] {
      RoutedSum(sel, rows[..|rows| - 1]);
    }
  }

  /** A row adds one record to the report it is routed to, and leaves what
      the reports already hold in front. */
  lemma AddRowRows(reps: EseReports, v: RowValues, order: seq<string>, part: PartOf, attributes: AttributesText)
    requires InMap(order, v.h)
    ensures forall d :: Rows(AddRow(reps, v, order, part, attributes).Of(d)) == Rows(reps.Of(d)) + (if Route(v.h) == d then 1 else 0)
    ensures forall d :: StartsWith(AddRow(reps, v, order, part, attributes).Of(d), reps.Of(d))
  {
    var calls := RecordCalls(WriterOf(v.h, attributes), v.workId, order, v.h, part);
    RecordShape(WriterOf(v.h, attributes), v.workId, order, v.h, part);
    forall d
      ensures Rows(AddRow(reps, v, order, part, attributes).Of(d)) == Rows(reps.Of(d)) + (if Route(v.h) == d then 1 else 0)
      ensures StartsWith(AddRow(reps, v, order, part, attributes).Of(d), reps.Of(d))
    {
      AddRowOf(reps, v, order, part, attributes, d);
      if Route(v.h) == d {
        RowsAppend(reps.Of(d), calls);
        assert (reps.Of(d) + calls)[..|reps.Of(d)|] == reps.Of(d);
      }
    }
  }

  /** The report a row is routed to gains its calls; the others are unchanged. */
  lemma AddRowOf(reps: EseReports, v: RowValues, order: seq<string>, part: PartOf, attributes: AttributesText, d: Destination)
    requires InMap(order, v.h)
    ensures AddRow(reps, v, order, part, attributes).Of(d)
            == if Route(v.h) == d then reps.Of(d) + RecordCalls(WriterOf(v.h, attributes), v.workId, order, v.h, part)
               else reps.Of(d)
  {
  }

  /** After all rows, each report holds one more record per row routed to it. */
  lemma {:induction false} EmitRows(reps: EseReports, sel: seq<EseColumn>, rows: seq<EseRow>, orders: seq<seq<string>>,
                                    part: PartOf, attributes: AttributesText)
    requires ValidOrders(sel, rows, orders)
    ensures forall d :: Rows(Emit(reps, sel, rows, orders, part, attributes).Of(d)) == Rows(reps.Of(d)) + RoutedTo(sel, rows, d)
  {
    if rows != [] {
      var n := |rows| - 1;
      EmitStep(reps, sel, rows, orders[..n], orders[n], n, part, attributes);
      assert rows[..n + 1] == rows && orders[..n] + [orders[n]] == orders;
      EmitRows(reps, sel, rows[..n], orders[..n], part, attributes);
      var before := Emit(reps, sel, rows[..n], orders[..n], part, attributes);
      AddRowRows(before, ReadColumns(sel, rows[n]), orders[n], part, attributes);
    }
  }

  /** What the reports held before the rows stays in front. */
  lemma {:induction false} EmitExtends(reps: EseReports, sel: seq<EseColumn>, rows: seq<EseRow>, orders: seq<seq<string>>,
                                       part: PartOf, attributes: AttributesText)
    requires ValidOrders(sel, rows, orders)
    ensures forall d :: StartsWith(Emit(reps, sel, rows, orders, part, attributes).Of(d), reps.Of(d))
  {
    if rows != [] {
      var n := |rows| - 1;
      EmitStep(reps, sel, rows, orders[..n], orders[n], n, part, attributes);
      assert rows[..n + 1] == rows && orders[..n] + [orders[n]] == orders;
      EmitExtends(reps, sel, rows[..n], orders[..n], part, attributes);
      var before := Emit(reps, sel, rows[..n], orders[..n], part, attributes);
      AddRowRows(before, ReadColumns(sel, rows[n]), orders[n], part, attributes);
      forall d
        ensures StartsWith(Emit(reps, sel, rows, orders, part, attributes).Of(d), reps.Of(d))
      {
        PrefixOfPrefix(Emit(reps, sel, rows, orders, part, attributes).Of(d), before.Of(d), reps.Of(d));
      }
    }
  }

  lemma PrefixOfPrefix(a: seq<SinkCall>, b: seq<SinkCall>, c: seq<SinkCall>)
    requires StartsWith(a, b) && StartsWith(b, c)
    ensures StartsWith(a, c)
  {
    assert a[..|c|] == a[..|b|][..|c|];
  }

  /** The reports of a table: each opens with its declared fields and then
      holds one record per row routed to it, every row going to one report. */
  lemma EseReportRows(table: seq<EseColumn>, rows: seq<EseRow>, orders: seq<seq<string>>,
                      part: PartOf, attributes: AttributesText)
    requires ValidOrders(Kept(table, SELECTED, part), rows, orders)
    ensures var sel := Kept(table, SELECTED, part);
            var e := Emit(HEADERS, sel, rows, orders, part, attributes);
            && (forall d :: Rows(e.Of(d)) == RoutedTo(sel, rows, d) && StartsWith(e.Of(d), HEADERS.Of(d)))
            && Rows(e.file) + Rows(e.ie) + Rows(e.act) == |rows|
  {
    var sel := Kept(table, SELECTED, part);
    CellsHaveNoRows(SetFields(FILE_FIELDS));
    CellsHaveNoRows(SetFields(IE_FIELDS));
    CellsHaveNoRows(SetFields(ACT_FIELDS));
    EmitRows(HEADERS, sel, rows, orders, part, attributes);
    EmitExtends(HEADERS, sel, rows, orders, part, attributes);
    RoutedSum(sel, rows);
    var e := Emit(HEADERS, sel, rows, orders, part, attributes);
    assert e.file == e.Of(FileReport) && e.ie == e.Of(IeReport) && e.act == e.Of(ActivityReport);
  }

  /** The reports as dropped: each opens with its declared fields, holds one
      record per row routed to it, and is closed once, at its end. */
  lemma EseReportsClosed(table: seq<EseColumn>, rows: seq<EseRow>, orders: seq<seq<string>>,
                         part: PartOf, attributes: AttributesText)
    requires ValidOrders(Kept(table, SELECTED, part), rows, orders)
    ensures var sel := Kept(table, SELECTED, part);
            var e := Emit(HEADERS, sel, rows, orders, part, attributes).Dropped();
            forall d :: && Rows(e.Of(d)) == RoutedTo(sel, rows, d)
                        && StartsWith(e.Of(d), HEADERS.Of(d))
                        && ClosedOnce(e.Of(d))
  {
    var sel := Kept(table, SELECTED, part);
    var e := Emit(HEADERS, sel, rows, orders, part, attributes);
    EseReportRows(table, rows, orders, part, attributes);
    HeadersOpen();
    EmitOpen(HEADERS, sel, rows, orders, part, attributes);
    forall d
      ensures && Rows(e.Dropped().Of(d)) == RoutedTo(sel, rows, d)
              && StartsWith(e.Dropped().Of(d), HEADERS.Of(d))
              && ClosedOnce(e.Dropped().Of(d))
    {
      DropCloses(e.Of(d));
      assert e.Dropped().Of(d) == e.Of(d) + [Footer];
      assert (e.Of(d) + [Footer])[..|HEADERS.Of(d)|] == e.Of(d)[..|HEADERS.Of(d)|];
    }
  }

  lemma HeadersOpen()
    ensures forall d :: Footer !in HEADERS.Of(d)
  {
    assert forall d :: HEADERS.Of(d) == SetFields(if d == FileReport then FILE_FIELDS else if d == IeReport then IE_FIELDS else ACT_FIELDS);
  }

  /** The rows never close a report. */
  lemma {:induction false} EmitOpen(reps: EseReports, sel: seq<EseColumn>, rows: seq<EseRow>, orders: seq<seq<string>>,
                                    part: PartOf, attributes: AttributesText)
    requires ValidOrders(sel, rows, orders)
    ensures forall d :: Footer !in reps.Of(d) ==> Footer !in Emit(reps, sel, rows, orders, part, attributes).Of(d)
  {
    if rows != [] {
      var n := |rows| - 1;
      EmitStep(reps, sel, rows, orders[..n], orders[n], n, part, attributes);
      assert rows[..n + 1] == rows && orders[..n] + [orders[n]] == orders;
      EmitOpen(reps, sel, rows[..n], orders[..n], part, attributes);
      var before := Emit(reps, sel, rows[..n], orders[..n], part, attributes);
      var v := ReadColumns(sel, rows[n]);
      RecordHasNoFooter(WriterOf(v.h, attributes), v.workId, orders[n], v.h, part);
      forall d
        ensures Footer !in before.Of(d) ==> Footer !in AddRow(before, v, orders[n], part, attributes).Of(d)
      {
        AddRowOf(before, v, orders[n], part, attributes, d);
      }
    }
  }

  lemma RecordHasNoFooter(w: Writer, workId: nat, order: seq<string>, h: map<string, seq<Byte>>, part: PartOf)
    requires InMap(order, h)
    ensures Footer !in RecordCalls(w, workId, order, h, part)
  {
    var r := RecordCalls(w, workId, order, h, part);
    RecordShape(w, workId, order, h, part);
    assert r == r[..2] + r[2..];
  }

  const EMPTY_TABLE := "Empty table SystemIndex_PropertyStore"

  /** What `ese_generate_report` produces: an error for an empty table, or
      the three reports and the selected names it reported as missing. */
  datatype EseOutcome = Err(message: string) | Done(reports: EseReports, missing: seq<string>)

  /** Appending one more row to `Emit`. */
  lemma EmitStep(reps: EseReports, sel: seq<EseColumn>, rows: seq<EseRow>, orders: seq<seq<string>>,
                 order: seq<string>, i: nat, part: PartOf, attributes: AttributesText)
    requires i < |rows| && ValidOrders(sel, rows[..i], orders)
    requires Enumerates(order, ReadColumns(sel, rows[i]).h.Keys)
    ensures ValidOrders(sel, rows[..i + 1], orders + [order])
    ensures Emit(reps, sel, rows[..i + 1], orders + [order], part, attributes)
            == AddRow(Emit(reps, sel, rows[..i], orders, part, attributes), ReadColumns(sel, rows[i]), order, part, attributes)
  {
    assert rows[..i + 1][..i] == rows[..i] && (orders + [order])[..i] == orders;
    assert rows[..i + 1][i] == rows[i];
  }

  /** `ese_generate_report` on a table's catalogue and rows. */
  method EseGenerateReport(table: seq<EseColumn>, rows: seq<EseRow>, part: PartOf, attributes: AttributesText)
    returns (r: EseOutcome, ghost orders: seq<seq<string>>)
    ensures rows == [] <==> r.Err?
    ensures r.Err? ==> r.message == EMPTY_TABLE
    ensures r.Done? ==>
              var sel := Kept(table, SELECTED, part);
              && r.missing == (if |SELECTED| != |sel| then Unmatched(SELECTED, Parts(sel, part)) else [])
              && ValidOrders(sel, rows, orders)
              && r.reports == Emit(HEADERS, sel, rows, orders, part, attributes).Dropped()
  {
    orders := [];
    if |rows| == 0 {
      return Err(EMPTY_TABLE), orders;
    }
    var reps := HEADERS;
    var sel, missing := PrepareSelectedCols(table, SELECTED, part);
    for i := 0 to |rows|
      invariant ValidOrders(sel, rows[..i], orders)
      invariant reps == Emit(HEADERS, sel, rows[..i], orders, part, attributes)
    {
      ghost var order;
      reps, order := ReportRow(reps, sel, rows[i], part, attributes);
      EmitStep(HEADERS, sel, rows, orders, order, i, part, attributes);
      orders := orders + [order];
    }
    assert rows[..|rows|] == rows;
    r := Done(reps.Dropped(), missing);
  }

  /** One pass of the loop: read the row, offer it to the writers, and
      forget it (`h.clear()`); `workId` and `h` start afresh on each row. */
  method ReportRow(reps0: EseReports, sel: seq<EseColumn>, row: EseRow, part: PartOf, attributes: AttributesText)
    returns (reps: EseReports, ghost order: seq<string>)
    ensures Enumerates(order, ReadColumns(sel, row).h.Keys)
    ensures reps == AddRow(reps0, ReadColumns(sel, row), order, part, attributes)
  {
    reps := reps0;
    var workId, h := ReadRow(sel, row);
    var claimed, calls;
    claimed, calls, order := EseIeHistoryRecord(workId, h, part);
    if claimed {
      reps := reps.(ie := reps.ie + calls);
    } else {
      claimed, calls, order := EseActivityHistoryRecord(workId, h, part);
      if claimed {
        reps := reps.(act := reps.act + calls);
      } else {
        calls, order := EseDumpFileRecord(workId, h, part, attributes);
        reps := reps.(file := reps.file + calls);
      }
    }
  }
}

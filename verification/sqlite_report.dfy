/** The batch reports of src/sqlite.rs: the rows of
    `SystemIndex_1_PropertyStore` are grouped by WorkId into records that map
    a ColumnId to its raw value, and each record is written to one of three
    reports (internet history, activity history, files). Each report is the
    sequence of sink calls it receives. */
module SqliteReport {
  import opened Text
  import opened Report
  import Utf8
  import FromBytes
  import Utils
  import opened IntSets

  /** A row of `SystemIndex_1_PropertyStore`. */
  datatype PropertyRow = PropertyRow(workId: int, columnId: int, value: seq<Byte>)

  /** A row of `SystemIndex_1_PropertyStore_Metadata`. */
  datatype MetadataRow = MetadataRow(id: int, name: string, storageType: int)

  /** What `idToProp` holds for a ColumnId: the property's name and storage type. */
  datatype Property = Property(name: string, storageType: int)

  /** The values of one WorkId, by ColumnId. */
  type Record = map<int, seq<Byte>>

  /** A record handed to the handler, with the WorkId it belongs to. */
  datatype Group = Group(workId: nat, record: Record)

  datatype Destination = FileReport | InternetReport | ActivityReport

  /** The three reports `init_reports` opens. */
  datatype Reports = Reports(file: seq<SinkCall>, internet: seq<SinkCall>, activity: seq<SinkCall>) {
    function Of(d: Destination): seq<SinkCall> {
      match d
      case FileReport => file
      case InternetReport => internet
      case ActivityReport => activity
    }

    /** Each report dropped at the end of `sqlite_generate_report`: `Drop` calls `footer`. */
    function Dropped(): Reports {
      Reports(file + [Footer], internet + [Footer], activity + [Footer])
    }
  }

  /** The header fields `init_reports` declares on each report, in order. */
  const FILE_HEADER: seq<string> := [
    "WorkId", "System_ComputerName", "System_ItemPathDisplay", "System_DateModified", "System_DateCreated",
    "System_DateAccessed", "System_Size", "System_FileOwner", "System_Search_AutoSummary",
    "System_Search_GatherTime", "System_ItemType"]
  const INTERNET_HEADER: seq<string> := [
    "WorkId", "System_ComputerName", "System_ItemName", "System_ItemUrl", "System_Link_TargetUrl",
    "System_ItemDate", "System_DateCreated", "System_DateModified", "System_ItemFolderNameDisplay",
    "System_Search_GatherTime", "System_Title", "System_Link_DateVisited"]
  const ACTIVITY_HEADER: seq<string> := [
    "WorkId", "System_ComputerName", "System_DateModified", "System_ItemNameDisplay", "System_ItemUrl",
    "System_ActivityHistory_StartTime", "System_ActivityHistory_EndTime", "System_Activity_AppDisplayName",
    "System_ActivityHistory_AppId", "System_Activity_DisplayText", "VolumeId", "ObjectId",
    "System_Activity_ContentUri"]

  /** The reports as `init_reports` returns them: each has declared its header. */
  const OPENED := Reports(SetFields(FILE_HEADER), SetFields(INTERNET_HEADER), SetFields(ACTIVITY_HEADER))

  /** The WorkId column read as `i64` and cast `as u32`: its low 32 bits. */
  function WorkIdOf(row: PropertyRow): (w: nat)
    ensures w < 0x1_0000_0000
    ensures (row.workId - w) % 0x1_0000_0000 == 0
  {
    row.workId % 0x1_0000_0000
  }

  // ---------------------------------------------------------------------------
  // populate_property_id_maps

  /** `idToProp` after inserting every metadata row in order. */
  function IdToProp(meta: seq<MetadataRow>): map<int, Property> {
    if meta == [] then map[]
    else
      var last := meta[|meta| - 1];
      IdToProp(meta[..|meta| - 1])[last.id := Property(last.name, last.storageType)]
  }

  /** `NameToId` after inserting every metadata row in order. */
  function NameToId(meta: seq<MetadataRow>): map<string, int> {
    if meta == [] then map[]
    else
      var last := meta[|meta| - 1];
      NameToId(meta[..|meta| - 1])[last.name := last.id]
  }

  /** `populate_property_id_maps`: every metadata row is inserted into both maps. */
  method PopulatePropertyIdMaps(meta: seq<MetadataRow>) returns (idToProp: map<int, Property>, nameToId: map<string, int>)
    ensures idToProp == IdToProp(meta) && nameToId == NameToId(meta)
  {
    idToProp, nameToId := map[], map[];
    var i := 0;
    while i < |meta|
      invariant i <= |meta|
      invariant idToProp == IdToProp(meta[..i]) && nameToId == NameToId(meta[..i])
    {
      var row := meta[i];
      assert meta[..i + 1][..i] == meta[..i];
      idToProp := idToProp[row.id := Property(row.name, row.storageType)];
      nameToId := nameToId[row.name := row.id];
      i := i + 1;
    }
    assert meta[..i] == meta;
  }

  /** Every metadata row is in both maps; an id keeps the property of the last
      row with that id, and a name the id of the last row with that name. */
  lemma {:induction false} PropertyMapsLastWins(meta: seq<MetadataRow>, k: nat)
    requires k < |meta|
    ensures meta[k].id in IdToProp(meta) && meta[k].name in NameToId(meta)
    ensures (forall j :: k < j < |meta| ==> meta[j].id != meta[k].id) ==>
              IdToProp(meta)[meta[k].id] == Property(meta[k].name, meta[k].storageType)
    ensures (forall j :: k < j < |meta| ==> meta[j].name != meta[k].name) ==>
              NameToId(meta)[meta[k].name] == meta[k].id
  {
    var front := meta[..|meta| - 1];
    if k < |meta| - 1 {
      PropertyMapsLastWins(front, k);
      assert forall j :: k < j < |front| ==> front[j] == meta[j];
    }
  }

  /** Only the ids and names of metadata rows are in the maps. */
  lemma {:induction false} PropertyMapsKeys(meta: seq<MetadataRow>)
    ensures forall id :: id in IdToProp(meta) ==> exists k :: 0 <= k < |meta| && meta[k].id == id
    ensures forall n :: n in NameToId(meta) ==> exists k :: 0 <= k < |meta| && meta[k].name == n
  {
    if meta != [] {
      var front := meta[..|meta| - 1];
      PropertyMapsKeys(front);
      assert forall k :: 0 <= k < |front| ==> front[k] == meta[k];
    }
  }

  /** With ids and names unique, as in the metadata table, both maps have one
      entry per row and each name leads back to its own property. */
  lemma {:induction false} PropertyMapsInverse(meta: seq<MetadataRow>)
    requires forall i, j :: 0 <= i < j < |meta| ==> meta[i].id != meta[j].id && meta[i].name != meta[j].name
    ensures |IdToProp(meta)| == |NameToId(meta)| == |meta|
    ensures forall n :: n in NameToId(meta) ==>
              NameToId(meta)[n] in IdToProp(meta) && IdToProp(meta)[NameToId(meta)[n]].name == n
  {
    if meta != [] {
      var front := meta[..|meta| - 1];
      var last := meta[|meta| - 1];
      PropertyMapsInverse(front);
      PropertyMapsKeys(front);
      assert last.id !in IdToProp(front) && last.name !in NameToId(front) by {
        assert forall k :: 0 <= k < |front| ==> front[k] == meta[k];
      }
      var names := NameToId(meta);
      forall n | n in names
        ensures names[n] in IdToProp(meta) && IdToProp(meta)[names[n]].name == n
      {
        if n != last.name {
          var id := NameToId(front)[n];
          assert id != last.id;
        }
      }
    }
  }

  // ---------------------------------------------------------------------------
  // Routing

  const TARGET_URL := "System.Link.TargetUrl"
  const ITEM_TYPE := "System.ItemType"

  /** `is_internet_record`: the record has a `System.Link.TargetUrl` value
      whose text starts with `http`; a property missing from the map or a
      field missing from the record is no match. */
  predicate IsInternetRecord(record: Record, nameToId: map<string, int>) {
    && TARGET_URL in nameToId
    && nameToId[TARGET_URL] in record
    && StartsWith(Utf8.Utf8Lossy(record[nameToId[TARGET_URL]]), "http")
  }

  /** `is_activity_history_record`: the record's `System.ItemType` text is
      exactly `ActivityHistoryItem`. */
  predicate IsActivityHistoryRecord(record: Record, nameToId: map<string, int>) {
    && ITEM_TYPE in nameToId
    && nameToId[ITEM_TYPE] in record
    && Utf8.Utf8Lossy(record[nameToId[ITEM_TYPE]]) == "ActivityHistoryItem"
  }

  /** The report the handler writes a record to. */
  function Route(record: Record, nameToId: map<string, int>): Destination {
    if IsInternetRecord(record, nameToId) then InternetReport
    else if IsActivityHistoryRecord(record, nameToId) then ActivityReport
    else FileReport
  }

  /** `is_internet_record` decided on the raw bytes: the TargetUrl bytes
      start with the ASCII bytes of `http`. */
  lemma InternetOnBytes(record: Record, nameToId: map<string, int>)
    ensures IsInternetRecord(record, nameToId) <==>
              && TARGET_URL in nameToId && nameToId[TARGET_URL] in record
              && StartsWith(record[nameToId[TARGET_URL]], Utf8.AsciiBytes("http"))
  {
    if TARGET_URL in nameToId && nameToId[TARGET_URL] in record {
      Utf8.StartsWithAscii(record[nameToId[TARGET_URL]], "http");
    }
  }

  /** `is_activity_history_record` decided on the raw bytes: the ItemType
      bytes are exactly the ASCII bytes of `ActivityHistoryItem`. */
  lemma ActivityOnBytes(record: Record, nameToId: map<string, int>)
    ensures IsActivityHistoryRecord(record, nameToId) <==>
              && ITEM_TYPE in nameToId && nameToId[ITEM_TYPE] in record
              && record[nameToId[ITEM_TYPE]] == Utf8.AsciiBytes("ActivityHistoryItem")
  {
    if ITEM_TYPE in nameToId && nameToId[ITEM_TYPE] in record {
      Utf8.EqualsAscii(record[nameToId[ITEM_TYPE]], "ActivityHistoryItem");
    }
  }

  // ---------------------------------------------------------------------------
  // write_record_to_report

  /** A property name as a report field: every `.` becomes `_`. */
  function FieldName(name: string): (r: string)
    ensures |r| == |name| && '.' !in r
  {
    var r := ReplaceChar(name, '.', '_');
    assert forall k :: 0 <= k < |r| ==> r[k] != '.';
    r
  }

  predicate IsTimeName(field: string) {
    Contains(field, "Date") || Contains(field, "Time")
  }

  /** The call for one property: storage type 11 is text; 12 is a date when
      the field's name mentions `Date` or `Time`, an integer otherwise; other
      types and ids missing from the map write nothing. */
  function PropertyCall(id: int, value: seq<Byte>, idToProp: map<int, Property>): (r: seq<SinkCall>)
    ensures |r| <= 1
    ensures r != [] <==> id in idToProp && (idToProp[id].storageType == 11 || idToProp[id].storageType == 12)
    ensures r != [] ==> (r[0].StrVal? || r[0].IntVal?) && r[0].field == FieldName(idToProp[id].name)
  {
    if id !in idToProp then []
    else
      var field := FieldName(idToProp[id].name);
      if idToProp[id].storageType == 11 then [StrVal(field, Utf8.Utf8Lossy(value))]
      else if idToProp[id].storageType == 12 then
        var n := FromBytes.U64FromBytes(value);
        if IsTimeName(field) then [StrVal(field, Utils.FiletimeText(n))]
        else [IntVal(field, n)]
      else []
  }

  /** A date property whose FILETIME lies in the exact range is written as
      seconds, a seven-digit fraction that is the FILETIME's ticks within the
      second, and `Z`. */
  lemma DatePropertyText(id: int, value: seq<Byte>, idToProp: map<int, Property>)
    requires id in idToProp && idToProp[id].storageType == 12 && IsTimeName(FieldName(idToProp[id].name))
    requires Utils.FIRST_EXACT_FILETIME <= FromBytes.U64FromBytes(value) <= Utils.LAST_EXACT_FILETIME
    ensures var ft := FromBytes.U64FromBytes(value);
            var t := Utils.FiletimeToUnixNanosExact(ft);
            PropertyCall(id, value, idToProp)
            == [StrVal(FieldName(idToProp[id].name), Utils.SecondsText(t) + "." + ZeroPad(ft % 10_000_000, 7) + "Z")]
  {
    Utils.FiletimeTextInRange(FromBytes.U64FromBytes(value));
  }

  /** A date property holding FILETIME 0 is written as a time in 2185 with
      nine fractional digits. */
  lemma DatePropertyZero(id: int, value: seq<Byte>, idToProp: map<int, Property>)
    requires id in idToProp && idToProp[id].storageType == 12 && IsTimeName(FieldName(idToProp[id].name))
    requires FromBytes.U64FromBytes(value) == 0
    ensures PropertyCall(id, value, idToProp)
            == [StrVal(FieldName(idToProp[id].name),
                       Utils.SecondsText(6802270473709551616) + "." + ZeroPad(709551616, 9) + "Z")]
  {
    Utils.FiletimeZeroText();
  }

  /** The calls for the properties with ids `keys`, in that order. */
  function PropertyCalls(keys: seq<int>, record: Record, idToProp: map<int, Property>): (r: seq<SinkCall>)
    requires forall k :: 0 <= k < |keys| ==> keys[k] in record
    ensures |r| <= |keys|
  {
    if keys == [] then []
    else PropertyCall(keys[0], record[keys[0]], idToProp) + PropertyCalls(keys[1..], record, idToProp)
  }

  /** Property calls are cells: no `new_record`, no footer, no `.` in a field. */
  lemma {:induction false} PropertyCallsAreCells(keys: seq<int>, record: Record, idToProp: map<int, Property>)
    requires forall k :: 0 <= k < |keys| ==> keys[k] in record
    ensures forall k :: 0 <= k < |PropertyCalls(keys, record, idToProp)| ==>
              IsCell(PropertyCalls(keys, record, idToProp)[k])
  {
    if keys != [] {
      PropertyCallsAreCells(keys[1..], record, idToProp);
      var head := PropertyCall(keys[0], record[keys[0]], idToProp);
      var rest := PropertyCalls(keys[1..], record, idToProp);
      var r: seq<SinkCall> := head + rest;
      forall k | 0 <= k < |r|
        ensures IsCell(r[k])
      {
        if k >= |head| {
          assert r[k] == rest[k - |head|];
        } else {
          assert r[k] == head[0];
          var f := FieldName(idToProp[keys[0]].name);
          assert head[0].field == f;
          assert '.' !in f;
        }
      }
    }
  }

  /** When every id is a supported property, there is one call per id, in
      the order of the ids. */
  lemma {:induction false} SupportedPropertiesInOrder(keys: seq<int>, record: Record, idToProp: map<int, Property>)
    requires forall k :: 0 <= k < |keys| ==> keys[k] in record && keys[k] in idToProp
    requires forall k :: 0 <= k < |keys| ==> idToProp[keys[k]].storageType == 11 || idToProp[keys[k]].storageType == 12
    ensures var r := PropertyCalls(keys, record, idToProp);
            && |r| == |keys|
            && forall k :: 0 <= k < |keys| ==>
                 (r[k].StrVal? || r[k].IntVal?) && r[k].field == FieldName(idToProp[keys[k]].name)
  {
    if keys != [] {
      SupportedPropertiesInOrder(keys[1..], record, idToProp);
      var head := PropertyCall(keys[0], record[keys[0]], idToProp);
      var rest := PropertyCalls(keys[1..], record, idToProp);
      assert |head| == 1;
      var r := head + rest;
      assert r == PropertyCalls(keys, record, idToProp);
      forall k | 0 <= k < |keys|
        ensures (r[k].StrVal? || r[k].IntVal?) && r[k].field == FieldName(idToProp[keys[k]].name)
      {
        if k == 0 {
          assert r[k] == head[0];
        } else {
          assert r[k] == rest[k - 1] && keys[k] == keys[1..][k - 1];
        }
      }
    }
  }

  lemma PropertyCallsCons(id: int, keys: seq<int>, record: Record, idToProp: map<int, Property>)
    requires id in record && forall k :: 0 <= k < |keys| ==> keys[k] in record
    ensures PropertyCalls([id] + keys, record, idToProp) == PropertyCall(id, record[id], idToProp) + PropertyCalls(keys, record, idToProp)
  {
    assert ([id] + keys)[0] == id && ([id] + keys)[1..] == keys;
  }

  lemma AppendAssoc(a: seq<SinkCall>, b: seq<SinkCall>, c: seq<SinkCall>)
    ensures a + (b + c) == (a + b) + c
  {
  }

  /** `write_record_to_report`: a new row, the WorkId, then the properties in
      ascending ColumnId order. */
  ghost function RecordCalls(record: Record, workId: nat, idToProp: map<int, Property>): seq<SinkCall> {
    [NewRecord, IntVal("WorkId", workId)] + PropertyCalls(Ascending(record.Keys), record, idToProp)
  }

  method WriteRecordToReport(record: Record, workId: nat, idToProp: map<int, Property>) returns (calls: seq<SinkCall>)
    ensures calls == RecordCalls(record, workId, idToProp)
  {
    calls := [NewRecord, IntVal("WorkId", workId)];
    var remaining := record.Keys;
    assert RecordCalls(record, workId, idToProp) == calls + Pending(remaining, record, idToProp);
    while remaining != {}
      invariant remaining <= record.Keys
      invariant RecordCalls(record, workId, idToProp) == calls + Pending(remaining, record, idToProp)
      decreases |remaining|
    {
      LeastExists(remaining);
      var col :| IsLeast(col, remaining);
      WriteStep(calls, remaining, col, record, workId, idToProp);
      calls := calls + PropertyCall(col, record[col], idToProp);
      remaining := remaining - {col};
    }
    assert Ascending(remaining) == [];
    assert Pending(remaining, record, idToProp) == [];
    assert calls + [] == calls;
  }

  /** The calls still to be made for the ColumnIds in `remaining`. */
  ghost function Pending(remaining: set<int>, record: Record, idToProp: map<int, Property>): seq<SinkCall>
    requires remaining <= record.Keys
  {
    PropertyCalls(Ascending(remaining), record, idToProp)
  }

  /** The property with the least remaining ColumnId is written next. */
  lemma WriteStep(calls: seq<SinkCall>, remaining: set<int>, col: int, record: Record, workId: nat,
                  idToProp: map<int, Property>)
    requires remaining <= record.Keys && IsLeast(col, remaining)
    requires RecordCalls(record, workId, idToProp) == calls + Pending(remaining, record, idToProp)
    ensures RecordCalls(record, workId, idToProp)
            == (calls + PropertyCall(col, record[col], idToProp)) + Pending(remaining - {col}, record, idToProp)
  {
    AscendingFirst(remaining, col);
    var rest := Ascending(remaining - {col});
    PropertyCallsCons(col, rest, record, idToProp);
    AppendAssoc(calls, PropertyCall(col, record[col], idToProp), PropertyCalls(rest, record, idToProp));
  }

  /** The property calls of a record, in ColumnId order, are all cells. */
  lemma RecordPropertiesAreCells(record: Record, idToProp: map<int, Property>)
    ensures |PropertyCalls(Ascending(record.Keys), record, idToProp)| <= |record|
    ensures forall k :: 0 <= k < |PropertyCalls(Ascending(record.Keys), record, idToProp)| ==>
              IsCell(PropertyCalls(Ascending(record.Keys), record, idToProp)[k])
  {
    PropertyCallsAreCells(Ascending(record.Keys), record, idToProp);
    assert |Ascending(record.Keys)| == |record.Keys| == |record|;
  }

  /** A written record is a row: `new_record`, the WorkId, then one cell per
      supported property, ordered by ColumnId. */
  lemma RecordCallsShape(record: Record, workId: nat, idToProp: map<int, Property>)
    ensures var calls := RecordCalls(record, workId, idToProp);
            && 2 <= |calls| <= 2 + |record|
            && calls[0] == NewRecord && calls[1] == IntVal("WorkId", workId)
            && forall k :: 2 <= k < |calls| ==> IsCell(calls[k])
  {
    RecordPropertiesAreCells(record, idToProp);
    CellsAfterHead([NewRecord, IntVal("WorkId", workId)], PropertyCalls(Ascending(record.Keys), record, idToProp));
  }

  lemma CellsAfterHead(head: seq<SinkCall>, cells: seq<SinkCall>)
    requires forall k :: 0 <= k < |cells| ==> IsCell(cells[k])
    ensures forall k :: |head| <= k < |head + cells| ==> IsCell((head + cells)[k])
  {
    forall k | |head| <= k < |head + cells|
      ensures IsCell((head + cells)[k])
    {
      assert (head + cells)[k] == cells[k - |head|];
    }
  }

  /** When every ColumnId of a record is a supported property, the `k`-th
      cell after the WorkId is the property with the `k`-th smallest ColumnId. */
  lemma RecordCallsOrdered(record: Record, workId: nat, idToProp: map<int, Property>)
    requires forall id :: id in record ==> id in idToProp
    requires forall id :: id in record ==> idToProp[id].storageType == 11 || idToProp[id].storageType == 12
    ensures var calls := RecordCalls(record, workId, idToProp);
            var keys := Ascending(record.Keys);
            && |calls| == 2 + |record|
            && forall k :: 0 <= k < |keys| ==>
                 (calls[k + 2].StrVal? || calls[k + 2].IntVal?) && calls[k + 2].field == FieldName(idToProp[keys[k]].name)
  {
    var keys := Ascending(record.Keys);
    SupportedPropertiesInOrder(keys, record, idToProp);
    var props := PropertyCalls(keys, record, idToProp);
    var calls := RecordCalls(record, workId, idToProp);
    assert calls == [NewRecord, IntVal("WorkId", workId)] + props;
    forall k | 0 <= k < |keys|
      ensures (calls[k + 2].StrVal? || calls[k + 2].IntVal?) && calls[k + 2].field == FieldName(idToProp[keys[k]].name)
    {
      assert calls[k + 2] == props[k];
    }
  }

  // ---------------------------------------------------------------------------
  // The grouping loop of sqlite_generate_report

  /** The handler's record, if it is not empty. */
  function Flush(workId: nat, record: Record): (r: seq<Group>)
    ensures |r| <= 1 && (r != [] ==> r[0].record != map[])
  {
    if record == map[] then [] else [Group(workId, record)]
  }

  /** The records the loop hands to the handler from row `i` on, holding
      `record` for WorkId `current`. */
  function GroupsFrom(rows: seq<PropertyRow>, i: nat, current: nat, record: Record): seq<Group>
    requires i <= |rows|
    decreases |rows| - i
  {
    if i == |rows| then Flush(current, record)
    else
      var w := WorkIdOf(rows[i]);
      var row := rows[i];
      if w != current then Flush(current, record) + GroupsFrom(rows, i + 1, w, map[row.columnId := row.value])
      else GroupsFrom(rows, i + 1, current, record[row.columnId := row.value])
  }

  /** The records of a whole table, starting from WorkId 0 and an empty record. */
  function Groups(rows: seq<PropertyRow>): seq<Group> {
    GroupsFrom(rows, 0, 0, map[])
  }

  /** The values of rows `j` to `i`, each ColumnId holding its last value. */
  function Fold(rows: seq<PropertyRow>, j: nat, i: nat): Record
    requires j <= i <= |rows|
    decreases i
  {
    if i == j then map[] else Fold(rows, j, i - 1)[rows[i - 1].columnId := rows[i - 1].value]
  }

  /** The end of the run of rows sharing row `j`'s WorkId, searched from `e`. */
  function RunEnd(rows: seq<PropertyRow>, j: nat, e: nat): (r: nat)
    requires j < e <= |rows|
    ensures e <= r <= |rows|
    ensures forall k :: e <= k < r ==> WorkIdOf(rows[k]) == WorkIdOf(rows[j])
    ensures r < |rows| ==> WorkIdOf(rows[r]) != WorkIdOf(rows[j])
    decreases |rows| - e
  {
    if e == |rows| || WorkIdOf(rows[e]) != WorkIdOf(rows[j]) then e else RunEnd(rows, j, e + 1)
  }

  /** Reference definition: one record per maximal run of rows with the same
      WorkId, in table order. */
  function Runs(rows: seq<PropertyRow>, j: nat): seq<Group>
    requires j <= |rows|
    decreases |rows| - j
  {
    if j == |rows| then []
    else
      var e := RunEnd(rows, j, j + 1);
      [Group(WorkIdOf(rows[j]), Fold(rows, j, e))] + Runs(rows, e)
  }

  lemma RunEndIs(rows: seq<PropertyRow>, j: nat, i: nat)
    requires j < i <= |rows|
    requires forall k :: j <= k < i ==> WorkIdOf(rows[k]) == WorkIdOf(rows[j])
    requires i < |rows| ==> WorkIdOf(rows[i]) != WorkIdOf(rows[j])
    ensures RunEnd(rows, j, j + 1) == i
  {
  }

  lemma {:induction false} GroupsFromRuns(rows: seq<PropertyRow>, j: nat, i: nat, current: nat, record: Record)
    requires j <= i <= |rows|
    requires forall k :: j <= k < i ==> WorkIdOf(rows[k]) == current
    requires record == Fold(rows, j, i)
    ensures GroupsFrom(rows, i, current, record) == Runs(rows, j)
    decreases |rows| - i
  {
    if i == |rows| {
      if j < i {
        RunEndIs(rows, j, i);
        assert Fold(rows, j, i) != map[] by {
          assert rows[i - 1].columnId in Fold(rows, j, i);
        }
      }
    } else {
      var w := WorkIdOf(rows[i]);
      var row := rows[i];
      if w != current {
        GroupsFromRuns(rows, i, i + 1, w, map[row.columnId := row.value]);
        if j < i {
          RunEndIs(rows, j, i);
          assert Fold(rows, j, i) != map[] by {
            assert rows[i - 1].columnId in Fold(rows, j, i);
          }
        }
      } else {
        GroupsFromRuns(rows, j, i + 1, current, record[row.columnId := row.value]);
      }
    }
  }

  /** The grouping loop yields exactly one record per maximal run of equal
      WorkIds: a change of WorkId flushes the previous record, and the row
      that changes it starts the next one. */
  lemma GroupsAreRuns(rows: seq<PropertyRow>)
    ensures Groups(rows) == Runs(rows, 0)
  {
    GroupsFromRuns(rows, 0, 0, 0, map[]);
  }

  /** No record of a run is empty, and neighbouring records have different
      WorkIds. */
  lemma {:induction false} RunsShape(rows: seq<PropertyRow>, j: nat)
    requires j <= |rows|
    ensures var g := Runs(rows, j);
            && (forall k :: 0 <= k < |g| ==> g[k].record != map[])
            && (forall k :: 1 <= k < |g| ==> g[k - 1].workId != g[k].workId)
            && (g != [] ==> j < |rows| && g[0].workId == WorkIdOf(rows[j]))
    decreases |rows| - j
  {
    if j < |rows| {
      var e := RunEnd(rows, j, j + 1);
      RunsShape(rows, e);
      assert rows[e - 1].columnId in Fold(rows, j, e);
      var g := Runs(rows, j);
      assert forall k :: 1 <= k < |g| ==> g[k] == Runs(rows, e)[k - 1];
    }
  }

  /** Within a record a repeated ColumnId keeps the value of its last row. */
  lemma {:induction false} FoldLastWins(rows: seq<PropertyRow>, j: nat, i: nat, k: nat)
    requires j <= k < i <= |rows|
    requires forall m :: k < m < i ==> rows[m].columnId != rows[k].columnId
    ensures rows[k].columnId in Fold(rows, j, i) && Fold(rows, j, i)[rows[k].columnId] == rows[k].value
    decreases i
  {
    if k < i - 1 {
      FoldLastWins(rows, j, i - 1, k);
    }
  }

  /** A record holds exactly the ColumnIds of its rows. */
  lemma {:induction false} FoldKeys(rows: seq<PropertyRow>, j: nat, i: nat, c: int)
    requires j <= i <= |rows|
    ensures c in Fold(rows, j, i) <==> exists k :: j <= k < i && rows[k].columnId == c
    decreases i
  {
    if j < i {
      FoldKeys(rows, j, i - 1, c);
    }
  }

  // ---------------------------------------------------------------------------
  // The handler and the whole report

  /** The handler on a non-empty record: written to the report it is routed to. */
  ghost function Handle(reps: Reports, g: Group, idToProp: map<int, Property>, nameToId: map<string, int>): Reports {
    var calls := RecordCalls(g.record, g.workId, idToProp);
    match Route(g.record, nameToId)
    case InternetReport => reps.(internet := reps.internet + calls)
    case ActivityReport => reps.(activity := reps.activity + calls)
    case FileReport => reps.(file := reps.file + calls)
  }

  ghost function HandleAll(reps: Reports, groups: seq<Group>, idToProp: map<int, Property>,
                           nameToId: map<string, int>): Reports
    decreases |groups|
  {
    if groups == [] then reps else HandleAll(Handle(reps, groups[0], idToProp, nameToId), groups[1..], idToProp, nameToId)
  }

  lemma {:induction false} HandleAllAppend(reps: Reports, a: seq<Group>, b: seq<Group>,
                                           idToProp: map<int, Property>, nameToId: map<string, int>)
    ensures HandleAll(reps, a + b, idToProp, nameToId) == HandleAll(HandleAll(reps, a, idToProp, nameToId), b, idToProp, nameToId)
    decreases |a|
  {
    if a == [] {
      assert a + b == b;
    } else {
      var first := Handle(reps, a[0], idToProp, nameToId);
      assert (a + b)[0] == a[0] && (a + b)[1..] == a[1..] + b;
      assert HandleAll(reps, a + b, idToProp, nameToId) == HandleAll(first, a[1..] + b, idToProp, nameToId);
      HandleAllAppend(first, a[1..], b, idToProp, nameToId);
    }
  }

  /** The three reports `sqlite_generate_report` writes from a table and its
      metadata: opened with their headers, filled, and dropped. */
  ghost function SqliteReports(rows: seq<PropertyRow>, meta: seq<MetadataRow>): Reports {
    HandleAll(OPENED, Groups(rows), IdToProp(meta), NameToId(meta)).Dropped()
  }

  lemma HandleOne(reps: Reports, g: Group, idToProp: map<int, Property>, nameToId: map<string, int>)
    ensures HandleAll(reps, [g], idToProp, nameToId) == Handle(reps, g, idToProp, nameToId)
  {
    assert [g][0] == g && [g][1..] == [];
  }

  /** `handler`: a non-empty record is written to the internet report, else
      the activity report, else the file report. */
  method Handler(reps: Reports, workId: nat, record: Record, idToProp: map<int, Property>, nameToId: map<string, int>)
    returns (r: Reports)
    ensures r == HandleAll(reps, Flush(workId, record), idToProp, nameToId)
  {
    if record == map[] {
      return reps;
    }
    HandleOne(reps, Group(workId, record), idToProp, nameToId);
    var calls := WriteRecordToReport(record, workId, idToProp);
    if IsInternetRecord(record, nameToId) {
      r := reps.(internet := reps.internet + calls);
    } else if IsActivityHistoryRecord(record, nameToId) {
      r := reps.(activity := reps.activity + calls);
    } else {
      r := reps.(file := reps.file + calls);
    }
  }

  /** `sqlite_generate_report`: the reports `init_reports` opens, the
      metadata maps, one pass over the property rows, and the reports
      dropped when the function returns. */
  method SqliteGenerateReport(rows: seq<PropertyRow>, meta: seq<MetadataRow>) returns (reps: Reports)
    ensures reps == SqliteReports(rows, meta)
  {
    var idToProp, nameToId := PopulatePropertyIdMaps(meta);
    reps := ReportRows(OPENED, rows, idToProp, nameToId);
    reps := reps.Dropped();
  }

  /** The `while let` loop over the property rows and the final flush. */
  method ReportRows(start: Reports, rows: seq<PropertyRow>, idToProp: map<int, Property>, nameToId: map<string, int>)
    returns (reps: Reports)
    ensures reps == HandleAll(start, Groups(rows), idToProp, nameToId)
  {
    ghost var total := HandleAll(start, Groups(rows), idToProp, nameToId);
    reps := start;
    var record: Record := map[];
    var current: nat := 0;
    var i := 0;
    while i < |rows|
      invariant i <= |rows|
      invariant HandleAll(reps, GroupsFrom(rows, i, current, record), idToProp, nameToId) == total
    {
      var row := rows[i];
      var w := row.workId % 0x1_0000_0000;
      GroupsFromStep(rows, i, current, record);
      if current != w {
        HandleAllAppend(reps, Flush(current, record), GroupsFrom(rows, i + 1, w, map[row.columnId := row.value]),
                        idToProp, nameToId);
        reps := Handler(reps, current, record, idToProp, nameToId);
        record := map[];
        current := w;
      }
      record := record[row.columnId := row.value];
      i := i + 1;
    }
    if record != map[] {
      reps := Handler(reps, current, record, idToProp, nameToId);
    }
  }

  lemma GroupsFromStep(rows: seq<PropertyRow>, i: nat, current: nat, record: Record)
    requires i < |rows|
    ensures var row := rows[i];
            var w := WorkIdOf(row);
            GroupsFrom(rows, i, current, record)
            == if w != current then Flush(current, record) + GroupsFrom(rows, i + 1, w, map[row.columnId := row.value])
               else GroupsFrom(rows, i + 1, current, record[row.columnId := row.value])
  {
  }

  lemma RecordCallsOneRow(record: Record, workId: nat, idToProp: map<int, Property>)
    ensures Rows(RecordCalls(record, workId, idToProp)) == 1
  {
    var props := PropertyCalls(Ascending(record.Keys), record, idToProp);
    RecordPropertiesAreCells(record, idToProp);
    CellRunHasNoRows(props);
    var head := [NewRecord, IntVal("WorkId", workId)];
    assert RecordCalls(record, workId, idToProp) == head + props;
    HeadIsOneRow(workId);
    RowsAppend(head, props);
  }

  lemma HeadIsOneRow(workId: nat)
    ensures Rows([NewRecord, IntVal("WorkId", workId)]) == 1
  {
    var head := [NewRecord, IntVal("WorkId", workId)];
    assert head[1..][1..] == [];
    assert Rows(head) == 1 + Rows(head[1..]) == 1 + Rows(head[1..][1..]);
  }

  function TotalRows(reps: Reports): nat {
    Rows(reps.file) + Rows(reps.internet) + Rows(reps.activity)
  }

  /** Each record is written as one row to exactly one of the reports. */
  lemma {:induction false} HandleAllRows(reps: Reports, groups: seq<Group>, idToProp: map<int, Property>,
                                         nameToId: map<string, int>)
    ensures TotalRows(HandleAll(reps, groups, idToProp, nameToId)) == TotalRows(reps) + |groups|
    decreases |groups|
  {
    if groups != [] {
      HandleAddsOneRow(reps, groups[0], idToProp, nameToId);
      HandleAllRows(Handle(reps, groups[0], idToProp, nameToId), groups[1..], idToProp, nameToId);
    }
  }

  /** One record adds one row to the report it is routed to. */
  lemma HandleAddsOneRow(reps: Reports, g: Group, idToProp: map<int, Property>, nameToId: map<string, int>)
    ensures TotalRows(Handle(reps, g, idToProp, nameToId)) == TotalRows(reps) + 1
  {
    var calls := RecordCalls(g.record, g.workId, idToProp);
    RecordCallsOneRow(g.record, g.workId, idToProp);
    match Route(g.record, nameToId)
    case InternetReport => RowsAppend(reps.internet, calls);
    case ActivityReport => RowsAppend(reps.activity, calls);
    case FileReport => RowsAppend(reps.file, calls);
  }

  /** The three reports together hold one row per run of equal WorkIds. */
  lemma SqliteReportRows(rows: seq<PropertyRow>, meta: seq<MetadataRow>)
    ensures TotalRows(SqliteReports(rows, meta)) == |Runs(rows, 0)|
  {
    GroupsAreRuns(rows);
    OpenedIsEmpty();
    DroppedRows(OPENED, Groups(rows), IdToProp(meta), NameToId(meta));
  }

  /** Filling and dropping reports adds one row per group. */
  lemma DroppedRows(start: Reports, groups: seq<Group>, idToProp: map<int, Property>, nameToId: map<string, int>)
    requires forall d :: Footer !in start.Of(d)
    ensures TotalRows(HandleAll(start, groups, idToProp, nameToId).Dropped()) == TotalRows(start) + |groups|
  {
    var filled := HandleAll(start, groups, idToProp, nameToId);
    HandleAllRows(start, groups, idToProp, nameToId);
    HandleAllOpen(start, groups, idToProp, nameToId);
    DropCloses(filled.Of(FileReport));
    DropCloses(filled.Of(InternetReport));
    DropCloses(filled.Of(ActivityReport));
  }

  /** The declared headers start no row and close nothing. */
  lemma OpenedIsEmpty()
    ensures forall d :: Footer !in OPENED.Of(d)
    ensures TotalRows(OPENED) == 0
  {
    HeaderIsEmpty(FILE_HEADER);
    HeaderIsEmpty(INTERNET_HEADER);
    HeaderIsEmpty(ACTIVITY_HEADER);
  }

  lemma HeaderIsEmpty(header: seq<string>)
    ensures Rows(SetFields(header)) == 0 && Footer !in SetFields(header)
  {
    CellsHaveNoRows(SetFields(header));
  }

  /** Each report opens with the header `init_reports` declares and is
      closed by one footer, at its end, when it is dropped. */
  lemma SqliteReportsClosed(rows: seq<PropertyRow>, meta: seq<MetadataRow>)
    ensures var reps := SqliteReports(rows, meta);
            forall d :: StartsWith(reps.Of(d), OPENED.Of(d)) && ClosedOnce(reps.Of(d))
  {
    OpenedIsEmpty();
    DroppedClosed(OPENED, Groups(rows), IdToProp(meta), NameToId(meta));
  }

  /** Filled reports keep what they started with and are closed once when dropped. */
  lemma DroppedClosed(start: Reports, groups: seq<Group>, idToProp: map<int, Property>, nameToId: map<string, int>)
    requires forall d :: Footer !in start.Of(d)
    ensures var reps := HandleAll(start, groups, idToProp, nameToId).Dropped();
            forall d :: StartsWith(reps.Of(d), start.Of(d)) && ClosedOnce(reps.Of(d))
  {
    var filled := HandleAll(start, groups, idToProp, nameToId);
    HandleAllOpen(start, groups, idToProp, nameToId);
    forall d
      ensures StartsWith(filled.Dropped().Of(d), start.Of(d)) && ClosedOnce(filled.Dropped().Of(d))
    {
      DropCloses(filled.Of(d));
      assert filled.Dropped().Of(d) == filled.Of(d) + [Footer];
      assert (filled.Of(d) + [Footer])[..|start.Of(d)|] == filled.Of(d)[..|start.Of(d)|];
    }
  }

  /** Handling records only appends to the reports and never closes one. */
  lemma {:induction false} HandleAllOpen(reps: Reports, groups: seq<Group>, idToProp: map<int, Property>,
                                         nameToId: map<string, int>)
    ensures forall d :: var h := HandleAll(reps, groups, idToProp, nameToId).Of(d);
              && StartsWith(h, reps.Of(d))
              && (Footer !in reps.Of(d) ==> Footer !in h)
    decreases |groups|
  {
    if groups != [] {
      var next := Handle(reps, groups[0], idToProp, nameToId);
      HandleOpen(reps, groups[0], idToProp, nameToId);
      HandleAllOpen(next, groups[1..], idToProp, nameToId);
      forall d
        ensures StartsWith(HandleAll(reps, groups, idToProp, nameToId).Of(d), reps.Of(d))
      {
        var h := HandleAll(reps, groups, idToProp, nameToId).Of(d);
        assert h[..|next.Of(d)|] == next.Of(d);
        assert next.Of(d)[..|reps.Of(d)|] == reps.Of(d);
      }
    }
  }

  /** One record is appended to its report, and holds no footer. */
  lemma HandleOpen(reps: Reports, g: Group, idToProp: map<int, Property>, nameToId: map<string, int>)
    ensures forall d :: var h := Handle(reps, g, idToProp, nameToId).Of(d);
              && StartsWith(h, reps.Of(d))
              && (Footer !in reps.Of(d) ==> Footer !in h)
  {
    var calls := RecordCalls(g.record, g.workId, idToProp);
    RecordHasNoFooter(g.record, g.workId, idToProp);
    forall d
      ensures StartsWith(Handle(reps, g, idToProp, nameToId).Of(d), reps.Of(d))
      ensures Footer !in reps.Of(d) ==> Footer !in Handle(reps, g, idToProp, nameToId).Of(d)
    {
      HandleOf(reps, g, idToProp, nameToId, d);
      if Route(g.record, nameToId) == d {
        assert (reps.Of(d) + calls)[..|reps.Of(d)|] == reps.Of(d);
      }
    }
  }

  /** The report a record is routed to gains its calls; the others are unchanged. */
  lemma HandleOf(reps: Reports, g: Group, idToProp: map<int, Property>, nameToId: map<string, int>, d: Destination)
    ensures Handle(reps, g, idToProp, nameToId).Of(d)
            == if Route(g.record, nameToId) == d then reps.Of(d) + RecordCalls(g.record, g.workId, idToProp)
               else reps.Of(d)
  {
  }

  lemma RecordHasNoFooter(record: Record, workId: nat, idToProp: map<int, Property>)
    ensures Footer !in RecordCalls(record, workId, idToProp)
  {
    var calls := RecordCalls(record, workId, idToProp);
    RecordCallsShape(record, workId, idToProp);
  }
}

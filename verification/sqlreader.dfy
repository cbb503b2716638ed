/** `SqlReader`, the reader of the SQLite property store in src/lib.rs, and its
    variant in src/bin/external_cfg.rs. The store is a table of
    (WorkId, ColumnId, Value) rows ordered by WorkId; `next` folds the rows of
    one WorkId into a record that maps report-column titles to values. The
    statement is modelled as the sequence of rows it yields and the number of
    rows `next_row` has consumed. */
module SqlRecords {
  import opened Wrappers
  import opened Text
  import opened Config
  import opened FromBytes
  import Utils

  /** `sqlite::Value`; a float's payload plays no part here. */
  datatype SqlValue = Null | Integer(i: int) | Float | Str(s: string) | Binary(bytes: seq<Byte>)

  /** One row of `SystemIndex_1_PropertyStore`. */
  datatype Row = Row(workId: int, columnId: string, value: SqlValue)

  type Record = map<string, SqlValue>

  /** The key under which `next` stores the WorkId. */
  function WorkIdKey(variant: Variant): (k: string)
    ensures k == "WorkId" || k == "WorkID"
  {
    if variant == LibReader then "WorkId" else "WorkID"
  }

  // ---------------------------------------------------------------------------
  // init

  /** The titles of the columns whose SQL code is `code`, in configuration order. */
  function TitlesWithCode(columns: seq<ColumnPair>, code: string): seq<string> {
    if columns == [] then []
    else TitlesWithCode(columns[..|columns| - 1], code)
         + (if columns[|columns| - 1].sql == code then [columns[|columns| - 1].title] else [])
  }

  /** The titles of the columns read from SQLite, in configuration order. */
  function SqlTitles(columns: seq<ColumnPair>): seq<string> {
    if columns == [] then []
    else SqlTitles(columns[..|columns| - 1])
         + (if columns[|columns| - 1].sql != "" then [columns[|columns| - 1].title] else [])
  }

  /** `CodeColDict::from_iter` over the columns with a non-empty SQL code:
      every such code maps to all titles that use it. */
  function CodeColDict(columns: seq<ColumnPair>): (d: map<string, seq<string>>)
    ensures forall code :: code in d <==> code != "" && TitlesWithCode(columns, code) != []
    ensures forall code :: code in d ==> d[code] == TitlesWithCode(columns, code)
  {
    if columns == [] then map[]
    else
      var d := CodeColDict(columns[..|columns| - 1]);
      var p := columns[|columns| - 1];
      if p.sql == "" then d
      else d[p.sql := (if p.sql in d then d[p.sql] else []) + [p.title]]
  }

  predicate NoDuplicates(keys: seq<string>) {
    forall i, j :: 0 <= i < j < |keys| ==> keys[i] != keys[j]
  }

  /** `keys` lists the keys of `d` once each, in the order the multimap's
      iteration happens to give them. */
  ghost predicate KeyOrder(keys: seq<string>, d: map<string, seq<string>>) {
    && NoDuplicates(keys)
    && (forall k :: k in keys <==> k in d)
  }

  /** The titles of each key in turn. */
  function Flatten(keys: seq<string>, d: map<string, seq<string>>): seq<string>
    requires forall i :: 0 <= i < |keys| ==> keys[i] in d
  {
    if keys == [] then [] else Flatten(keys[..|keys| - 1], d) + d[keys[|keys| - 1]]
  }

  /** Flattening one more key appends its titles. */
  lemma FlattenSnoc(keys: seq<string>, d: map<string, seq<string>>, i: nat)
    requires i < |keys| && forall j :: 0 <= j < |keys| ==> keys[j] in d
    ensures Flatten(keys[..i + 1], d) == Flatten(keys[..i], d) + d[keys[i]]
  {
    assert keys[..i + 1][..i] == keys[..i];
  }

  /** The titles of the columns whose codes are among `keys`, as a multiset. */
  function TitlesOfCodes(columns: seq<ColumnPair>, keys: seq<string>): multiset<string> {
    if keys == [] then multiset{}
    else TitlesOfCodes(columns, keys[..|keys| - 1]) + multiset(TitlesWithCode(columns, keys[|keys| - 1]))
  }

  lemma {:induction false} FlattenTitles(columns: seq<ColumnPair>, keys: seq<string>)
    requires forall i :: 0 <= i < |keys| ==> keys[i] in CodeColDict(columns)
    ensures multiset(Flatten(keys, CodeColDict(columns))) == TitlesOfCodes(columns, keys)
  {
    if keys != [] {
      FlattenTitles(columns, keys[..|keys| - 1]);
    }
  }

  lemma {:induction false} TitlesOfNoColumns(keys: seq<string>)
    ensures TitlesOfCodes([], keys) == multiset{}
  {
    if keys != [] {
      TitlesOfNoColumns(keys[..|keys| - 1]);
    }
  }

  /** One more column adds its title once when its code is among the keys. */
  lemma {:induction false} TitlesOfCodesSnoc(columns: seq<ColumnPair>, p: ColumnPair, keys: seq<string>)
    requires NoDuplicates(keys)
    ensures TitlesOfCodes(columns + [p], keys)
            == TitlesOfCodes(columns, keys) + (if p.sql in keys then multiset{p.title} else multiset{})
  {
    if keys != [] {
      var init, k := keys[..|keys| - 1], keys[|keys| - 1];
      assert (columns + [p])[..|columns|] == columns;
      assert TitlesWithCode(columns + [p], k) == TitlesWithCode(columns, k) + (if p.sql == k then [p.title] else []);
      TitlesOfCodesSnoc(columns, p, init);
      assert p.sql in keys <==> p.sql in init || p.sql == k;
      if p.sql == k {
        assert p.sql !in init;
      }
    }
  }

  /** With every code of the columns among the keys, the keys' titles are
      the titles of the SQLite columns. */
  lemma {:induction false} TitlesOfAllCodes(columns: seq<ColumnPair>, keys: seq<string>)
    requires NoDuplicates(keys) && "" !in keys
    requires forall i :: 0 <= i < |columns| && columns[i].sql != "" ==> columns[i].sql in keys
    ensures TitlesOfCodes(columns, keys) == multiset(SqlTitles(columns))
  {
    if columns == [] {
      TitlesOfNoColumns(keys);
    } else {
      var init, p := columns[..|columns| - 1], columns[|columns| - 1];
      assert columns == init + [p];
      TitlesOfAllCodes(init, keys);
      TitlesOfCodesSnoc(init, p, keys);
    }
  }

  /** Every column's title is listed under its code. */
  lemma {:induction false} TitleUnderItsCode(columns: seq<ColumnPair>, i: nat)
    requires i < |columns|
    ensures columns[i].title in TitlesWithCode(columns, columns[i].sql)
  {
    if i < |columns| - 1 {
      TitleUnderItsCode(columns[..|columns| - 1], i);
    }
  }

  /** `init` returns every title read from SQLite, each as often as the
      configuration lists it, in whatever order the multimap gives. */
  lemma InitNamesAreTitles(columns: seq<ColumnPair>, keys: seq<string>)
    requires KeyOrder(keys, CodeColDict(columns))
    ensures multiset(Flatten(keys, CodeColDict(columns))) == multiset(SqlTitles(columns))
  {
    var d := CodeColDict(columns);
    FlattenTitles(columns, keys);
    forall i | 0 <= i < |columns| && columns[i].sql != ""
      ensures columns[i].sql in keys
    {
      TitleUnderItsCode(columns, i);
    }
    TitlesOfAllCodes(columns, keys);
  }

  // ---------------------------------------------------------------------------
  // store_value

  /** The titles `store_value` writes for a mapped code: all of them in
      src/lib.rs, the first one (`MultiMap::get`) in src/bin/external_cfg.rs. */
  function StoreTitles(variant: Variant, titles: seq<string>): (r: seq<string>)
    ensures variant == LibReader ==> r == titles
    ensures variant == CfgReader ==> r == if titles == [] then [] else [titles[0]]
  {
    if variant == LibReader then titles else if titles == [] then [] else [titles[0]]
  }

  /** The record after `store_value` for a row with column code `code` and
      value `v`: an unmapped code changes nothing. */
  function Stored(variant: Variant, rec: Record, dict: map<string, seq<string>>, code: string, v: SqlValue): Record {
    if code in dict then rec + map t | t in StoreTitles(variant, dict[code]) :: v else rec
  }

  /** What a store does to one title. */
  lemma StoredAt(variant: Variant, rec: Record, dict: map<string, seq<string>>, code: string, v: SqlValue, t: string)
    ensures var r := Stored(variant, rec, dict, code, v);
            && (code in dict && t in StoreTitles(variant, dict[code]) ==> t in r && r[t] == v)
            && (!(code in dict && t in StoreTitles(variant, dict[code])) ==> (t in r <==> t in rec) && (t in rec ==> r[t] == rec[t]))
  {
  }

  // ---------------------------------------------------------------------------
  // next

  /** The reader's position after a call of `next`: rows consumed, the
      remembered WorkId and the record. */
  datatype Cursor = Cursor(pos: nat, lastWorkId: int, record: Record)

  /** The loop of `next` from row `p` on, `workId` being the group's WorkId
      so far (0 before its first row). `next_row` consumes row `p` before
      the loop looks at it, so a row that ends the loop is consumed too. */
  function Scan(variant: Variant, rows: seq<Row>, dict: map<string, seq<string>>, p: nat, workId: int,
                last: int, rec: Record): (c: Cursor)
    requires p <= |rows|
    ensures p <= c.pos <= |rows|
    ensures p < |rows| ==> p < c.pos
    ensures p == |rows| ==> c.record == rec
    decreases |rows| - p
  {
    if p == |rows| then Cursor(p, last, rec)
    else
      var row := rows[p];
      if workId == 0 then
        if row.workId < last then Cursor(p + 1, if variant == LibReader then 0 else last, rec)
        else
          var rec' := rec[WorkIdKey(variant) := Integer(row.workId)];
          Scan(variant, rows, dict, p + 1, row.workId, row.workId, Stored(variant, rec', dict, row.columnId, row.value))
      else if row.workId != workId then Cursor(p + 1, last, rec)
      else Scan(variant, rows, dict, p + 1, workId, last, Stored(variant, rec, dict, row.columnId, row.value))
  }

  /** The same loop that only looks at a row before consuming it, so that
      the row that starts the next group stays unread. */
  function ScanBuffered(variant: Variant, rows: seq<Row>, dict: map<string, seq<string>>, p: nat, workId: int,
                        last: int, rec: Record): (c: Cursor)
    requires p <= |rows|
    ensures p <= c.pos <= |rows|
    decreases |rows| - p
  {
    if p == |rows| then Cursor(p, last, rec)
    else
      var row := rows[p];
      if workId == 0 then
        if row.workId < last then Cursor(p + 1, if variant == LibReader then 0 else last, rec)
        else
          var rec' := rec[WorkIdKey(variant) := Integer(row.workId)];
          ScanBuffered(variant, rows, dict, p + 1, row.workId, row.workId, Stored(variant, rec', dict, row.columnId, row.value))
      else if row.workId != workId then Cursor(p, last, rec)
      else ScanBuffered(variant, rows, dict, p + 1, workId, last, Stored(variant, rec, dict, row.columnId, row.value))
  }

  /** The end of the group of rows with WorkId `w` that starts at `p`. */
  function GroupEnd(rows: seq<Row>, p: nat, w: int): (e: nat)
    requires p <= |rows|
    ensures p <= e <= |rows|
    ensures forall k :: p <= k < e ==> rows[k].workId == w
    ensures e < |rows| ==> rows[e].workId != w
    decreases |rows| - p
  {
    if p == |rows| || rows[p].workId != w then p else GroupEnd(rows, p + 1, w)
  }

  /** The record after storing rows `p` to `e - 1` in turn. */
  function Fold(variant: Variant, rows: seq<Row>, dict: map<string, seq<string>>, p: nat, e: nat, rec: Record): Record
    requires p <= e <= |rows|
    decreases e - p
  {
    if p == e then rec
    else Fold(variant, rows, dict, p + 1, e, Stored(variant, rec, dict, rows[p].columnId, rows[p].value))
  }

  /** Inside a group, the loop stores every row of the group and stops after
      consuming the first row past it. */
  lemma {:induction false} ScanRestOfGroup(variant: Variant, rows: seq<Row>, dict: map<string, seq<string>>,
                                           p: nat, w: int, last: int, rec: Record)
    requires p <= |rows| && w != 0
    ensures var e := GroupEnd(rows, p, w);
            Scan(variant, rows, dict, p, w, last, rec)
            == Cursor(if e < |rows| then e + 1 else e, last, Fold(variant, rows, dict, p, e, rec))
    decreases |rows| - p
  {
    if p < |rows| && rows[p].workId == w {
      ScanRestOfGroup(variant, rows, dict, p + 1, w, last, Stored(variant, rec, dict, rows[p].columnId, rows[p].value));
    }
  }

  lemma {:induction false} BufferedRestOfGroup(variant: Variant, rows: seq<Row>, dict: map<string, seq<string>>,
                                               p: nat, w: int, last: int, rec: Record)
    requires p <= |rows| && w != 0
    ensures ScanBuffered(variant, rows, dict, p, w, last, rec)
            == Cursor(GroupEnd(rows, p, w), last, Fold(variant, rows, dict, p, GroupEnd(rows, p, w), rec))
    decreases |rows| - p
  {
    if p < |rows| && rows[p].workId == w {
      BufferedRestOfGroup(variant, rows, dict, p + 1, w, last, Stored(variant, rec, dict, rows[p].columnId, rows[p].value));
    }
  }

  /** `next` as written, from a row whose WorkId is not below the remembered
      one: the record holds the WorkId and every mapped value of the group,
      the WorkId is remembered, and the first row of the following group has
      been consumed, so it is in neither record. */
  lemma NextReadsGroup(variant: Variant, rows: seq<Row>, dict: map<string, seq<string>>, p: nat, last: int)
    requires p < |rows| && rows[p].workId != 0 && rows[p].workId >= last
    ensures var w := rows[p].workId;
            var e := GroupEnd(rows, p, w);
            Scan(variant, rows, dict, p, 0, last, map[])
            == Cursor(if e < |rows| then e + 1 else e, w,
                      Fold(variant, rows, dict, p, e, map[WorkIdKey(variant) := Integer(w)]))
  {
    var w := rows[p].workId;
    var rec := map[WorkIdKey(variant) := Integer(w)];
    ScanRestOfGroup(variant, rows, dict, p + 1, w, w, Stored(variant, rec, dict, rows[p].columnId, rows[p].value));
  }

  /** The corrected `next`: the same record, and the reader stops at the
      first row of the following group. */
  lemma NextBufferedReadsGroup(variant: Variant, rows: seq<Row>, dict: map<string, seq<string>>, p: nat, last: int)
    requires p < |rows| && rows[p].workId != 0 && rows[p].workId >= last
    ensures var w := rows[p].workId;
            var e := GroupEnd(rows, p, w);
            ScanBuffered(variant, rows, dict, p, 0, last, map[])
            == Cursor(e, w, Fold(variant, rows, dict, p, e, map[WorkIdKey(variant) := Integer(w)]))
  {
    var w := rows[p].workId;
    var rec := map[WorkIdKey(variant) := Integer(w)];
    BufferedRestOfGroup(variant, rows, dict, p + 1, w, w, Stored(variant, rec, dict, rows[p].columnId, rows[p].value));
  }

  /** The guard: a first row whose WorkId is below the remembered one ends
      `next` with an empty record. src/lib.rs forgets the remembered WorkId;
      src/bin/external_cfg.rs keeps it. */
  lemma NextGuard(variant: Variant, rows: seq<Row>, dict: map<string, seq<string>>, p: nat, last: int)
    requires p < |rows| && rows[p].workId < last
    ensures Scan(variant, rows, dict, p, 0, last, map[])
            == Cursor(p + 1, if variant == LibReader then 0 else last, map[])
    ensures ScanBuffered(variant, rows, dict, p, 0, last, map[])
            == Cursor(p + 1, if variant == LibReader then 0 else last, map[])
  {
  }

  /** With no rows left, `next` returns an empty record and moves nothing. */
  lemma NextAtEnd(variant: Variant, rows: seq<Row>, dict: map<string, seq<string>>, last: int)
    ensures Scan(variant, rows, dict, |rows|, 0, last, map[]) == Cursor(|rows|, last, map[])
  {
  }

  /** Within a group the last row that stores a title decides its value. */
  lemma {:induction false} FoldLastWins(variant: Variant, rows: seq<Row>, dict: map<string, seq<string>>,
                                        p: nat, e: nat, rec: Record, t: string)
    requires p < e <= |rows|
    requires rows[e - 1].columnId in dict && t in StoreTitles(variant, dict[rows[e - 1].columnId])
    ensures var r := Fold(variant, rows, dict, p, e, rec);
            t in r && r[t] == rows[e - 1].value
    decreases e - p
  {
    var rec' := Stored(variant, rec, dict, rows[p].columnId, rows[p].value);
    if p + 1 == e {
      StoredAt(variant, rec, dict, rows[p].columnId, rows[p].value, t);
      assert Fold(variant, rows, dict, e, e, rec') == rec';
    } else {
      FoldLastWins(variant, rows, dict, p + 1, e, rec', t);
    }
  }

  /** A title no row of the group stores keeps its value. */
  lemma {:induction false} FoldKeeps(variant: Variant, rows: seq<Row>, dict: map<string, seq<string>>,
                                     p: nat, e: nat, rec: Record, t: string)
    requires p <= e <= |rows|
    requires forall k :: p <= k < e ==> !(rows[k].columnId in dict && t in StoreTitles(variant, dict[rows[k].columnId]))
    ensures var r := Fold(variant, rows, dict, p, e, rec);
            (t in r <==> t in rec) && (t in rec ==> r[t] == rec[t])
    decreases e - p
  {
    if p < e {
      var rec' := Stored(variant, rec, dict, rows[p].columnId, rows[p].value);
      StoredAt(variant, rec, dict, rows[p].columnId, rows[p].value, t);
      FoldKeeps(variant, rows, dict, p + 1, e, rec', t);
    }
  }

  /** Rows in ascending WorkId order never trip the guard of the corrected
      reader: the row it stops at has a larger WorkId than the one it
      remembers. */
  lemma NextBufferedStopsAtLarger(variant: Variant, rows: seq<Row>, dict: map<string, seq<string>>, p: nat, last: int)
    requires p < |rows| && rows[p].workId > 0 && rows[p].workId >= last
    requires forall i, j :: 0 <= i < j < |rows| ==> rows[i].workId <= rows[j].workId
    ensures var c := ScanBuffered(variant, rows, dict, p, 0, last, map[]);
            c.pos < |rows| ==> rows[c.pos].workId > c.lastWorkId && rows[c.pos].workId != 0
  {
    NextBufferedReadsGroup(variant, rows, dict, p, last);
  }

  // ---------------------------------------------------------------------------
  // A group lost by `next` as written

  /** Two groups of one row each: WorkId 1 and WorkId 2, code "c" mapped to
      title "t". The first `next` consumes both rows, the second finds none:
      the group of WorkId 2 is never returned. */
  lemma NextLosesSecondGroup(rows: seq<Row>, dict: map<string, seq<string>>)
    requires rows == [Row(1, "c", Integer(7)), Row(2, "c", Integer(8))] && dict == map["c" := ["t"]]
    ensures var first := Scan(LibReader, rows, dict, 0, 0, 0, map[]);
            && first == Cursor(2, 1, map["WorkId" := Integer(1), "t" := Integer(7)])
            && Scan(LibReader, rows, dict, first.pos, 0, first.lastWorkId, map[]).record == map[]
  {
    var rec := map["WorkId" := Integer(1)];
    assert GroupEnd(rows, 0, 1) == 1;
    NextReadsGroup(LibReader, rows, dict, 0, 0);
    assert Stored(LibReader, rec, dict, "c", Integer(7)) == map["WorkId" := Integer(1), "t" := Integer(7)];
  }

  /** The corrected reader returns that group on its second call. */
  lemma NextBufferedKeepsSecondGroup(rows: seq<Row>, dict: map<string, seq<string>>)
    requires rows == [Row(1, "c", Integer(7)), Row(2, "c", Integer(8))] && dict == map["c" := ["t"]]
    ensures var first := ScanBuffered(LibReader, rows, dict, 0, 0, 0, map[]);
            && first == Cursor(1, 1, map["WorkId" := Integer(1), "t" := Integer(7)])
            && ScanBuffered(LibReader, rows, dict, first.pos, 0, first.lastWorkId, map[])
               == Cursor(2, 2, map["WorkId" := Integer(2), "t" := Integer(8)])
  {
    assert GroupEnd(rows, 0, 1) == 1;
    assert GroupEnd(rows, 1, 2) == 2;
    NextBufferedReadsGroup(LibReader, rows, dict, 0, 0);
    NextBufferedReadsGroup(LibReader, rows, dict, 1, 1);
    assert Stored(LibReader, map["WorkId" := Integer(1)], dict, "c", Integer(7))
           == map["WorkId" := Integer(1), "t" := Integer(7)];
    assert Stored(LibReader, map["WorkId" := Integer(2)], dict, "c", Integer(8))
           == map["WorkId" := Integer(2), "t" := Integer(8)];
  }

  /** The loops of `init` over the multimap: the titles of each key in turn. */
  method TitlesOf(keys: seq<string>, dict: map<string, seq<string>>) returns (names: seq<string>)
    requires forall i :: 0 <= i < |keys| ==> keys[i] in dict
    ensures names == Flatten(keys, dict)
  {
    names := [];
    var i := 0;
    while i < |keys|
      invariant 0 <= i <= |keys|
      invariant names == Flatten(keys[..i], dict)
    {
      var titles := dict[keys[i]];
      var j := 0;
      while j < |titles|
        invariant 0 <= j <= |titles|
        invariant names == Flatten(keys[..i], dict) + titles[..j]
      {
        assert titles[..j + 1] == titles[..j] + [titles[j]];
        names := names + [titles[j]];
        j := j + 1;
      }
      assert titles[..j] == titles;
      FlattenSnoc(keys, dict, i);
      i := i + 1;
    }
    assert keys[..i] == keys;
  }

  // ---------------------------------------------------------------------------
  // The reader

  class SqlReader {
    const variant: Variant
    /** The rows `select WorkId, * from SystemIndex_1_PropertyStore order by WorkId` yields. */
    const rows: seq<Row>
    /** How many of them `next_row` has consumed. */
    var pos: nat
    var lastWorkId: int
    var codeColDict: map<string, seq<string>>
    var rowValues: Record

    /** `new_`: nothing read, nothing remembered. */
    constructor (variant: Variant, rows: seq<Row>)
      ensures this.variant == variant && this.rows == rows
      ensures pos == 0 && lastWorkId == 0 && codeColDict == map[] && rowValues == map[]
    {
      this.variant := variant;
      this.rows := rows;
      pos := 0;
      lastWorkId := 0;
      codeColDict := map[];
      rowValues := map[];
    }

    /** `init`: the code-to-titles multimap, and its titles key by key, in
        the order `keys` in which the multimap hands out its keys. */
    method Init(columns: seq<ColumnPair>, keys: seq<string>) returns (names: seq<string>)
      requires KeyOrder(keys, CodeColDict(columns))
      modifies this
      ensures codeColDict == CodeColDict(columns)
      ensures names == Flatten(keys, codeColDict)
      ensures pos == old(pos) && lastWorkId == old(lastWorkId) && rowValues == old(rowValues)
    {
      var dict := CodeColDict(columns);
      assert forall j :: 0 <= j < |keys| ==> keys[j] in dict;
      names := TitlesOf(keys, dict);
      codeColDict := dict;
    }

    /** `next_row`: one more row, if there is one. */
    method NextRow() returns (more: bool)
      requires pos <= |rows|
      modifies this
      ensures more <==> old(pos) < |rows|
      ensures pos == if more then old(pos) + 1 else old(pos)
      ensures lastWorkId == old(lastWorkId) && codeColDict == old(codeColDict) && rowValues == old(rowValues)
    {
      more := pos < |rows|;
      if more {
        pos := pos + 1;
      }
    }

    /** `store_values`: the value under each of the titles. */
    method StoreValues(names: seq<string>, value: SqlValue)
      modifies this
      ensures rowValues == old(rowValues) + map t | t in names :: value
      ensures pos == old(pos) && lastWorkId == old(lastWorkId) && codeColDict == old(codeColDict)
    {
      var i := 0;
      while i < |names|
        invariant 0 <= i <= |names|
        invariant rowValues == old(rowValues) + map t | t in names[..i] :: value
        invariant pos == old(pos) && lastWorkId == old(lastWorkId) && codeColDict == old(codeColDict)
      {
        assert names[..i + 1] == names[..i] + [names[i]];
        rowValues := rowValues[names[i] := value];
        i := i + 1;
      }
      assert names[..i] == names;
    }

    /** `store_value` for the current row, whose code is `code`. */
    method StoreValue(code: string)
      requires 1 <= pos <= |rows|
      modifies this
      ensures pos == old(pos) && lastWorkId == old(lastWorkId) && codeColDict == old(codeColDict)
      ensures rowValues == Stored(variant, old(rowValues), codeColDict, code, rows[pos - 1].value)
    {
      if code in codeColDict {
        var value := rows[pos - 1].value;
        var titles := codeColDict[code];
        if variant == LibReader {
          StoreValues(titles, value);
        } else if titles != [] {
          assert (map t | t in [titles[0]] :: value) == map[titles[0] := value];
          rowValues := rowValues[titles[0] := value];
        }
      }
    }

    /** `next` as written: the record of the next group, and whether it is
        non-empty. */
    method Next() returns (ok: bool)
      requires pos <= |rows|
      modifies this
      ensures Cursor(pos, lastWorkId, rowValues) == Scan(variant, rows, codeColDict, old(pos), 0, old(lastWorkId), map[])
      ensures codeColDict == old(codeColDict)
      ensures ok <==> rowValues != map[]
    {
      var workId := 0;
      rowValues := map[];
      while true
        invariant pos <= |rows| && codeColDict == old(codeColDict)
        invariant Scan(variant, rows, codeColDict, old(pos), 0, old(lastWorkId), map[])
                  == Scan(variant, rows, codeColDict, pos, workId, lastWorkId, rowValues)
        decreases |rows| - pos
      {
        var more := NextRow();
        if !more {
          break;
        }
        var wi := rows[pos - 1].workId;
        if workId == 0 {
          workId := wi;
          if workId < lastWorkId {
            if variant == LibReader {
              lastWorkId := 0;
            }
            break;
          }
          rowValues := rowValues[WorkIdKey(variant) := Integer(workId)];
          lastWorkId := wi;
        } else if wi != workId {
          break;
        }
        StoreValue(rows[pos - 1].columnId);
      }
      ok := rowValues != map[];
    }

    /** The corrected `next`: it looks at a row's WorkId before consuming
        it and leaves the first row of the following group unread. */
    method NextBuffered() returns (ok: bool)
      requires pos <= |rows|
      modifies this
      ensures Cursor(pos, lastWorkId, rowValues)
              == ScanBuffered(variant, rows, codeColDict, old(pos), 0, old(lastWorkId), map[])
      ensures codeColDict == old(codeColDict)
      ensures ok <==> rowValues != map[]
    {
      var workId := 0;
      rowValues := map[];
      while pos < |rows|
        invariant pos <= |rows| && codeColDict == old(codeColDict)
        invariant ScanBuffered(variant, rows, codeColDict, old(pos), 0, old(lastWorkId), map[])
                  == ScanBuffered(variant, rows, codeColDict, pos, workId, lastWorkId, rowValues)
        decreases |rows| - pos
      {
        var wi := rows[pos].workId;
        if workId != 0 && wi != workId {
          break;
        }
        pos := pos + 1;
        if workId == 0 {
          workId := wi;
          if workId < lastWorkId {
            if variant == LibReader {
              lastWorkId := 0;
            }
            break;
          }
          rowValues := rowValues[WorkIdKey(variant) := Integer(workId)];
          lastWorkId := wi;
        }
        StoreValue(rows[pos - 1].columnId);
      }
      ok := rowValues != map[];
    }
  }

  // ---------------------------------------------------------------------------
  // The typed getters

  /** `get_int`: an integer, or a binary value read as a little-endian `i64`;
      nothing for an empty id, an absent title or a NULL; any other kind of
      value panics. */
  function GetInt(rec: Record, id: string): (r: Outcome<Option<int>>)
    ensures r.Panic? <==> id != "" && id in rec && !(rec[id].Integer? || rec[id].Binary? || rec[id].Null?)
    ensures r == Ok(None) <==> id == "" || id !in rec || rec[id].Null?
    ensures r.Ok? && r.value.Some? ==> rec[id] == Integer(r.value.value)
                                       || (rec[id].Binary? && r.value.value == I64FromBytes(rec[id].bytes))
  {
    if id == "" || id !in rec then Ok(None)
    else match rec[id]
      case Integer(x) => Ok(Some(x))
      case Binary(b) => Ok(Some(I64FromBytes(b)))
      case Null => Ok(None)
      case _ => Panic
  }

  /** `get_str`: a string value; nothing for an empty id, an absent title or
      a NULL; any other kind of value panics. */
  function GetStr(rec: Record, id: string): (r: Outcome<Option<string>>)
    ensures r.Panic? <==> id != "" && id in rec && !(rec[id].Str? || rec[id].Null?)
    ensures r == Ok(None) <==> id == "" || id !in rec || rec[id].Null?
    ensures r.Ok? && r.value.Some? ==> rec[id] == Str(r.value.value)
  {
    if id == "" || id !in rec then Ok(None)
    else match rec[id]
      case Str(s) => Ok(Some(s))
      case Null => Ok(None)
      case _ => Panic
  }

  /** `get_datetime`: a binary value read as a FILETIME; nothing for an empty
      id, an absent title or a NULL; any other kind of value panics. The
      reader calls the ESE parser library's `get_date_time_from_filetime`,
      which is not part of this model; it is taken to convert as the one of
      src/utils.rs does, cast included. */
  function GetDatetime(rec: Record, id: string): (r: Outcome<Option<int>>)
    ensures r.Panic? <==> id != "" && id in rec && !(rec[id].Binary? || rec[id].Null?)
    ensures r == Ok(None) <==> id == "" || id !in rec || rec[id].Null?
    ensures r.Ok? && r.value.Some? ==>
              rec[id].Binary? && r.value.value == Utils.FiletimeToUnixNanos(U64FromBytes(rec[id].bytes))
  {
    if id == "" || id !in rec then Ok(None)
    else match rec[id]
      case Binary(b) => Ok(Some(Utils.FiletimeToUnixNanos(U64FromBytes(b))))
      case Null => Ok(None)
      case _ => Panic
  }

  /** `get_guid`: `find_guid` on the string value, after `<id>=`. */
  function GetGuid(rec: Record, id: string): (r: Outcome<Option<string>>)
    ensures r.Panic? <==> GetStr(rec, id).Panic?
    ensures r.Ok? && r.value.None? <==> GetStr(rec, id) == Ok(None)
    ensures r.Ok? && r.value.Some? ==>
              r.value.value == Utils.FindGuid(GetStr(rec, id).value.value, id + "=")
  {
    match GetStr(rec, id)
    case Panic => Panic
    case Ok(None) => Ok(None)
    case Ok(Some(s)) => Ok(Some(Utils.FindGuid(s, id + "=")))
  }

  /** The getters split the kinds of value between them: a string is only
      readable as a string, an integer only as an integer, and a binary value
      as an integer or a time, never as a string. */
  lemma GettersDisjoint(rec: Record, id: string)
    requires id != "" && id in rec
    ensures GetStr(rec, id).Ok? && GetStr(rec, id).value.Some? ==> GetInt(rec, id).Panic? && GetDatetime(rec, id).Panic?
    ensures rec[id].Integer? ==> GetStr(rec, id).Panic? && GetDatetime(rec, id).Panic?
    ensures rec[id].Binary? ==> GetStr(rec, id).Panic? && GetInt(rec, id).Ok? && GetDatetime(rec, id).Ok?
  {
  }

  /** A GUID the reader returns is empty or runs up to its first `}`. */
  lemma GuidShape(rec: Record, id: string)
    requires GetGuid(rec, id).Ok? && GetGuid(rec, id).value.Some?
    ensures var g := GetGuid(rec, id).value.value;
            g == "" || (EndsWith(g, "}") && '}' !in g[..|g| - 1])
  {
  }
}

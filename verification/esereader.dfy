/** `EseReader`, the reader of the ESE table `SystemIndex_PropertyStore` in
    src/lib.rs, and its variant in src/bin/external_cfg.rs. The table is
    modelled as its column catalogue and its rows; a row maps a column id to
    the column's bytes (an absent id is a NULL column). The parser's cursor
    is an index into the rows. */
module EseRecords {
  import opened Wrappers
  import opened Text
  import opened Config
  import opened FromBytes
  import Utf16
  import Utils

  // JET_coltyp, the column types of the ESE format.
  const COLTYP_BIT := 1
  const COLTYP_UNSIGNED_BYTE := 2
  const COLTYP_SHORT := 3
  const COLTYP_LONG := 4
  const COLTYP_CURRENCY := 5
  const COLTYP_IEEE_SINGLE := 6
  const COLTYP_IEEE_DOUBLE := 7
  const COLTYP_DATE_TIME := 8
  const COLTYP_BINARY := 9
  const COLTYP_TEXT := 10
  const COLTYP_LONG_BINARY := 11
  const COLTYP_LONG_TEXT := 12
  const COLTYP_SLV := 13
  const COLTYP_UNSIGNED_LONG := 14
  const COLTYP_LONG_LONG := 15
  const COLTYP_GUID := 16
  const COLTYP_UNSIGNED_SHORT := 17

  /** The types `field_size` knows: all but `Bit` and `SLV`. */
  predicate KnownType(colType: int) {
    COLTYP_UNSIGNED_BYTE <= colType <= COLTYP_LONG_TEXT || COLTYP_UNSIGNED_LONG <= colType <= COLTYP_UNSIGNED_SHORT
  }

  /** `field_size`: the width in bytes of a fixed-size type, the column's
      maximum size for the binary types, 0 for the text types; any other
      type panics. */
  function FieldSize(colType: int, size: int): (r: Outcome<int>)
    ensures r.Panic? <==> !KnownType(colType)
    ensures colType == COLTYP_BINARY || colType == COLTYP_LONG_BINARY ==> r == Ok(size)
    ensures colType == COLTYP_TEXT || colType == COLTYP_LONG_TEXT ==> r == Ok(0)
    ensures r.Ok? && colType != COLTYP_BINARY && colType != COLTYP_LONG_BINARY ==> r.value in {0, 1, 2, 4, 8, 16}
  {
    if colType == COLTYP_UNSIGNED_BYTE then Ok(1)
    else if colType == COLTYP_SHORT then Ok(2)
    else if colType == COLTYP_LONG then Ok(4)
    else if colType == COLTYP_CURRENCY then Ok(8)
    else if colType == COLTYP_IEEE_SINGLE then Ok(4)
    else if colType == COLTYP_IEEE_DOUBLE then Ok(8)
    else if colType == COLTYP_DATE_TIME then Ok(8)
    else if colType == COLTYP_BINARY then Ok(size)
    else if colType == COLTYP_TEXT then Ok(0)
    else if colType == COLTYP_LONG_BINARY then Ok(size)
    else if colType == COLTYP_LONG_TEXT then Ok(0)
    else if colType == COLTYP_UNSIGNED_LONG then Ok(4)
    else if colType == COLTYP_LONG_LONG then Ok(8)
    else if colType == COLTYP_GUID then Ok(16)
    else if colType == COLTYP_UNSIGNED_SHORT then Ok(2)
    else Panic
  }

  /** The width of each fixed-size type is the size of its values. */
  lemma FieldSizeWidths(size: int)
    ensures FieldSize(COLTYP_UNSIGNED_BYTE, size) == Ok(1)
    ensures FieldSize(COLTYP_SHORT, size) == Ok(2) && FieldSize(COLTYP_UNSIGNED_SHORT, size) == Ok(2)
    ensures FieldSize(COLTYP_LONG, size) == Ok(4) && FieldSize(COLTYP_UNSIGNED_LONG, size) == Ok(4)
    ensures FieldSize(COLTYP_IEEE_SINGLE, size) == Ok(4)
    ensures FieldSize(COLTYP_LONG_LONG, size) == Ok(8) && FieldSize(COLTYP_CURRENCY, size) == Ok(8)
    ensures FieldSize(COLTYP_IEEE_DOUBLE, size) == Ok(8) && FieldSize(COLTYP_DATE_TIME, size) == Ok(8)
    ensures FieldSize(COLTYP_GUID, size) == Ok(16)
    ensures FieldSize(COLTYP_BIT, size).Panic? && FieldSize(COLTYP_SLV, size).Panic?
  {
  }

  /** One entry of the table's column catalogue (`get_columns`). */
  datatype EseColumn = EseColumn(name: string, id: int, typ: int, cbmax: int)

  /** What `init` records for a title: the column id and the field size. */
  datatype ColInfo = ColInfo(id: int, size: int)

  /** A row: the bytes of each non-NULL column, by column id. */
  type EseRow = map<int, seq<Byte>>

  /** `cols.iter().find(|col| col.name == name)`: the first column so named. */
  function FindColumn(table: seq<EseColumn>, name: string): (r: Option<nat>)
    ensures r.None? <==> forall k :: 0 <= k < |table| ==> table[k].name != name
    ensures r.Some? ==> r.value < |table| && table[r.value].name == name
                        && forall k :: 0 <= k < r.value ==> table[k].name != name
  {
    if table == [] then None
    else if table[0].name == name then Some(0)
    else match FindColumn(table[1..], name)
      case None => None
      case Some(k) => Some(k + 1)
  }

  // ---------------------------------------------------------------------------
  // init

  /** A configured column `init` cannot bind: its ESE name is not in the
      table, or the table column's type is unknown. */
  predicate Unbindable(table: seq<EseColumn>, p: ColumnPair) {
    p.edb != "" && (FindColumn(table, p.edb).None? || FieldSize(table[FindColumn(table, p.edb).value].typ,
                                                                table[FindColumn(table, p.edb).value].cbmax).Panic?)
  }

  /** What `init` records for a column it can bind. */
  function Binding(table: seq<EseColumn>, p: ColumnPair): ColInfo
    requires p.edb != "" && !Unbindable(table, p)
  {
    var c := table[FindColumn(table, p.edb).value];
    ColInfo(c.id, FieldSize(c.typ, c.cbmax).value)
  }

  /** The titles of the columns read from the ESE table, in configuration order. */
  function EdbTitles(columns: seq<ColumnPair>): seq<string> {
    if columns == [] then []
    else EdbTitles(columns[..|columns| - 1])
         + (if columns[|columns| - 1].edb != "" then [columns[|columns| - 1].title] else [])
  }

  /** The column map after `init` has bound `columns` in turn, starting from
      `infos`; a column it cannot bind panics. */
  function Bound(table: seq<EseColumn>, columns: seq<ColumnPair>, infos: map<string, ColInfo>): Outcome<map<string, ColInfo>> {
    if columns == [] then Ok(infos)
    else
      var p := columns[|columns| - 1];
      match Bound(table, columns[..|columns| - 1], infos)
      case Panic => Panic
      case Ok(m) =>
        if p.edb == "" then Ok(m)
        else if Unbindable(table, p) then Panic
        else Ok(m[p.title := Binding(table, p)])
  }

  /** `init` panics exactly when some configured column cannot be bound. */
  lemma {:induction false} BoundPanics(table: seq<EseColumn>, columns: seq<ColumnPair>, infos: map<string, ColInfo>)
    ensures Bound(table, columns, infos).Panic? <==> exists i :: 0 <= i < |columns| && Unbindable(table, columns[i])
  {
    if columns != [] {
      var init := columns[..|columns| - 1];
      BoundPanics(table, init, infos);
      assert forall i :: 0 <= i < |init| ==> init[i] == columns[i];
      if exists i :: 0 <= i < |columns| && Unbindable(table, columns[i]) {
        var i :| 0 <= i < |columns| && Unbindable(table, columns[i]);
        if i < |init| {
          assert Unbindable(table, init[i]);
        }
      }
    }
  }

  /** After `init`, every title read from the table is bound, to the column
      named by the last configured column with that title; no other title
      changes. */
  lemma {:induction false} BoundBinds(table: seq<EseColumn>, columns: seq<ColumnPair>, infos: map<string, ColInfo>, t: string)
    requires Bound(table, columns, infos).Ok?
    ensures var m := Bound(table, columns, infos).value;
            && (t in m <==> t in infos || t in EdbTitles(columns))
            && (t !in EdbTitles(columns) && t in infos ==> m[t] == infos[t])
            && (forall i :: 0 <= i < |columns| && columns[i].title == t && columns[i].edb != ""
                  && (forall j :: i < j < |columns| && columns[j].edb != "" ==> columns[j].title != t)
                  ==> !Unbindable(table, columns[i]) && t in m && m[t] == Binding(table, columns[i]))
  {
    BoundKeys(table, columns, infos, t);
    forall i | 0 <= i < |columns| && columns[i].title == t && columns[i].edb != ""
                 && (forall j :: i < j < |columns| && columns[j].edb != "" ==> columns[j].title != t)
      ensures !Unbindable(table, columns[i]) && t in Bound(table, columns, infos).value
              && Bound(table, columns, infos).value[t] == Binding(table, columns[i])
    {
      BoundLastWins(table, columns, infos, t, i);
    }
  }

  lemma {:induction false} BoundKeys(table: seq<EseColumn>, columns: seq<ColumnPair>, infos: map<string, ColInfo>, t: string)
    requires Bound(table, columns, infos).Ok?
    ensures var m := Bound(table, columns, infos).value;
            && (t in m <==> t in infos || t in EdbTitles(columns))
            && (t !in EdbTitles(columns) && t in infos ==> m[t] == infos[t])
  {
    if columns != [] {
      BoundKeys(table, columns[..|columns| - 1], infos, t);
    }
  }

  lemma {:induction false} BoundLastWins(table: seq<EseColumn>, columns: seq<ColumnPair>, infos: map<string, ColInfo>,
                                         t: string, i: nat)
    requires Bound(table, columns, infos).Ok?
    requires i < |columns| && columns[i].title == t && columns[i].edb != ""
    requires forall j :: i < j < |columns| && columns[j].edb != "" ==> columns[j].title != t
    ensures !Unbindable(table, columns[i]) && t in Bound(table, columns, infos).value
            && Bound(table, columns, infos).value[t] == Binding(table, columns[i])
  {
    var init := columns[..|columns| - 1];
    if i < |init| {
      assert init[i] == columns[i];
      forall j | i < j < |init| && init[j].edb != ""
        ensures init[j].title != t
      {
        assert init[j] == columns[j];
      }
      BoundLastWins(table, init, infos, t, i);
    }
  }

  // ---------------------------------------------------------------------------
  // next

  /** The parser's cursor: the current row (-1 before the first) and, in
      src/lib.rs, the number of `next` calls since `init`. */
  datatype Position = Position(row: int, recNo: nat)

  /** `move_row` with `ESE_MoveFirst` or `ESE_MoveNext` on a table of `n`
      rows: it succeeds when the target row exists and then moves there. */
  function MoveRow(n: nat, row: int, first: bool): (r: (bool, int))
    ensures r.0 <==> (if first then n > 0 else 0 <= row + 1 < n)
    ensures r.0 ==> r.1 == (if first then 0 else row + 1)
    ensures !r.0 ==> r.1 == row
  {
    var target := if first then 0 else row + 1;
    if 0 <= target < n then (true, target) else (false, row)
  }

  /** `next`: src/lib.rs moves to the first row on the first call after
      `init` and to the next row afterwards; src/bin/external_cfg.rs always
      moves to the next row. */
  function Step(variant: Variant, n: nat, pos: Position): (r: (bool, Position))
    ensures r.0 ==> 0 <= r.1.row < n && Remaining(variant, n, r.1) < Remaining(variant, n, pos)
  {
    if variant == LibReader then
      var (ok, row) := MoveRow(n, pos.row, pos.recNo == 0);
      (ok, Position(row, pos.recNo + 1))
    else
      var (ok, row) := MoveRow(n, pos.row, false);
      (ok, Position(row, pos.recNo))
  }

  /** A bound on the rows `next` can still visit. */
  function Remaining(variant: Variant, n: nat, pos: Position): nat {
    if variant == LibReader && pos.recNo == 0 then n + 1
    else if pos.row < n then n - pos.row
    else 0
  }

  /** The position after `k` calls of `next`. */
  function Steps(variant: Variant, n: nat, pos: Position, k: nat): Position {
    if k == 0 then pos else Step(variant, n, Steps(variant, n, pos, k - 1)).1
  }

  /** After `init`, src/lib.rs visits every row once, in order, whatever
      the cursor's position: the `k+1`-th call lands on row `k`, and the
      call after the last row fails. */
  lemma {:induction false} LibVisitsEveryRow(n: nat, row: int, k: nat)
    requires k <= n
    ensures var pos := Steps(LibReader, n, Position(row, 0), k);
            && (k > 0 ==> pos == Position(k - 1, k))
            && (Step(LibReader, n, pos).0 <==> k < n)
  {
    if k > 0 {
      LibVisitsEveryRow(n, row, k - 1);
    }
  }

  /** A `next` that failed leaves the cursor where the following `next`
      fails too, in both readers. */
  lemma StepFailsAgain(variant: Variant, n: nat, pos: Position)
    requires !Step(variant, n, pos).0
    ensures !Step(variant, n, Step(variant, n, pos).1).0
    ensures Step(variant, n, pos).1.row == pos.row
  {
  }

  /** Once `next` of src/bin/external_cfg.rs has failed it fails forever,
      and `init` does not move the cursor: every report after the one that
      reached the end sees no rows. */
  lemma {:induction false} CfgStaysAtEnd(n: nat, pos: Position, k: nat)
    requires !Step(CfgReader, n, pos).0
    ensures Steps(CfgReader, n, pos, k) == pos
    ensures !Step(CfgReader, n, Steps(CfgReader, n, pos, k)).0
  {
    if k > 0 {
      CfgStaysAtEnd(n, pos, k - 1);
    }
  }

  // ---------------------------------------------------------------------------
  // The typed getters, on the current row

  /** `get_column` on the current row: the bytes, or nothing for NULL. */
  function Column(row: EseRow, id: int): Option<seq<Byte>> {
    if id in row then Some(row[id]) else None
  }

  /** `get_int`: nothing for an unbound title or a NULL column; the column
      read as a two's-complement integer of the recorded width when that is
      1, 2, 4 or 8 bytes; any other width panics. */
  function GetInt(infos: map<string, ColInfo>, row: EseRow, id: string): (r: Outcome<Option<int>>)
    ensures id !in infos ==> r == Ok(None)
    ensures id in infos ==> (r.Panic? <==> infos[id].size !in {1, 2, 4, 8})
    ensures id in infos && r.Ok? ==> (r.value.None? <==> infos[id].id !in row)
    ensures r.Ok? && r.value.Some? ==>
              && r.value.value == LeSigned(row[infos[id].id], infos[id].size)
              && -(Pow256(infos[id].size) / 2) <= r.value.value < Pow256(infos[id].size) / 2
  {
    if id !in infos then Ok(None)
    else
      var info := infos[id];
      if info.size !in {1, 2, 4, 8} then Panic
      else match Column(row, info.id)
        case None => Ok(None)
        case Some(v) => Ok(Some(LeSigned(v, info.size)))
  }

  /** A column whose type is unsigned is read as signed: a value with its
      top bit set comes back negative. */
  lemma UnsignedReadAsSigned(infos: map<string, ColInfo>, row: EseRow, id: string, b: seq<Byte>)
    requires id in infos && infos[id].size == 4 && row == map[infos[id].id := b]
    requires b == [0, 0, 0, 128]
    ensures GetInt(infos, row, id) == Ok(Some(-0x8000_0000))
  {
    assert b[1..][1..][1..] == [128] && b[1..][1..][1..][1..] == [];
    assert LeUnsigned([128], 1) == 128;
    assert LeUnsigned(b[1..][1..], 2) == 128 * 256;
    assert LeUnsigned(b[1..], 3) == 128 * 256 * 256;
    assert LeUnsigned(b, 4) == 0x8000_0000;
    assert Pow256(4) == 0x1_0000_0000;
  }

  /** `get_str`: nothing for an unbound title or a NULL column, otherwise
      the column decoded as UTF-16LE: lossily in src/lib.rs; strictly in
      src/bin/external_cfg.rs, where an unpaired surrogate panics. */
  function GetStr(variant: Variant, infos: map<string, ColInfo>, row: EseRow, id: string): (r: Outcome<Option<string>>)
    ensures r == Ok(None) <==> id !in infos || infos[id].id !in row
    ensures r.Panic? ==> variant.CfgReader?
    ensures r.Ok? && r.value.Some? ==> r.value.value == Utf16.FromUtf16(row[infos[id].id])
  {
    if id !in infos then Ok(None)
    else match Column(row, infos[id].id)
      case None => Ok(None)
      case Some(v) =>
        Utf16.StrictIffWellFormed(Utf16.CodeUnits(v));
        if variant == LibReader then Ok(Some(Utf16.FromUtf16(v)))
        else if Utf16.DecodeStrict(Utf16.CodeUnits(v)).None? then Panic
        else Ok(Some(Utf16.DecodeStrict(Utf16.CodeUnits(v)).value))
  }

  /** The strict reader panics exactly on text that is not well-formed
      UTF-16, and otherwise both readers return the same text. */
  lemma GetStrVariants(infos: map<string, ColInfo>, row: EseRow, id: string)
    requires id in infos && infos[id].id in row
    ensures GetStr(CfgReader, infos, row, id).Panic? <==> !Utf16.WellFormed(Utf16.CodeUnits(row[infos[id].id]))
    ensures GetStr(CfgReader, infos, row, id).Ok? ==> GetStr(CfgReader, infos, row, id) == GetStr(LibReader, infos, row, id)
  {
    Utf16.StrictIffWellFormed(Utf16.CodeUnits(row[infos[id].id]));
  }

  /** `get_datetime`: nothing for an unbound title, a NULL column or one
      that is not 8 bytes long. An 8-byte column is first tried as an OLE
      VARIANT time (`variantTime`, floating point, not modelled, giving
      nanoseconds since 1601); when that fails the bytes are read as a
      FILETIME, converted as `get_date_time_from_filetime` of src/utils.rs
      does (the ESE parser library's own conversion, which the reader calls,
      is not part of this model). */
  function GetDatetime(infos: map<string, ColInfo>, row: EseRow, id: string,
                       variantTime: seq<Byte> -> Option<nat>): (r: Option<int>)
    ensures r.None? <==> id !in infos || infos[id].id !in row || |row[infos[id].id]| != 8
    ensures r.Some? ==> r.value >= -Utils.UNIX_EPOCH_NANOS
    ensures r.Some? && variantTime(row[infos[id].id]).None? ==>
              r.value == Utils.FiletimeToUnixNanos(U64FromBytes(row[infos[id].id]))
  {
    if id !in infos then None
    else match Column(row, infos[id].id)
      case None => None
      case Some(v) =>
        if |v| != 8 then None
        else match variantTime(v)
          case Some(t) => Some(t - Utils.UNIX_EPOCH_NANOS)
          case None => Some(Utils.FiletimeToUnixNanos(U64FromBytes(v)))
  }

  // ---------------------------------------------------------------------------
  // The reader

  class EseReader {
    const variant: Variant
    /** The table's column catalogue. */
    const table: seq<EseColumn>
    const rows: seq<EseRow>
    var pos: Position
    var colInfos: map<string, ColInfo>

    /** `new`: the table opened, nothing bound; `start` is the row the
        parser stands on after opening the table. */
    constructor (variant: Variant, table: seq<EseColumn>, rows: seq<EseRow>, start: int)
      ensures this.variant == variant && this.table == table && this.rows == rows
      ensures pos == Position(start, 0) && colInfos == map[]
    {
      this.variant := variant;
      this.table := table;
      this.rows := rows;
      pos := Position(start, 0);
      colInfos := map[];
    }

    /** `init`: binds each configured column read from the table, in order,
        and returns their titles; src/lib.rs also rewinds the cursor. The
        map is not cleared between reports. */
    method Init(columns: seq<ColumnPair>) returns (r: Outcome<seq<string>>)
      modifies this
      ensures r.Panic? <==> Bound(table, columns, old(colInfos)).Panic?
      ensures r.Ok? ==> r.value == EdbTitles(columns) && colInfos == Bound(table, columns, old(colInfos)).value
      ensures r.Ok? ==> pos == if variant == LibReader then old(pos).(recNo := 0) else old(pos)
    {
      var used := [];
      var i := 0;
      while i < |columns|
        invariant 0 <= i <= |columns|
        invariant Bound(table, columns[..i], old(colInfos)) == Ok(colInfos)
        invariant used == EdbTitles(columns[..i])
        invariant pos == old(pos)
      {
        var p := columns[i];
        assert columns[..i + 1][..i] == columns[..i];
        if p.edb != "" {
          var found := FindColumn(table, p.edb);
          if found.None? {
            PanicPersists(table, columns, old(colInfos), i + 1);
            return Panic;
          }
          var c := table[found.value];
          var size := FieldSize(c.typ, c.cbmax);
          if size.Panic? {
            PanicPersists(table, columns, old(colInfos), i + 1);
            return Panic;
          }
          colInfos := colInfos[p.title := ColInfo(c.id, size.value)];
          used := used + [p.title];
        }
        i := i + 1;
      }
      assert columns[..i] == columns;
      if variant == LibReader {
        pos := pos.(recNo := 0);
      }
      r := Ok(used);
    }

    /** `next`: moves the cursor, and says whether it is on a row. */
    method Next() returns (ok: bool)
      modifies this
      ensures (ok, pos) == Step(variant, |rows|, old(pos))
      ensures ok ==> 0 <= pos.row < |rows|
      ensures colInfos == old(colInfos)
    {
      var first := variant == LibReader && pos.recNo == 0;
      var target := if first then 0 else pos.row + 1;
      ok := 0 <= target < |rows|;
      if ok {
        pos := pos.(row := target);
      }
      if variant == LibReader {
        pos := pos.(recNo := pos.recNo + 1);
      }
    }
  }

  /** A column that cannot be bound makes every longer configuration panic too. */
  lemma {:induction false} PanicPersists(table: seq<EseColumn>, columns: seq<ColumnPair>, infos: map<string, ColInfo>, i: nat)
    requires i <= |columns| && Bound(table, columns[..i], infos).Panic?
    ensures Bound(table, columns, infos).Panic?
    decreases |columns| - i
  {
    if i < |columns| {
      assert columns[..i + 1][..i] == columns[..i];
      PanicPersists(table, columns, infos, i + 1);
    } else {
      assert columns[..i] == columns;
    }
  }
}

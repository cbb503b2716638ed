/** The report configuration shared by src/lib.rs and src/bin/external_cfg.rs
    (`ColumnPair`, `ReportCfg`, `ReportsCfg`), taken as given data. */
module Config {
  /** `ColumnType`: how `do_report` reads and writes a column. */
  datatype ColumnType = StringColumn | IntegerColumn | DateTimeColumn | GuidColumn

  /** `ColumnPair`: a report column, with the name of its source column in
      the ESE table (`edb`) and its column code in the SQLite store (`sql`);
      an empty name means the column is not read from that database. */
  datatype ColumnPair = ColumnPair(title: string, kind: ColumnType, edb: string, sql: string)

  datatype ReportCfg = ReportCfg(title: string, columns: seq<ColumnPair>)

  datatype OutputFormat = CsvOutput | JsonOutput

  /** Which program a reader belongs to: src/lib.rs or src/bin/external_cfg.rs. */
  datatype Variant = LibReader | CfgReader

  datatype ReportsCfg = ReportsCfg(tableEdb: string, tableSql: string, outputFormat: OutputFormat,
                                   outputDir: string, reports: seq<ReportCfg>)
}

/** `FromBytes::from_bytes` for the fixed-width integers, read little-endian. */
module FromBytes {
  import opened Text

  function Pow256(k: nat): (p: nat)
    ensures p >= 1
  {
    if k == 0 then 1 else 256 * Pow256(k - 1)
  }

  /** The unsigned value of the first `width` bytes of `b`, least significant
      first; bytes past the end of `b` count as zero. */
  function LeUnsigned(b: seq<Byte>, width: nat): (r: nat)
    ensures r < Pow256(width)
  {
    if width == 0 || b == [] then 0
    else
      var rest := LeUnsigned(b[1..], width - 1);
      assert b[0] + 256 * rest <= 255 + 256 * (Pow256(width - 1) - 1);
      b[0] + 256 * rest
  }

  /** The same bytes as a two's-complement integer of `width` bytes. */
  function LeSigned(b: seq<Byte>, width: nat): (r: int)
    requires width >= 1
    ensures -(Pow256(width) / 2) <= r < Pow256(width) / 2
    ensures r == LeUnsigned(b, width) || r == LeUnsigned(b, width) - Pow256(width)
  {
    var u := LeUnsigned(b, width);
    var half := 128 * Pow256(width - 1);
    assert Pow256(width) == 2 * half && Pow256(width) / 2 == half;
    if u < half then u else u - 2 * half
  }

  /** `u64::from_bytes` and `i64::from_bytes`. */
  function U64FromBytes(b: seq<Byte>): (r: nat)
    ensures r < U64_LIMIT
  {
    assert Pow256(8) == U64_LIMIT;
    LeUnsigned(b, 8)
  }

  function I64FromBytes(b: seq<Byte>): (r: int)
    ensures IsI64(r)
  {
    assert Pow256(8) == U64_LIMIT;
    LeSigned(b, 8)
  }

  /** The `width` bytes of `n`, least significant first. */
  function LeBytes(n: nat, width: nat): (b: seq<Byte>)
    ensures |b| == width
  {
    if width == 0 then [] else [n % 256] + LeBytes(n / 256, width - 1)
  }

  /** Reading back the bytes of a value that fits gives the value. */
  lemma {:induction false} LeRoundTrip(n: nat, width: nat)
    requires n < Pow256(width)
    ensures LeUnsigned(LeBytes(n, width), width) == n
  {
    if width > 0 {
      var b := LeBytes(n, width);
      assert b[1..] == LeBytes(n / 256, width - 1);
      assert n / 256 < Pow256(width - 1);
      LeRoundTrip(n / 256, width - 1);
    }
  }

  /** Only the first `width` bytes matter. */
  lemma {:induction false} LeIgnoresTail(b: seq<Byte>, tail: seq<Byte>, width: nat)
    requires |b| >= width
    ensures LeUnsigned(b + tail, width) == LeUnsigned(b, width)
  {
    if width > 0 {
      assert (b + tail)[1..] == b[1..] + tail;
      LeIgnoresTail(b[1..], tail, width - 1);
    }
  }
}

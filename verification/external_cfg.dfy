/** The command line of src/bin/external_cfg.rs: `--outdir` and `--format`
    override the loaded configuration, and the database path picks the
    reader. Reading the YAML file and parsing the arguments are not modelled:
    the loaded configuration and the parsed options are given. */
module ExternalCfg {
  import opened Wrappers
  import opened Text
  import opened Config
  import DoReport

  /** The parsed options of `Cli`. */
  datatype Cli = Cli(cfgPath: string, outdir: Option<string>, format: Option<string>, dbPath: string)

  /** `to_lowercase` restricted to ASCII: only `A`..`Z` change. Rust's
      `to_lowercase` also lowers non-ASCII letters, which this does not
      model; the lowered text is only compared with `json` and `csv`. */
  function LowerChar(c: char): (r: char)
    ensures 'A' <= c <= 'Z' ==> r as int == c as int + 32
    ensures !('A' <= c <= 'Z') ==> r == c
  {
    if 'A' <= c <= 'Z' then (c as int + 32) as char else c
  }

  function ToLower(s: string): (r: string)
    ensures |r| == |s| && forall k :: 0 <= k < |s| ==> r[k] == LowerChar(s[k])
  {
    if s == [] then [] else [LowerChar(s[0])] + ToLower(s[1..])
  }

  /** The `match` on the lowercased option: `json`, `csv`, or a panic. */
  function ParseFormat(text: string): (r: Outcome<OutputFormat>)
    ensures r == Ok(JsonOutput) <==> ToLower(text) == "json"
    ensures r == Ok(CsvOutput) <==> ToLower(text) == "csv"
    ensures r.Panic? <==> ToLower(text) != "json" && ToLower(text) != "csv"
  {
    var t := ToLower(text);
    if t == "json" then Ok(JsonOutput)
    else if t == "csv" then Ok(CsvOutput)
    else Panic
  }

  /** A report file's extension, without its dot, names its format, in
      any capitalisation. */
  lemma ParseFormatNames(f: OutputFormat)
    ensures ParseFormat(DoReport.Extension(f)[1..]) == Ok(f)
    ensures f == JsonOutput ==> ParseFormat("JSON") == Ok(f)
    ensures f == CsvOutput ==> ParseFormat("CSV") == Ok(f)
  {
    assert ToLower("json") == "json" && ToLower("JSON") == "json";
    assert ToLower("csv") == "csv" && ToLower("CSV") == "csv";
  }

  /** `main`'s overrides as written: `--outdir` replaces the output
      directory, and then the `--outdir` value, not `--format`, is parsed as
      the output format. */
  function ApplyCliAsWritten(cfg: ReportsCfg, cli: Cli): (r: Outcome<ReportsCfg>)
    ensures cli.outdir.None? ==> r == Ok(cfg)
  {
    var cfg1 := if cli.outdir.Some? then cfg.(outputDir := cli.outdir.value) else cfg;
    if cli.outdir.Some? then
      match ParseFormat(cli.outdir.value)
      case Ok(f) => Ok(cfg1.(outputFormat := f))
      case Panic => Panic
    else Ok(cfg1)
  }

  /** As written, `--format` is never consulted, and any `--outdir` other
      than `json` or `csv` aborts the program. */
  lemma AsWrittenIgnoresFormat(cfg: ReportsCfg, cli: Cli, other: Option<string>)
    ensures ApplyCliAsWritten(cfg, cli) == ApplyCliAsWritten(cfg, cli.(format := other))
    ensures cli.outdir.Some? ==>
              (ApplyCliAsWritten(cfg, cli).Panic? <==> ParseFormat(cli.outdir.value).Panic?)
  {
  }

  /** The ordinary call `--outdir reports --format csv` aborts as written. */
  lemma OutdirParsedAsFormat(cfg: ReportsCfg, cli: Cli)
    requires cli.outdir == Some("reports") && cli.format == Some("csv")
    ensures ApplyCliAsWritten(cfg, cli).Panic?
    ensures ApplyCli(cfg, cli) == Ok(cfg.(outputDir := "reports", outputFormat := CsvOutput))
  {
    assert ToLower("reports")[0] == 'r';
    assert ToLower("csv") == "csv";
  }

  /** The evident intent: `--outdir` sets the directory and `--format` the
      format, each only when given. */
  function ApplyCli(cfg: ReportsCfg, cli: Cli): (r: Outcome<ReportsCfg>)
    ensures r.Panic? <==> cli.format.Some? && ParseFormat(cli.format.value).Panic?
    ensures r.Ok? ==> && r.value.outputDir == cli.outdir.GetOr(cfg.outputDir)
                      && r.value.outputFormat == (if cli.format.Some? then ParseFormat(cli.format.value).value
                                                  else cfg.outputFormat)
                      && r.value.tableEdb == cfg.tableEdb && r.value.tableSql == cfg.tableSql
                      && r.value.reports == cfg.reports
  {
    var cfg1 := if cli.outdir.Some? then cfg.(outputDir := cli.outdir.value) else cfg;
    if cli.format.Some? then
      match ParseFormat(cli.format.value)
      case Ok(f) => Ok(cfg1.(outputFormat := f))
      case Panic => Panic
    else Ok(cfg1)
  }

  /** Corrected, the output directory never changes the format. */
  lemma ApplyCliOutdirIndependent(cfg: ReportsCfg, cli: Cli, dir: string)
    ensures ApplyCli(cfg, cli).Ok? <==> ApplyCli(cfg, cli.(outdir := Some(dir))).Ok?
    ensures ApplyCli(cfg, cli).Ok? ==>
              ApplyCli(cfg, cli.(outdir := Some(dir))).value.outputFormat == ApplyCli(cfg, cli).value.outputFormat
  {
  }

  // ---------------------------------------------------------------------------
  // The choice of reader

  datatype Reader = EseDatabase | SqliteDatabase | NoReader

  const EDB_NAME := "Windows.edb"
  const SQL_NAME := "Windows.db"

  /** A path ending in `Windows.edb` is read as an ESE database, one ending
      in `Windows.db` as a SQLite database, and any other path is ignored. */
  function ReaderFor(dbPath: string): (r: Reader)
    ensures r == EseDatabase <==> EndsWith(dbPath, EDB_NAME)
    ensures r == SqliteDatabase <==> EndsWith(dbPath, SQL_NAME) && !EndsWith(dbPath, EDB_NAME)
    ensures r == NoReader <==> !EndsWith(dbPath, EDB_NAME) && !EndsWith(dbPath, SQL_NAME)
  {
    if EndsWith(dbPath, EDB_NAME) then EseDatabase
    else if EndsWith(dbPath, SQL_NAME) then SqliteDatabase
    else NoReader
  }
}

/**
 * Configuration bootstrapping: reading a small sample of every data file
 * through a reader chosen by its extension, and writing one configuration
 * document per dataset into the configuration directory.
 */
module ConfigGen {
  import opened Wrappers
  import opened Tables
  import opened Rules
  import opened Paths

  /** The file-format readers: comma-separated text, delimited text, spreadsheet, columnar binary, JSON. */
  datatype Format = Csv | Delimited(separator: char) | Excel | Parquet | Json

  /** How much of the file a reader is asked for: its first rows (`nrows`) or all of it. */
  datatype Extent = FirstRows(n: nat) | WholeFile

  /** The table a reader parsed: its column names and its rows. */
  datatype Frame = Frame(columns: seq<string>, rows: seq<seq<Cell>>)

  /**
   * The file-format readers, as an oracle: given a path, a format and an
   * extent, a reader returns the parsed table or the message of the error
   * it raised.
   */
  type Reader = (string, Format, Extent) -> Result<Frame, string>

  /** The extensions the generator accepts. */
  const SupportedExtensions: seq<string> := [".csv", ".txt", ".xls", ".xlsx", ".parquet", ".json"]

  /** How many rows a configuration sample holds. */
  const SampleRows: nat := 5

  /** `DataFrame.head(n)`: the first `n` rows. */
  function Head(f: Frame, n: nat): (r: Frame)
    ensures r.columns == f.columns
    ensures |r.rows| == if |f.rows| <= n then |f.rows| else n
    ensures r.rows == f.rows[..|r.rows|]
  {
    if |f.rows| <= n then f else Frame(f.columns, f.rows[..n])
  }

  /** The sample kept of a whole-file read: its first `SampleRows` rows, or the read's error. */
  function Sample(read: Result<Frame, string>): Result<Frame, string>
  {
    match read
    case Success(f) => Success(Head(f, SampleRows))
    case Failure(e) => Failure(e)
  }

  /**
   * The guarantee `nrows` gives: whatever the readers return for a request of
   * the file's first `SampleRows` rows has at most that many rows.
   */
  ghost predicate HonoursRowLimit(filePath: string, reader: Reader)
  {
    forall f: Format :: reader(filePath, f, FirstRows(SampleRows)).Success? ==>
      |reader(filePath, f, FirstRows(SampleRows)).value.rows| <= SampleRows
  }

  /** The lower-cased extension of a path, as the generator compares it. */
  function Extension(path: string): string
  {
    Lower(SplitExt(path).1)
  }

  /**
   * The read `read_file` performs before wrapping its errors, or the
   * unsupported-type error. The row-limited reads return the reader's frame
   * as it is; the whole-file reads keep their first rows.
   */
  function Dispatch(filePath: string, reader: Reader): (r: Result<Frame, string>)
    ensures r.Success? ==> Extension(filePath) in SupportedExtensions
  {
    var ext := Extension(filePath);
    if ext == ".csv" then
      reader(filePath, Csv, FirstRows(SampleRows))
    else if ext == ".txt" then
      match reader(filePath, Delimited('\t'), FirstRows(SampleRows))
      case Success(f) => Success(f)
      case Failure(_) => reader(filePath, Delimited('|'), FirstRows(SampleRows))
    else if ext == ".xls" || ext == ".xlsx" then
      reader(filePath, Excel, FirstRows(SampleRows))
    else if ext == ".parquet" then
      Sample(reader(filePath, Parquet, WholeFile))
    else if ext == ".json" then
      Sample(reader(filePath, Json, WholeFile))
    else
      Failure("Unsupported file type: " + ext)
  }

  /** The prefix every error from `read_file` carries. */
  function ReadErrorPrefix(filePath: string): string
  {
    "Error reading " + filePath + ": "
  }

  /**
   * `Config.read_file`: a sample through the reader the extension selects;
   * every failure re-raised with the path in front.
   */
  function ReadFile(filePath: string, reader: Reader): (r: Result<Frame, string>)
    ensures r.Success? ==> Extension(filePath) in SupportedExtensions
    ensures r.Failure? ==> ReadErrorPrefix(filePath) <= r.error
  {
    match Dispatch(filePath, reader)
    case Success(f) => Success(f)
    case Failure(cause) => Failure(ReadErrorPrefix(filePath) + cause)
  }

  /** When the readers honour `nrows`, a successful read holds at most five rows. */
  lemma ReadFileRowBound(filePath: string, reader: Reader)
    requires HonoursRowLimit(filePath, reader)
    ensures ReadFile(filePath, reader).Success? ==> |ReadFile(filePath, reader).value.rows| <= SampleRows
  {
    var ext := Extension(filePath);
    if ext == ".csv" {
      CsvRead(filePath, reader);
    } else if ext == ".txt" {
      TextFallback(filePath, reader);
    } else if ext == ".xls" || ext == ".xlsx" {
      ExcelRead(filePath, reader);
    } else if ext == ".parquet" {
      ParquetRead(filePath, reader);
    } else if ext == ".json" {
      JsonRead(filePath, reader);
    }
  }

  /** An extension outside the six supported ones fails with a message naming it. */
  lemma UnsupportedExtensionFails(filePath: string, reader: Reader)
    requires Extension(filePath) !in SupportedExtensions
    ensures ReadFile(filePath, reader) ==
      Failure(ReadErrorPrefix(filePath) + "Unsupported file type: " + Extension(filePath))
  {
    var ext := Extension(filePath);
    assert ext != ".csv" && ext != ".txt" && ext != ".xls" && ext != ".xlsx" && ext != ".parquet" && ext != ".json" by {
      assert SupportedExtensions == [".csv", ".txt", ".xls", ".xlsx", ".parquet", ".json"];
    }
    assert Dispatch(filePath, reader) == Failure("Unsupported file type: " + ext);
    assert ReadErrorPrefix(filePath) + ("Unsupported file type: " + ext) ==
      ReadErrorPrefix(filePath) + "Unsupported file type: " + ext;
  }

  /** A `.csv` file yields the comma reader's first-rows frame, or its message after the prefix. */
  lemma CsvRead(filePath: string, reader: Reader)
    requires Extension(filePath) == ".csv"
    ensures ReadFile(filePath, reader) ==
      match reader(filePath, Csv, FirstRows(SampleRows))
      case Success(f) => Success(f)
      case Failure(e) => Failure(ReadErrorPrefix(filePath) + e)
  {
    assert Dispatch(filePath, reader) == reader(filePath, Csv, FirstRows(SampleRows));
  }

  /**
   * A `.txt` file is read tab-delimited first; only when that read fails is
   * it read pipe-delimited, and a failure of that second read is the
   * (wrapped) result, with no third attempt.
   */
  lemma TextFallback(filePath: string, reader: Reader)
    requires Extension(filePath) == ".txt"
    ensures reader(filePath, Delimited('\t'), FirstRows(SampleRows)).Success? ==>
      ReadFile(filePath, reader) == reader(filePath, Delimited('\t'), FirstRows(SampleRows))
    ensures reader(filePath, Delimited('\t'), FirstRows(SampleRows)).Failure? ==>
      ReadFile(filePath, reader) ==
        match reader(filePath, Delimited('|'), FirstRows(SampleRows))
        case Success(f) => Success(f)
        case Failure(e) => Failure(ReadErrorPrefix(filePath) + e)
  {
  }

  /** A spreadsheet yields the spreadsheet reader's first-rows frame, or its message after the prefix. */
  lemma ExcelRead(filePath: string, reader: Reader)
    requires Extension(filePath) == ".xls" || Extension(filePath) == ".xlsx"
    ensures ReadFile(filePath, reader) ==
      match reader(filePath, Excel, FirstRows(SampleRows))
      case Success(f) => Success(f)
      case Failure(e) => Failure(ReadErrorPrefix(filePath) + e)
  {
    assert Dispatch(filePath, reader) == reader(filePath, Excel, FirstRows(SampleRows));
  }

  /** A `.parquet` file is read whole and cut to its first five rows; a failure keeps the reader's message. */
  lemma ParquetRead(filePath: string, reader: Reader)
    requires Extension(filePath) == ".parquet"
    ensures ReadFile(filePath, reader) ==
      match reader(filePath, Parquet, WholeFile)
      case Success(f) => Success(Head(f, SampleRows))
      case Failure(e) => Failure(ReadErrorPrefix(filePath) + e)
  {
    assert Dispatch(filePath, reader) == Sample(reader(filePath, Parquet, WholeFile));
  }

  /** A `.json` file is read whole and cut to its first five rows; a failure keeps the reader's message. */
  lemma JsonRead(filePath: string, reader: Reader)
    requires Extension(filePath) == ".json"
    ensures ReadFile(filePath, reader) ==
      match reader(filePath, Json, WholeFile)
      case Success(f) => Success(Head(f, SampleRows))
      case Failure(e) => Failure(ReadErrorPrefix(filePath) + e)
  {
    assert Dispatch(filePath, reader) == Sample(reader(filePath, Json, WholeFile));
  }

  /** Readers that agree on the formats an extension selects give the same result. */
  lemma ReadFileUsesSelectedReader(filePath: string, r1: Reader, r2: Reader)
    requires forall f: Format, x: Extent :: SelectedFormat(Extension(filePath), f) ==> r1(filePath, f, x) == r2(filePath, f, x)
    ensures ReadFile(filePath, r1) == ReadFile(filePath, r2)
  {
    var ext := Extension(filePath);
    assert Dispatch(filePath, r1) == Dispatch(filePath, r2) by {
      if ext == ".csv" {
        assert SelectedFormat(ext, Csv);
      } else if ext == ".txt" {
        assert SelectedFormat(ext, Delimited('\t')) && SelectedFormat(ext, Delimited('|'));
      } else if ext == ".xls" || ext == ".xlsx" {
        assert SelectedFormat(ext, Excel);
      } else if ext == ".parquet" {
        assert SelectedFormat(ext, Parquet);
      } else if ext == ".json" {
        assert SelectedFormat(ext, Json);
      }
    }
  }

  /** The formats a file with extension `ext` can be read with. */
  predicate SelectedFormat(ext: string, f: Format)
  {
    match f
    case Csv => ext == ".csv"
    case Delimited(sep) => ext == ".txt" && (sep == '\t' || sep == '|')
    case Excel => ext == ".xls" || ext == ".xlsx"
    case Parquet => ext == ".parquet"
    case Json => ext == ".json"
  }

  // ---------------------------------------------------------------------------
  // Generated configurations
  // ---------------------------------------------------------------------------

  /** A generated configuration document. */
  datatype DatasetConfig = DatasetConfig(
    datasetName: string,
    columns: seq<(string, seq<string>)>,
    rulesConfig: RulesConfig)

  /** Whether `name` is already a key of the association list. */
  predicate HasKey(entries: seq<(string, seq<string>)>, name: string)
  {
    exists i :: 0 <= i < |entries| && entries[i].0 == name
  }

  /**
   * `{col: ["not_null"] for col in columns}`: one entry per distinct column
   * name, at the place of its first occurrence, each holding `["not_null"]`.
   */
  function DefaultChecks(columns: seq<string>): (entries: seq<(string, seq<string>)>)
    ensures forall i :: 0 <= i < |entries| ==> entries[i].1 == ["not_null"]
    ensures forall i, j :: 0 <= i < j < |entries| ==> entries[i].0 != entries[j].0
    ensures forall name :: HasKey(entries, name) <==> name in columns
  {
    if columns == [] then []
    else
      var init := columns[..|columns| - 1];
      var last := columns[|columns| - 1];
      assert columns == init + [last];
      var entries := DefaultChecks(init);
      if HasKey(entries, last) then entries
      else
        var r := entries + [(last, ["not_null"])];
        assert forall name :: HasKey(r, name) <==> HasKey(entries, name) || name == last by {
          forall name | HasKey(r, name) ensures HasKey(entries, name) || name == last {
            var i :| 0 <= i < |r| && r[i].0 == name;
            if i < |entries| { assert entries[i].0 == name; }
          }
          forall name | HasKey(entries, name) ensures HasKey(r, name) {
            var i :| 0 <= i < |entries| && entries[i].0 == name;
            assert r[i].0 == name;
          }
          assert r[|entries|].0 == last;
        }
        r
  }

  /** The configuration document generated for dataset `datasetName` from its sample. */
  function ConfigFor(datasetName: string, sample: Frame): DatasetConfig
  {
    DatasetConfig(datasetName, DefaultChecks(sample.columns), DefaultRules())
  }

  /**
   * Every generated document is named after its dataset, lists each sampled
   * column once with `["not_null"]`, and carries the same rules block: the
   * email pattern, the age and salary ranges, no allowed values and the ISO
   * date format.
   */
  lemma GeneratedConfigShape(datasetName: string, sample: Frame, otherName: string, other: Frame)
    ensures ConfigFor(datasetName, sample).datasetName == datasetName
    ensures var cols := ConfigFor(datasetName, sample).columns;
      (forall i :: 0 <= i < |cols| ==> cols[i].1 == ["not_null"]) &&
      (forall name :: HasKey(cols, name) <==> name in sample.columns)
    ensures ConfigFor(datasetName, sample).rulesConfig == ConfigFor(otherName, other).rulesConfig
    ensures var r := ConfigFor(datasetName, sample).rulesConfig;
      r.regexPatterns == map["email" := "[^@]+@[^@]+\\.[^@]+"] &&
      r.ranges == map["age" := [18, 100], "salary" := [20000, 500000]] &&
      r.allowedValues == map[] && r.dateFormat == "%Y-%m-%d"
  {
  }

  /** The name of the configuration document of a dataset. */
  function OutputName(datasetName: string): string
  {
    datasetName + "_config.json"
  }

  /**
   * What one listed file contributes: `None` when it is skipped, otherwise
   * the document's file name and content.
   */
  function Planned(dataPath: string, filename: string, reader: Reader): Option<(string, DatasetConfig)>
  {
    if Extension(filename) !in SupportedExtensions then None
    else
      match ReadFile(Join(dataPath, filename), reader)
      case Failure(_) => None
      case Success(df) =>
        var datasetName := SplitExt(filename).0;
        Some((OutputName(datasetName), ConfigFor(datasetName, df)))
  }

  /** The documents a plan yields for a listing, in listing order, the skipped names contributing none. */
  function Collect<D>(listing: seq<string>, plan: string -> Option<D>): (w: seq<D>)
    ensures |w| <= |listing|
  {
    if listing == [] then []
    else
      var init := Collect(listing[..|listing| - 1], plan);
      match plan(listing[|listing| - 1])
      case None => init
      case Some(doc) => init + [doc]
  }

  /** What each listed file contributes, as a function of its name. */
  function PlanOf(dataPath: string, reader: Reader): string -> Option<(string, DatasetConfig)>
  {
    (filename: string) => Planned(dataPath, filename, reader)
  }

  /** The documents written for a directory listing, in listing order. */
  function Writes(dataPath: string, listing: seq<string>, reader: Reader): (w: seq<(string, DatasetConfig)>)
    ensures |w| <= |listing|
  {
    Collect(listing, PlanOf(dataPath, reader))
  }

  /** The configuration directory after the writes, each overwriting any document of the same name. */
  function Store(dir: map<string, DatasetConfig>, writes: seq<(string, DatasetConfig)>): map<string, DatasetConfig>
  {
    if writes == [] then dir
    else
      var last := writes[|writes| - 1];
      Store(dir, writes[..|writes| - 1])[last.0 := last.1]
  }

  /**
   * `Config`: the data directory, the configuration directory and, as a
   * map from file name to document, the configuration directory's contents.
   */
  class Config {
    const dataPath: string
    const configPath: string
    var configDir: map<string, DatasetConfig>

    /** Both directories given explicitly; `existing` is what the configuration directory already holds. */
    constructor (configPath: string, dataPath: string, existing: map<string, DatasetConfig>)
      ensures this.dataPath == dataPath && this.configPath == configPath && configDir == existing
    {
      this.dataPath := dataPath;
      this.configPath := configPath;
      configDir := existing;
    }

    /**
     * `Config.get_config`: for every listed file, skip it when its extension
     * is not supported or it cannot be read, otherwise write its document.
     */
    method GetConfig(listing: seq<string>, reader: Reader)
      modifies this
      ensures configDir == Store(old(configDir), Writes(dataPath, listing, reader))
    {
      for i := 0 to |listing|
        invariant configDir == Store(old(configDir), Writes(dataPath, listing[..i], reader))
      {
        var filename := listing[i];
        var filePath := Join(dataPath, filename);
        var ext := Lower(SplitExt(filename).1);
        if ext !in SupportedExtensions {
          assert Planned(dataPath, filename, reader) == None;
          SkipStep(old(configDir), dataPath, listing, i, reader);
          continue;
        }
        var df := ReadFile(filePath, reader);
        if df.Failure? {
          assert Planned(dataPath, filename, reader) == None;
          SkipStep(old(configDir), dataPath, listing, i, reader);
          continue;
        }
        var datasetName := SplitExt(filename).0;
        var config := ConfigFor(datasetName, df.value);
        assert Planned(dataPath, filename, reader) == Some((OutputName(datasetName), config));
        WriteStep(old(configDir), dataPath, listing, i, reader);
        configDir := configDir[OutputName(datasetName) := config];
      }
      assert listing[..|listing|] == listing;
    }
  }

  /** A skipped file leaves the directory as the files before it left it. */
  lemma SkipStep(dir: map<string, DatasetConfig>, dataPath: string, listing: seq<string>, i: int, reader: Reader)
    requires 0 <= i < |listing|
    requires Planned(dataPath, listing[i], reader).None?
    ensures Store(dir, Writes(dataPath, listing[..i + 1], reader)) == Store(dir, Writes(dataPath, listing[..i], reader))
  {
    WritesStep(dataPath, listing, i, reader);
  }

  /** A file that is kept writes its document over whatever the files before it left. */
  lemma WriteStep(dir: map<string, DatasetConfig>, dataPath: string, listing: seq<string>, i: int, reader: Reader)
    requires 0 <= i < |listing|
    requires Planned(dataPath, listing[i], reader).Some?
    ensures var doc := Planned(dataPath, listing[i], reader).value;
      Store(dir, Writes(dataPath, listing[..i + 1], reader)) == Store(dir, Writes(dataPath, listing[..i], reader))[doc.0 := doc.1]
  {
    WritesStep(dataPath, listing, i, reader);
    StoreStep(dir, Writes(dataPath, listing[..i], reader), Planned(dataPath, listing[i], reader).value);
  }

  /** The last listed file, when it can be read, decides the document of its stem. */
  lemma LastFileDecides(dir: map<string, DatasetConfig>, dataPath: string, listing: seq<string>, reader: Reader)
    requires |listing| > 0 && '/' !in listing[|listing| - 1]
    requires ReadFile(Join(dataPath, listing[|listing| - 1]), reader).Success?
    ensures var last := listing[|listing| - 1];
      var after := Store(dir, Writes(dataPath, listing, reader));
      OutputName(SplitExt(last).0) in after &&
      after[OutputName(SplitExt(last).0)] == ConfigFor(SplitExt(last).0, ReadFile(Join(dataPath, last), reader).value)
  {
    var last := listing[|listing| - 1];
    var stem := SplitExt(last).0;
    var doc := (OutputName(stem), ConfigFor(stem, ReadFile(Join(dataPath, last), reader).value));
    assert PlanOf(dataPath, reader)(last) == Some(doc) by {
      KeptIffReadable(dataPath, last, reader);
    }
    StoreCollectLast(dir, listing, PlanOf(dataPath, reader));
  }

  /** The last name's document, when it has one, is what the directory holds under its name. */
  lemma StoreCollectLast(dir: map<string, DatasetConfig>, listing: seq<string>, plan: string -> Option<(string, DatasetConfig)>)
    requires |listing| > 0 && plan(listing[|listing| - 1]).Some?
    ensures var doc := plan(listing[|listing| - 1]).value;
      doc.0 in Store(dir, Collect(listing, plan)) && Store(dir, Collect(listing, plan))[doc.0] == doc.1
  {
    var i := |listing| - 1;
    CollectStep(listing, i, plan);
    assert listing[..i + 1] == listing;
    StoreStep(dir, Collect(listing[..i], plan), plan(listing[i]).value);
  }

  /** The writes of one more listed file. */
  lemma WritesStep(dataPath: string, listing: seq<string>, i: int, reader: Reader)
    requires 0 <= i < |listing|
    ensures Writes(dataPath, listing[..i + 1], reader) ==
      match Planned(dataPath, listing[i], reader)
      case None => Writes(dataPath, listing[..i], reader)
      case Some(doc) => Writes(dataPath, listing[..i], reader) + [doc]
  {
    CollectStep(listing, i, PlanOf(dataPath, reader));
  }

  /** Collecting over one more name. */
  lemma CollectStep<D>(listing: seq<string>, i: int, plan: string -> Option<D>)
    requires 0 <= i < |listing|
    ensures Collect(listing[..i + 1], plan) ==
      match plan(listing[i])
      case None => Collect(listing[..i], plan)
      case Some(doc) => Collect(listing[..i], plan) + [doc]
  {
    assert listing[..i + 1][..i] == listing[..i];
  }

  /** Collecting over a concatenation concatenates the results. */
  lemma {:induction false} CollectAppend<D>(l1: seq<string>, l2: seq<string>, plan: string -> Option<D>)
    ensures Collect(l1 + l2, plan) == Collect(l1, plan) + Collect(l2, plan)
  {
    if l2 == [] {
      assert l1 + l2 == l1;
    } else {
      var l2' := l2[..|l2| - 1];
      assert (l1 + l2)[..|l1 + l2| - 1] == l1 + l2';
      assert (l1 + l2)[|l1 + l2| - 1] == l2[|l2| - 1];
      CollectAppend(l1, l2', plan);
    }
  }

  /** Storing one more write. */
  lemma StoreStep(dir: map<string, DatasetConfig>, writes: seq<(string, DatasetConfig)>, doc: (string, DatasetConfig))
    ensures Store(dir, writes + [doc]) == Store(dir, writes)[doc.0 := doc.1]
  {
    assert (writes + [doc])[..|writes|] == writes;
  }

  // ---------------------------------------------------------------------------
  // Properties of the batch
  // ---------------------------------------------------------------------------

  /**
   * A listed file (a name without separators) yields a document exactly
   * when `read_file` succeeds on its path: the extension test on the name
   * and the one `read_file` makes on the joined path agree. The document is
   * named after the name with only its final extension removed.
   */
  lemma KeptIffReadable(dataPath: string, filename: string, reader: Reader)
    requires '/' !in filename
    ensures Planned(dataPath, filename, reader).Some? <==> ReadFile(Join(dataPath, filename), reader).Success?
    ensures Planned(dataPath, filename, reader).Some? ==>
      var stem := SplitExt(filename).0;
      stem + SplitExt(filename).1 == filename &&
      Planned(dataPath, filename, reader).value ==
        (stem + "_config.json", ConfigFor(stem, ReadFile(Join(dataPath, filename), reader).value))
  {
    ExtensionOfJoin(dataPath, filename);
  }

  /** Two files write the same document exactly when their names agree once the final extension is removed. */
  lemma SameDocumentIffSameStem(f1: string, f2: string)
    ensures OutputName(SplitExt(f1).0) == OutputName(SplitExt(f2).0) <==> SplitExt(f1).0 == SplitExt(f2).0
  {
    var s1, s2 := SplitExt(f1).0, SplitExt(f2).0;
    if OutputName(s1) == OutputName(s2) {
      assert |s1| == |s2|;
      assert s1 == OutputName(s1)[..|s1|];
      assert s2 == OutputName(s2)[..|s2|];
    }
  }

  /**
   * Skips never abort the batch: the writes of a listing split in two are
   * the writes of the first part followed by those of the second.
   */
  lemma WritesInListingOrder(dataPath: string, l1: seq<string>, l2: seq<string>, reader: Reader)
    ensures Writes(dataPath, l1 + l2, reader) == Writes(dataPath, l1, reader) + Writes(dataPath, l2, reader)
  {
    CollectAppend(l1, l2, PlanOf(dataPath, reader));
  }

  /** The files of the listing that are not skipped. */
  function Kept(dataPath: string, reader: Reader): string -> bool
  {
    (filename: string) => Planned(dataPath, filename, reader).Some?
  }

  /** One document is written per file that is not skipped. */
  lemma {:induction false} WritesOnePerKeptFile(dataPath: string, listing: seq<string>, reader: Reader)
    ensures |Writes(dataPath, listing, reader)| == Count(listing, Kept(dataPath, reader))
  {
    if listing != [] {
      WritesOnePerKeptFile(dataPath, listing[..|listing| - 1], reader);
    }
  }

  /** The generated documents, keyed by file name, with a later write of a name replacing an earlier one. */
  function Written(writes: seq<(string, DatasetConfig)>): map<string, DatasetConfig>
  {
    Store(map[], writes)
  }

  /** The directory after the writes is the old directory overridden by the written documents. */
  lemma {:induction false} StoreOverrides(dir: map<string, DatasetConfig>, writes: seq<(string, DatasetConfig)>)
    ensures Store(dir, writes) == dir + Written(writes)
  {
    if writes != [] {
      var init := writes[..|writes| - 1];
      StoreOverrides(dir, init);
      StoreOverrides(map[], init);
      assert Written(init) == map[] + Written(init);
    }
  }

  /** A name is in the directory afterwards iff it was before or some write has it. */
  lemma {:induction false} StoreDomain(dir: map<string, DatasetConfig>, writes: seq<(string, DatasetConfig)>, name: string)
    ensures name in Store(dir, writes) <==> name in dir || exists i :: 0 <= i < |writes| && writes[i].0 == name
  {
    if writes != [] {
      var init := writes[..|writes| - 1];
      StoreDomain(dir, init, name);
      assert forall i :: 0 <= i < |init| ==> init[i] == writes[i];
    }
  }

  /** The last write of a name decides its content. */
  lemma {:induction false} StoreLastWrite(dir: map<string, DatasetConfig>, writes: seq<(string, DatasetConfig)>, i: int)
    requires 0 <= i < |writes|
    requires forall j :: i < j < |writes| ==> writes[j].0 != writes[i].0
    ensures writes[i].0 in Store(dir, writes) && Store(dir, writes)[writes[i].0] == writes[i].1
  {
    var init := writes[..|writes| - 1];
    if i < |writes| - 1 {
      assert forall j :: i < j < |init| ==> init[j] == writes[j];
      StoreLastWrite(dir, init, i);
      assert init[i] == writes[i];
    }
  }

  /** Names nobody writes keep their old content. */
  lemma {:induction false} StoreUntouched(dir: map<string, DatasetConfig>, writes: seq<(string, DatasetConfig)>, name: string)
    requires forall i :: 0 <= i < |writes| ==> writes[i].0 != name
    ensures name in Store(dir, writes) <==> name in dir
    ensures name in dir ==> Store(dir, writes)[name] == dir[name]
  {
    if writes != [] {
      var init := writes[..|writes| - 1];
      assert forall i :: 0 <= i < |init| ==> init[i] == writes[i];
      StoreUntouched(dir, init, name);
    }
  }

  /** Rerunning the batch on the same listing and readers leaves the directory as one run left it. */
  lemma GetConfigIdempotent(dir: map<string, DatasetConfig>, dataPath: string, listing: seq<string>, reader: Reader)
    ensures var once := Store(dir, Writes(dataPath, listing, reader));
      Store(once, Writes(dataPath, listing, reader)) == once
  {
    var w := Writes(dataPath, listing, reader);
    StoreOverrides(dir, w);
    StoreOverrides(Store(dir, w), w);
    var m := Written(w);
    assert (dir + m) + m == dir + m;
  }
}

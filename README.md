# DQA data-quality engine in Dafny

This project models the data-quality engine of the DQA package. The engine has two parts:

- **Validation** (`DQA/validate.py`).
  - Four counting checks run over one column of a table: `not_null`, `unique`, `range` and `regex`.
  - The driver `run_validations` walks a table's configuration (column → list of check names) in stored order.
  - It collects one `(column, check, failed count)` triple per recognised check.
  - It aborts on the first check that raises: a missing rules entry, a `range` entry that is not a `[min, max]` pair, a missing column, or a string compared with an integer bound.
- **Configuration bootstrapping** (`DQA/config.py`).
  - `Config.read_file` reads a five-row sample of a data file. It picks the reader by the lower-cased extension, falls back from tab to pipe for `.txt`, and wraps every error with the path.
  - `Config.get_config` walks the data directory listing. It skips unsupported or unreadable files and writes one `<dataset>_config.json` document per kept file into the configuration directory. A later document of the same name replaces an earlier one.

Modules:

- `Wrappers`: `Option` and `Result`.
- `Tables`:
  - a table is a map from column name to a column;
  - a column is a sequence of optional integer or string cells;
  - also the generic `Count` and the row selection `Where`.
- `Rules`: the rules block, and the default block that generated configurations carry.
- `Validate`: the checks, the driver as the function `Validations`, and the imperative `RunValidations` proved equal to it.
- `Paths`: `os.path.splitext`, two-argument `os.path.join` and `str.lower`.
- `ConfigGen`: the reader dispatch, the generated documents, and the class `Config`.
  - Its method `GetConfig` updates the configuration directory, held as a map, in a loop with `continue` skips.
  - The method is proved equal to `Store(old directory, Writes(listing))`.
- `Scenarios`: the sample employee table, worked examples, same-stem overwriting, and validating against a generated configuration.

External parts become parameters:

- The file-format readers are an oracle `Reader`. Given a path, a format and an extent (the first `n` rows, as `nrows=n` asks, or the whole file), it returns a frame or the text of the exception it raised.
  - The csv, txt and spreadsheet branches return the reader's frame as it is. Their five-row bound is the reader's `nrows` guarantee, stated as the predicate `HonoursRowLimit`.
  - The parquet and json branches read the whole file and keep its first five rows (`head()`).
- The regular-expression engine is a `Matcher`: `m(pattern, text)` holds when `text` matches `pattern` at its start.
- The directory listing is a sequence of names.

### Where the model follows the code rather than the documented behaviour

- **regex and nulls.** A null value is documented as counting as a failure. The code differs:
  - the mask `~str.match(pattern, na=False)` selects the null row;
  - the trailing `[column].count()` then drops it.
  - So `["a@b.com", "not-an-email", None]` gives 1, not 2, and the sample email column gives 0, not 1, under the default pattern.
  - `RegexRowContribution`, `RegexExample`, `EmailResults` and `EmployeesRun` state this.
- **Same-stem files.** Dataset names are documented as unique within a configuration directory. The code does not enforce this: `a.csv` and `a.json` both write `a_config.json`, and the one listed later wins (`SameStemLaterWins`).
- **The rules block.** The `rules` parameter of `get_config` is never used: every generated document carries the constant block.
- **Group-key order of `unique`.** pandas sorts group keys. The model's `GroupKeys` keeps first-occurrence order. The reported count (a sum over groups) does not depend on the order.

## Model

| member | source | states |
|---|---|---|
| Tables.Where | DQA/validate.py:16 | boolean-mask selection: the result has one row per selected row, and each is a selected row of the column |
| Tables.CountSplit | DQA/validate.py:6 | null and non-null entries together make up the column |
| Tables.NullSum | DQA/validate.py:6 | `isnull().sum()`, the null count; its meaning is stated by `Validate.NotNullCountsNullRows` |
| Tables.NonNullCount | DQA/validate.py:16 | `count()`, the non-null count; `Tables.CountSplit` makes it the complement of the null count |
| Validate.CheckNotNull | DQA/validate.py:5-7 | the null count never exceeds the row count |
| Validate.NotNullCountsNullRows | DQA/validate.py:5-7 | not_null equals the number of null rows; it is 0 iff every entry is present; it plus the non-null count is the row count |
| Validate.GroupKeys | DQA/validate.py:11 | the group keys are exactly the non-null values of the column, each once; null keys form no group |
| Validate.SumOfLargeGroups | DQA/validate.py:11-12 | summing the sizes of the groups larger than one over distinct keys counts the rows lying in such a group |
| Validate.CheckUnique | DQA/validate.py:9-13 | the sum of the sizes of groups larger than one; `Validate.UniqueCountsDuplicateRows` states what it counts |
| Validate.OccursElsewhere | DQA/validate.py:11-12 | a row's value has a group larger than one iff another row holds the same value |
| Validate.UniqueCountsDuplicateRows | DQA/validate.py:9-13 | unique equals the number of rows whose non-null value also occurs in another row: every row of a duplicate group counts, not only the excess |
| Validate.UniqueZeroIffDistinct | DQA/validate.py:9-13 | unique is 0 iff the non-null values are pairwise distinct |
| Validate.UniqueNeverOne | DQA/validate.py:9-13 | unique is never 1 |
| Validate.UniqueAtMostNonNull | DQA/validate.py:9-13 | unique is at most the number of non-null rows |
| Validate.GroupKeysSkipNull | DQA/validate.py:11 | inserting a null row anywhere leaves the group keys unchanged |
| Validate.UniqueIgnoresNulls | DQA/validate.py:11-12 | inserting a null row anywhere leaves unique unchanged |
| Validate.CheckRange | DQA/validate.py:15-17 | the non-null count of the out-of-bounds rows; `Validate.RangeCountsOutOfRangeRows` states which rows |
| Validate.RangeIsMaskCount | DQA/validate.py:16 | the trailing non-null count keeps every row the bounds mask selects |
| Validate.RangeCountsOutOfRangeRows | DQA/validate.py:15-17 | range equals the number of rows whose value is strictly below min or strictly above max, and is at most the non-null count |
| Validate.RangeRowContribution | DQA/validate.py:15-17 | one row adds 0 to range when null or within the inclusive bounds (either bound included) and 1 otherwise |
| Validate.CheckRegex | DQA/validate.py:19-21 | the non-null count of the rows the `~match` mask selects; `Validate.RegexCountsNonMatchingRows` states which rows |
| Validate.RegexCountsNonMatchingRows | DQA/validate.py:19-21 | regex equals the number of present values that do not match at the start, and is at most the non-null count |
| Validate.RegexRowContribution | DQA/validate.py:19-21 | a null row is selected by the mask yet adds 0; a matching value adds 0; a non-matching value adds 1 |
| Validate.RegexAppend | DQA/validate.py:20 | regex of a concatenation is the sum over the parts |
| Validate.RegexSingle | DQA/validate.py:20 | regex of one row is 1 exactly for a present non-matching value; a null row is kept by the selection |
| Validate.CountsAddOverPartitions | DQA/validate.py:5-21 | on a table split into row partitions, not_null and regex of the whole are the sums over the parts for every column, and so is range for every all-integer column |
| Validate.EvalCheck | DQA/validate.py:27-40 | one recognised check's count or error; `Validate.EvalCheckFails` states when it raises |
| Validate.EvalCheckFails | DQA/validate.py:27-40 | a recognised check raises iff its column is missing, or range has no `[min, max]` pair or meets a string, or regex has no pattern |
| Validate.ColumnChecks | DQA/validate.py:26-40 | every pair of a column carries that column and a recognised check name; there are no more pairs than names |
| Validate.ColumnChecksInOrder | DQA/validate.py:26 | a column's checks run in their stored order |
| Validate.Scheduled | DQA/validate.py:25-26 | every scheduled pair carries a recognised check name; `Validate.ScheduledMembers` and `Validate.ScheduledLength` state its contents |
| Validate.ScheduledInOrder | DQA/validate.py:25 | columns run in their stored order |
| Validate.UnknownCheckIgnored | DQA/validate.py:27-40 | an unrecognised check name contributes no pair, wherever it stands |
| Validate.ColumnChecksLength | DQA/validate.py:26-40 | a column contributes one pair per recognised name in its list |
| Validate.ScheduledLength | DQA/validate.py:25-40 | the schedule has one pair per recognised name of the configuration |
| Validate.ColumnChecksMembers | DQA/validate.py:26-40 | a pair is scheduled for a column iff its name is recognised and in that column's list |
| Validate.ScheduledMembers | DQA/validate.py:25-40 | a pair is scheduled iff its name is recognised and listed under that column |
| Validate.RunAll | DQA/validate.py:24-41 | running the pairs in order; `Validate.RunAllOutcome` states its outcome |
| Validate.Validations | DQA/validate.py:23-41 | the result of a run over a configuration; `Validate.RunValidations` computes it |
| Validate.RunAllOutcome | DQA/validate.py:24-41 | a run succeeds iff every scheduled check does; the result then lists each pair with its own count, in order; a failure carries the first failing pair's error |
| Validate.RunAllSucceeds | DQA/validate.py:24-41 | a run succeeds iff every scheduled check succeeds |
| Validate.RunAllResults | DQA/validate.py:24-41 | a successful run has one triple per pair, in order, each with that pair's column, check and count |
| Validate.RunAllFirstFailure | DQA/validate.py:24-41 | a failed run carries the error of a failing pair all of whose predecessors succeed |
| Validate.RunAllFailureSticks | DQA/validate.py:24-41 | once a prefix fails, the whole run fails with the same error and no partial results |
| Validate.MissingParameterAborts | DQA/validate.py:33-39 | range or regex on a column with no rules entry aborts the whole run |
| Validate.RunValidations | DQA/validate.py:23-41 | the nested loops, with the if-chain of the recognised names, return exactly `Validations`: the ordered triples, or the first error raised |
| Paths.LastIndex | DQA/config.py:26 | the last position of a character, with none after it, or -1 |
| Paths.SplitExt | DQA/config.py:26 | root and extension concatenate to the path; the extension is empty or a dot followed by no dot and no separator |
| Paths.SplitExtAt | DQA/config.py:26 | a dot with no dot or separator after it, and a non-dot before it in the final component, is where the extension starts |
| Paths.SplitExtOfParts | DQA/config.py:73 | `stem.suffix`, where the stem has a non-dot in its final component, splits back into stem and `.suffix` |
| Paths.LeadingDotsAreNoExtension | DQA/config.py:61 | a name of leading dots and a dot-free rest has no extension |
| Paths.ExtensionAfterSeparator | DQA/config.py:60-61 | a separator-free name keeps its extension after a prefix ending in a separator |
| Paths.Join | DQA/config.py:60 | an absolute second argument replaces the first; `Paths.JoinRelative` states the relative case |
| Paths.JoinRelative | DQA/config.py:60 | a relative name: the result starts with the directory and ends with the name, and one separator is inserted between them exactly when the directory is non-empty and does not already end in one |
| Paths.ExtensionOfJoin | DQA/config.py:60-61 | a separator-free name has the same extension once joined onto the data directory |
| Paths.Lower | DQA/config.py:26 | lower-casing keeps the length and leaves no ASCII capital |
| Paths.LowerMapsCapitals | DQA/config.py:26 | each ASCII capital becomes its own small letter (code point plus 32), and every other character stays as it is |
| Paths.LowerIdempotent | DQA/config.py:26 | lower-casing twice equals once, and lower-case text is unchanged |
| ConfigGen.Extension | DQA/config.py:26 | the lower-cased `splitext` extension; `Scenarios.UpperCaseExtension` shows `.CSV` compares as `.csv` |
| ConfigGen.Dispatch | DQA/config.py:26-46 | only a supported extension reads successfully; the branch lemmas below state what each one returns |
| ConfigGen.Sample | DQA/config.py:39 | keeps a whole-file read's first five rows and passes its error on; `ConfigGen.ParquetRead` and `ConfigGen.JsonRead` state its effect |
| ConfigGen.Head | DQA/config.py:39 | the first n rows: same columns, the prefix of the rows of length min(n, row count) |
| ConfigGen.ReadFile | DQA/config.py:21-48 | a successful read has a supported extension; every failure starts with `Error reading <path>: ` |
| ConfigGen.ReadFileRowBound | DQA/config.py:29-39 | a successful read has at most 5 rows when the readers honour `nrows` |
| ConfigGen.UnsupportedExtensionFails | DQA/config.py:45-48 | an extension outside the six fails with `Error reading <path>: Unsupported file type: <ext>` |
| ConfigGen.CsvRead | DQA/config.py:29-30 | `.csv` yields the comma reader's first-five-rows frame, or `Error reading <path>: ` followed by that reader's message |
| ConfigGen.ExcelRead | DQA/config.py:36-37 | `.xls` and `.xlsx` yield the spreadsheet reader's first-five-rows frame, or the prefix followed by its message |
| ConfigGen.ParquetRead | DQA/config.py:38-39 | `.parquet` yields the first five rows of the whole-file read, or the prefix followed by the reader's message |
| ConfigGen.JsonRead | DQA/config.py:40-44 | `.json` yields the first five rows of the whole-file read, or the prefix followed by the reader's message |
| ConfigGen.TextFallback | DQA/config.py:31-35 | `.txt` yields the tab reader's frame when it succeeds, and only otherwise the pipe reader's frame or its wrapped message; there is no third attempt |
| ConfigGen.ReadFileUsesSelectedReader | DQA/config.py:29-44 | the result depends only on the readers the extension selects |
| ConfigGen.DefaultChecks | DQA/config.py:76 | one entry per distinct sampled column name, each `["not_null"]`; keys are exactly the sampled names |
| ConfigGen.ConfigFor | DQA/config.py:79-93 | the document of one sample; `ConfigGen.GeneratedConfigShape` states its shape |
| Rules.DefaultRules | DQA/config.py:82-92 | the constant rules block; `ConfigGen.GeneratedConfigShape` states its fields |
| ConfigGen.GeneratedConfigShape | DQA/config.py:73-93 | a document carries its dataset name and the default checks, and every document carries the same constant rules block |
| ConfigGen.OutputName | DQA/config.py:96 | `<dataset>_config.json`; `ConfigGen.SameDocumentIffSameStem` makes it injective on stems |
| ConfigGen.Planned | DQA/config.py:61-96 | what one listed file writes, or nothing; `ConfigGen.KeptIffReadable` states when and what |
| ConfigGen.Collect | DQA/config.py:59-98 | the loop's documents for any per-file plan: at most one per listed file; `ConfigGen.CollectAppend` states the order |
| ConfigGen.Writes | DQA/config.py:59-98 | at most one document per listed file |
| ConfigGen.CollectAppend | DQA/config.py:59-71 | collecting a split listing gives the first part's documents, then the second's |
| ConfigGen.StoreCollectLast | DQA/config.py:96-98 | a document the last listed file produces is in the directory afterwards, with its content |
| ConfigGen.Store | DQA/config.py:96-98 | the directory after a sequence of writes; `ConfigGen.StoreOverrides`, `ConfigGen.StoreDomain`, `ConfigGen.StoreLastWrite` and `ConfigGen.StoreUntouched` state its contents |
| ConfigGen.Config.constructor | DQA/config.py:15-17 | both directories are taken as given, with the existing directory contents |
| ConfigGen.Config.GetConfig | DQA/config.py:50-98 | afterwards the directory is the old one with every document of the listing written in order |
| ConfigGen.SkipStep | DQA/config.py:63-71 | a skipped file leaves the directory as the earlier files left it |
| ConfigGen.WriteStep | DQA/config.py:73-98 | a kept file writes its document over what the earlier files left |
| ConfigGen.LastFileDecides | DQA/config.py:73-98 | when the last listed file can be read, the directory afterwards holds its document under `<stem>_config.json` |
| ConfigGen.KeptIffReadable | DQA/config.py:59-73 | a listed name yields a document iff reading its joined path succeeds; the document is `<stem>_config.json`, built from that read |
| ConfigGen.SameDocumentIffSameStem | DQA/config.py:96 | two files write the same document iff their stems agree |
| ConfigGen.WritesInListingOrder | DQA/config.py:59-71 | skips never abort the batch: a split listing writes the first part's documents, then the second's |
| ConfigGen.WritesOnePerKeptFile | DQA/config.py:59-98 | exactly one document per file that is not skipped |
| ConfigGen.StoreOverrides | DQA/config.py:96-98 | the directory afterwards is the old one overridden by the written documents |
| ConfigGen.StoreDomain | DQA/config.py:96-98 | a name is present afterwards iff it was before or some write has it |
| ConfigGen.StoreLastWrite | DQA/config.py:96-98 | the last write of a name decides its content |
| ConfigGen.StoreUntouched | DQA/config.py:96-98 | names nobody writes keep their presence and content |
| ConfigGen.GetConfigIdempotent | DQA/config.py:59-98 | rerunning the batch on the same listing and readers leaves the directory unchanged |
| Scenarios.IdColumnResults | src/sample_data.py:5 | ids 101, 102, 103, 104, 104: unique 2, not_null 0 |
| Scenarios.EmployeeIdResults | src/sample_data.py:5 | the sample id column: unique 2, not_null 0 |
| Scenarios.EmailColumnResults | src/sample_data.py:8 | five entries with one null and matching values elsewhere: not_null 1, regex 0 |
| Scenarios.EmailResults | src/sample_data.py:8 | the sample email column: not_null 1, and regex 0 under the default pattern |
| Scenarios.EmployeeSchedule | DQA/validate.py:25-26 | the sample configuration schedules not_null and unique on the ids, then regex on the emails |
| Scenarios.SampleShapedRun | DQA/validate.py:23-41 | that schedule yields the three counts in configuration order |
| Scenarios.EmployeesRun | src/sample_data.py:4-11 | validating the sample table yields `(employee_id, not_null, 0)`, `(employee_id, unique, 2)`, `(email, regex, 0)` |
| Scenarios.RangeExample | DQA/validate.py:15-17 | range 18..100 over 17, 18, 100, 101, null is 2 |
| Scenarios.RegexExample | DQA/validate.py:19-21 | regex over a valid address, a malformed string and a null is 1 |
| Scenarios.ThreeOfAKind | DQA/validate.py:9-13 | a value seen three times contributes 3 |
| Scenarios.UniqueIsNotPartitionwise | DQA/validate.py:11-12 | unique of a table is not the sum of unique over its partitions |
| Scenarios.SplitSample | DQA/config.py:73 | a plain `stem.suffix` name has that stem and extension and no separator |
| Scenarios.UpperCaseExtension | DQA/config.py:26 | `stem.CSV` has the extension `.csv` and is supported |
| Scenarios.SameStemLaterWins | DQA/config.py:73-98 | two listed files with the same stem name the same document, and the later one's document is kept once that file can be read |
| Scenarios.CsvAndJsonShareDocument | DQA/config.py:73-96 | `a.csv` and `a.json` share the stem `a` and the document `a_config.json` |
| Scenarios.ScheduledDefaults | DQA/config.py:76 | a generated configuration schedules exactly one not_null per column |
| Scenarios.DefaultPairsSucceed | DQA/validate.py:27-29 | each of those not_null checks succeeds with its column's null count |
| Scenarios.GeneratedConfigRuns | DQA/config.py:76-93 | validating a table that has every sampled column against a generated configuration never fails, and yields one not_null triple per column |

## Left out

- I/O is not modelled: `os.listdir`, `os.makedirs`, `open`, `json.dump` and the `print` logging. The listing is a parameter and the directory is a map.
- The file-format readers and `pd.json_normalize` are not modelled; the readers are an oracle. The `isinstance(df, dict)` branch after `read_json` is left out, because `read_json` never returns a dict.
- The dask/pandas backend (lazy partitions, `.compute()`, dtype inference) is not modelled; columns are evaluated eagerly as sequences.
- The regular-expression engine is not modelled; it is the `Matcher` parameter.
- Validate.CheckRegex: an integer value in a regex column counts as "no match". pandas would instead raise on the `.str` accessor of a non-string column; dtypes are not modelled.
- Validate.CheckRange: requires every present value to be an integer. A string value makes `RunValidations` return `IncomparableValues`, standing for the pandas comparison error. Floats and NaN are not modelled.
- Paths.Lower: maps only ASCII capitals; Unicode case mapping is not modelled.
- Validate.RunValidations: the `table_name` argument is unused, as in the source.
- `Config.__init__` path defaulting (`__file__`-relative paths and `makedirs`) is not modelled; the constructor takes both directories explicitly.
- `DQA/extract.py`, `DQA/report.py` and `DQA/pipeline.py` are not modelled, since they are I/O and orchestration. This includes the pipeline's skip of the reserved `rules_config` key.
- `notebooks/metadata_builder.py` is not modelled; it relies on floats, random sampling, `uuid4` and the clock.
- ConfigGen.ReadFile: the five-row bound is the lemma `ConfigGen.ReadFileRowBound`, stated only under `HonoursRowLimit`, because those branches return the reader's frame as it is and rely on `nrows`.
- The reader oracle does not depend on the configuration directory. If the data and configuration directories were the same, Python could read back a `<stem>_config.json` written earlier in the same run; the model does not capture that.

/**
 * Concrete runs: the sample employee table, the worked examples of the
 * checks, the same-stem overwrite, and what validating with a freshly
 * generated configuration yields.
 */
module Scenarios {
  import opened Wrappers
  import opened Tables
  import opened Rules
  import opened Paths
  import opened Validate
  import opened ConfigGen

  // ---------------------------------------------------------------------------
  // The sample employee table
  // ---------------------------------------------------------------------------

  function EmployeeIds(): Column
  {
    [Some(Int(101)), Some(Int(102)), Some(Int(103)), Some(Int(104)), Some(Int(104))]
  }

  function Emails(): Column
  {
    [Some(Str("alice@company.com")), Some(Str("bob@company.com")), None,
     Some(Str("david@company.com")), Some(Str("david@company.com"))]
  }

  function Employees(): Table
  {
    map["employee_id" := EmployeeIds(), "email" := Emails()]
  }

  /** The default pattern for the email column. */
  function EmailPattern(): string
  {
    DefaultRules().regexPatterns["email"]
  }

  /** A column of five ids, the last two equal: unique is 2 and nothing is null. */
  lemma IdColumnResults(col: Column)
    requires |col| == 5
    requires col[0] == Some(Int(101)) && col[1] == Some(Int(102)) && col[2] == Some(Int(103))
    requires col[3] == Some(Int(104)) && col[4] == Some(Int(104))
    ensures CheckUnique(col) == 2
    ensures CheckNotNull(col) == 0
  {
    UniqueCountsDuplicateRows(col);
    var d := DuplicateRows(col);
    assert 3 in d by { assert col[4] == col[3]; }
    assert 4 in d by { assert col[3] == col[4]; }
    forall i | i in d ensures i == 3 || i == 4 {
      var j :| 0 <= j < |col| && j != i && col[j] == col[i];
    }
    assert d == {3, 4};
    NotNullCountsNullRows(col);
  }

  /** The sample table's id column: unique is 2 (both rows of 104) and not_null is 0. */
  lemma EmployeeIdResults()
    ensures CheckUnique(EmployeeIds()) == 2
    ensures CheckNotNull(EmployeeIds()) == 0
  {
    IdColumnResults(EmployeeIds());
  }

  /** A column of five entries whose only null is the third and whose other entries all match. */
  lemma EmailColumnResults(col: Column, m: Matcher, pattern: string)
    requires |col| == 5 && col[2] == None
    requires forall i :: 0 <= i < 5 && i != 2 ==> col[i].Some? && MatchesAtStart(m, pattern, col[i].value)
    ensures CheckNotNull(col) == 1
    ensures CheckRegex(col, pattern, m) == 0
  {
    NotNullCountsNullRows(col);
    assert NullRows(col) == {2};
    RegexCountsNonMatchingRows(col, pattern, m);
    assert NonMatchingRows(col, pattern, m) == {};
  }

  /**
   * The sample table's email column: not_null is 1, and, for any engine
   * under which the default pattern matches the three addresses, regex is
   * 0: the null row is not counted.
   */
  lemma EmailResults(m: Matcher)
    requires m(EmailPattern(), "alice@company.com") && m(EmailPattern(), "bob@company.com")
    requires m(EmailPattern(), "david@company.com")
    ensures CheckNotNull(Emails()) == 1
    ensures CheckRegex(Emails(), EmailPattern(), m) == 0
  {
    EmailColumnResults(Emails(), m, EmailPattern());
  }

  /** The sample run: ids not null and unique, email against the default pattern. */
  function EmployeeRules(): TableRules
  {
    [("employee_id", ["not_null", "unique"]), ("email", ["regex"])]
  }

  /** The pairs the sample configuration schedules, in configuration order. */
  lemma EmployeeSchedule()
    ensures Scheduled(EmployeeRules()) ==
      [("employee_id", "not_null"), ("employee_id", "unique"), ("email", "regex")]
  {
    var tr := EmployeeRules();
    assert tr[..1][..0] == [];
    assert tr[..1] == [("employee_id", ["not_null", "unique"])];
    var ids: seq<string> := ["not_null", "unique"];
    assert ids[..1][..0] == [] && ids[..1] == ["not_null"];
    assert ColumnChecks("employee_id", ids) == [("employee_id", "not_null"), ("employee_id", "unique")];
    var em: seq<string> := ["regex"];
    assert em[..0] == [];
    assert ColumnChecks("email", em) == [("email", "regex")];
  }

  /**
   * A run whose schedule is not_null and unique on the ids, then regex on
   * the emails, lists the three counts in that order.
   */
  lemma SampleShapedRun(t: Table, pairs: seq<(string, string)>, rules: RulesConfig, m: Matcher)
    requires |pairs| == 3 && pairs[0] == ("employee_id", "not_null")
    requires pairs[1] == ("employee_id", "unique") && pairs[2] == ("email", "regex")
    requires "employee_id" in t && CheckNotNull(t["employee_id"]) == 0 && CheckUnique(t["employee_id"]) == 2
    requires "email" in t && "email" in rules.regexPatterns
    requires CheckRegex(t["email"], rules.regexPatterns["email"], m) == 0
    ensures RunAll(t, pairs, rules, m) ==
      Success([CheckResult("employee_id", "not_null", 0),
               CheckResult("employee_id", "unique", 2),
               CheckResult("email", "regex", 0)])
  {
    assert EvalCheck(t, pairs[0].0, pairs[0].1, rules, m) == Success(0);
    assert EvalCheck(t, pairs[1].0, pairs[1].1, rules, m) == Success(2);
    assert EvalCheck(t, pairs[2].0, pairs[2].1, rules, m) == Success(0);
    RunAllOutcome(t, pairs, rules, m);
    var res := RunAll(t, pairs, rules, m).value;
    assert |res| == 3 && res[0] == CheckResult("employee_id", "not_null", 0);
    assert res[1] == CheckResult("employee_id", "unique", 2) && res[2] == CheckResult("email", "regex", 0);
    assert res == [res[0], res[1], res[2]];
  }

  /** Running the sample configuration on the sample table yields 0, 2 and 0, in configuration order. */
  lemma EmployeesRun(m: Matcher)
    requires m(EmailPattern(), "alice@company.com") && m(EmailPattern(), "bob@company.com")
    requires m(EmailPattern(), "david@company.com")
    ensures Validations(Employees(), EmployeeRules(), DefaultRules(), m) ==
      Success([CheckResult("employee_id", "not_null", 0),
               CheckResult("employee_id", "unique", 2),
               CheckResult("email", "regex", 0)])
  {
    EmployeeSchedule();
    EmployeeIdResults();
    EmailResults(m);
    SampleShapedRun(Employees(), Scheduled(EmployeeRules()), DefaultRules(), m);
  }

  // ---------------------------------------------------------------------------
  // Worked examples of the checks
  // ---------------------------------------------------------------------------

  /** Range 18..100 over 17, 18, 100, 101 and a null counts 17 and 101 only. */
  lemma RangeExample(col: Column)
    requires col == [Some(Int(17)), Some(Int(18)), Some(Int(100)), Some(Int(101)), None]
    ensures AllIntegers(col) && CheckRange(col, 18, 100) == 2
  {
    RangeCountsOutOfRangeRows(col, 18, 100);
    assert OutOfRangeRows(col, 18, 100) == {0, 3};
  }

  /**
   * Regex over a valid address, a malformed string and a null counts only
   * the malformed string: the null is selected by the mask but dropped by
   * the non-null count.
   */
  lemma RegexExample(col: Column, m: Matcher, pattern: string)
    requires col == [Some(Str("a@b.com")), Some(Str("not-an-email")), None]
    requires m(pattern, "a@b.com") && !m(pattern, "not-an-email")
    ensures CheckRegex(col, pattern, m) == 1
  {
    RegexCountsNonMatchingRows(col, pattern, m);
    assert NonMatchingRows(col, pattern, m) == {1};
  }

  /** A value occurring three times among otherwise distinct values contributes 3, not 2. */
  lemma ThreeOfAKind(col: Column)
    requires |col| == 5
    requires col[0] == Some(Int(101)) && col[1] == Some(Int(104)) && col[2] == Some(Int(104))
    requires col[3] == Some(Int(104)) && col[4] == Some(Int(102))
    ensures CheckUnique(col) == 3
  {
    UniqueCountsDuplicateRows(col);
    var d := DuplicateRows(col);
    assert 1 in d by { assert col[2] == col[1]; }
    assert 2 in d by { assert col[1] == col[2]; }
    assert 3 in d by { assert col[1] == col[3]; }
    forall i | i in d ensures 1 <= i <= 3 {
      var j :| 0 <= j < |col| && j != i && col[j] == col[i];
    }
    assert d == {1, 2, 3};
  }

  /** A column split into partitions: unique of the whole is not the sum over the parts. */
  lemma UniqueIsNotPartitionwise()
    ensures CheckUnique([Some(Int(7))] + [Some(Int(7))]) == 2
    ensures CheckUnique([Some(Int(7))]) == 0
  {
    var both: Column := [Some(Int(7))] + [Some(Int(7))];
    UniqueCountsDuplicateRows(both);
    assert both[1] == both[0];
    assert 0 in DuplicateRows(both) && 1 in DuplicateRows(both);
    assert DuplicateRows(both) == {0, 1};
    UniqueZeroIffDistinct([Some(Int(7))]);
  }

  // ---------------------------------------------------------------------------
  // Configuration generation
  // ---------------------------------------------------------------------------

  /** A name `stem.suffix` whose stem has no separator and does not start with a dot. */
  lemma SplitSample(name: string, stem: string, suffix: string)
    requires |stem| > 0 && '/' !in stem && stem[0] != '.'
    requires '.' !in suffix && '/' !in suffix
    requires name == stem + "." + suffix
    ensures '/' !in name
    ensures SplitExt(name) == (stem, "." + suffix)
  {
    LastIndexAbsent(stem, '/');
    assert -1 < 0 < |stem| && stem[0] != '.';
    SplitExtOfParts(stem, suffix);
  }

  /** Extensions are compared lower-cased: `stem.CSV` is read as comma-separated text. */
  lemma UpperCaseExtension(name: string, stem: string)
    requires |stem| > 0 && '/' !in stem && stem[0] != '.'
    requires name == stem + ".CSV"
    ensures Extension(name) == ".csv"
    ensures Extension(name) in SupportedExtensions
  {
    assert name == stem + "." + "CSV";
    SplitSample(name, stem, "CSV");
    var e := Lower(".CSV");
    LowerMapsCapitals(".CSV");
    assert e[0] == '.' && e[1] == 'c' && e[2] == 's' && e[3] == 'v';
    assert e == ".csv";
  }

  /**
   * Two listed files with the same stem, say `a.csv` and then `a.json`,
   * both write the stem's document; when the later one can be read, the
   * document left is the one built from it, whatever became of the first.
   */
  lemma SameStemLaterWins(dir: map<string, DatasetConfig>, dataPath: string, listing: seq<string>, reader: Reader)
    requires |listing| == 2 && '/' !in listing[0] && '/' !in listing[1]
    requires SplitExt(listing[0]).0 == SplitExt(listing[1]).0
    requires ReadFile(Join(dataPath, listing[1]), reader).Success?
    ensures var name := OutputName(SplitExt(listing[1]).0);
      var after := Store(dir, Writes(dataPath, listing, reader));
      OutputName(SplitExt(listing[0]).0) == name &&
      name in after && after[name] == ConfigFor(SplitExt(listing[1]).0, ReadFile(Join(dataPath, listing[1]), reader).value)
  {
    LastFileDecides(dir, dataPath, listing, reader);
  }

  /**
   * `a.csv` and `a.json` have the same stem, both naming `a_config.json`,
   * so in the listing `a.csv`, `a.json` the JSON file's document is the one
   * kept (`SameStemLaterWins`).
   */
  lemma CsvAndJsonShareDocument(listing: seq<string>)
    requires |listing| == 2 && listing[0] == "a.csv" && listing[1] == "a.json"
    ensures '/' !in listing[0] && '/' !in listing[1]
    ensures SplitExt(listing[0]).0 == SplitExt(listing[1]).0 == "a"
    ensures OutputName(SplitExt(listing[1]).0) == "a_config.json"
  {
    SplitSample(listing[0], "a", "csv");
    SplitSample(listing[1], "a", "json");
  }

  /** The pairs a generated configuration schedules: `not_null` once per column. */
  lemma {:induction false} ScheduledDefaults(entries: seq<(string, seq<string>)>)
    requires forall i :: 0 <= i < |entries| ==> entries[i].1 == ["not_null"]
    ensures Scheduled(entries) == seq(|entries|, i requires 0 <= i < |entries| => (entries[i].0, "not_null"))
  {
    if entries != [] {
      var init := entries[..|entries| - 1];
      ScheduledDefaults(init);
      var one: seq<string> := ["not_null"];
      assert one[..0] == [];
    }
  }

  /** Each scheduled `not_null` of a generated configuration succeeds with its column's null count. */
  lemma DefaultPairsSucceed(t: Table, cols: seq<(string, seq<string>)>, rules: RulesConfig, m: Matcher)
    requires forall i :: 0 <= i < |cols| ==> cols[i].1 == ["not_null"] && cols[i].0 in t
    ensures var pairs := Scheduled(cols);
      |pairs| == |cols| &&
      forall i :: 0 <= i < |pairs| ==>
        pairs[i] == (cols[i].0, "not_null") &&
        EvalCheck(t, pairs[i].0, pairs[i].1, rules, m) == Success(CheckNotNull(t[cols[i].0]))
  {
    ScheduledDefaults(cols);
  }

  /**
   * Validating a table that has every sampled column against a freshly
   * generated configuration never fails: it yields one `not_null` result
   * per distinct column, with that column's null count.
   */
  lemma GeneratedConfigRuns(t: Table, datasetName: string, sample: Frame, m: Matcher)
    requires forall c :: c in sample.columns ==> c in t
    ensures var config := ConfigFor(datasetName, sample);
      var cols := config.columns;
      Validations(t, cols, config.rulesConfig, m) ==
        Success(seq(|cols|, i requires 0 <= i < |cols| =>
          CheckResult(cols[i].0, "not_null", CheckNotNull(t[cols[i].0]))))
  {
    var config := ConfigFor(datasetName, sample);
    var cols := config.columns;
    forall i | 0 <= i < |cols| ensures cols[i].0 in t {
      assert HasKey(cols, cols[i].0);
    }
    DefaultPairsSucceed(t, cols, config.rulesConfig, m);
    var pairs := Scheduled(cols);
    RunAllOutcome(t, pairs, config.rulesConfig, m);
    var res := RunAll(t, pairs, config.rulesConfig, m).value;
    assert res == seq(|cols|, i requires 0 <= i < |cols| => CheckResult(cols[i].0, "not_null", CheckNotNull(t[cols[i].0])));
  }
}

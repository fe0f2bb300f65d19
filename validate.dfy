/**
 * The four counting checks and the driver that runs a table's configured
 * checks in order, collecting one `(column, check, failed count)` triple per
 * recognised check and aborting the whole run on the first lookup failure.
 */
module Validate {
  import opened Wrappers
  import opened Tables
  import opened Rules

  /**
   * The regular-expression engine: `m(pattern, text)` holds when `text`
   * matches `pattern` at its start. The model does not interpret patterns.
   */
  type Matcher = (string, string) -> bool

  // ---------------------------------------------------------------------------
  // not_null
  // ---------------------------------------------------------------------------

  /** `check_not_null`: the number of null entries of the column. */
  function CheckNotNull(col: Column): (r: nat)
    ensures r <= |col|
  {
    NullSum(col)
  }

  /** The rows whose entry is null. */
  ghost function NullRows(col: Column): set<int>
  {
    set i | 0 <= i < |col| && col[i].None?
  }

  /** not_null counts exactly the null rows: zero iff there is none, and nulls and non-nulls make up the column. */
  lemma NotNullCountsNullRows(col: Column)
    ensures CheckNotNull(col) == |NullRows(col)|
    ensures CheckNotNull(col) == 0 <==> forall i :: 0 <= i < |col| ==> col[i].Some?
    ensures CheckNotNull(col) + NonNullCount(col) == |col|
  {
    CountIsCard(col, IsNull);
    assert Positions(col, IsNull) == NullRows(col);
    CountZero(col, IsNull);
    CountSplit(col);
  }

  // ---------------------------------------------------------------------------
  // unique
  // ---------------------------------------------------------------------------

  /** The cells that hold the value `v`. */
  function Holds(v: Value): Cell -> bool
  {
    (c: Cell) => c == Some(v)
  }

  /** The number of rows holding the value `v`: the size of `v`'s group. */
  function Occurrences(col: Column, v: Value): nat
  {
    Count(col, Holds(v))
  }

  /**
   * The group keys of `groupby(column)`: the distinct non-null values, in
   * order of first occurrence. Null entries form no group.
   */
  function GroupKeys(col: Column): (keys: seq<Value>)
    ensures forall v :: v in keys <==> Some(v) in col
    ensures forall i, j :: 0 <= i < j < |keys| ==> keys[i] != keys[j]
  {
    if col == [] then []
    else
      var init := col[..|col| - 1];
      var last := col[|col| - 1];
      assert col == init + [last];
      var keys := GroupKeys(init);
      if last.Some? && last.value !in keys then keys + [last.value] else keys
  }

  /** One `(key, group size)` entry per key. */
  function Groups(col: Column, keys: seq<Value>): (groups: seq<(Value, nat)>)
  {
    seq(|keys|, i requires 0 <= i < |keys| => (keys[i], Occurrences(col, keys[i])))
  }

  /** `groupby(column)[column].count()`: the size of every group. */
  function GroupCounts(col: Column): seq<(Value, nat)>
  {
    Groups(col, GroupKeys(col))
  }

  /** `counts[counts > 1].sum()`: the total size of the groups larger than one. */
  function SumAboveOne(groups: seq<(Value, nat)>): nat
  {
    if groups == [] then 0
    else
      var last := groups[|groups| - 1];
      SumAboveOne(groups[..|groups| - 1]) + (if last.1 > 1 then last.1 else 0)
  }

  /** `check_unique`: the number of rows that belong to a group of two or more equal values. */
  function CheckUnique(col: Column): nat
  {
    SumAboveOne(GroupCounts(col))
  }

  /** The rows whose non-null value also occurs in another row. */
  ghost function DuplicateRows(col: Column): set<int>
  {
    set i | 0 <= i < |col| && col[i].Some? && exists j :: 0 <= j < |col| && j != i && col[j] == col[i]
  }

  /** The cells holding a value of `keys` whose group has two or more rows. */
  function InLargeGroup(col: Column, keys: seq<Value>): Cell -> bool
  {
    (c: Cell) => c.Some? && c.value in keys && Occurrences(col, c.value) > 1
  }

  /** The cells holding `k`, when `k`'s group has two or more rows. */
  function InLargeGroupOf(col: Column, k: Value): Cell -> bool
  {
    (c: Cell) => c == Some(k) && Occurrences(col, k) > 1
  }

  /** The cells whose value occurs in two or more rows. */
  function Duplicated(col: Column): Cell -> bool
  {
    (c: Cell) => c.Some? && Occurrences(col, c.value) > 1
  }

  /** Summing the large groups of distinct keys counts the rows that lie in one of them. */
  lemma {:induction false} SumOfLargeGroups(col: Column, keys: seq<Value>)
    requires forall i, j :: 0 <= i < j < |keys| ==> keys[i] != keys[j]
    ensures SumAboveOne(Groups(col, keys)) == Count(col, InLargeGroup(col, keys))
  {
    if keys == [] {
      CountZero(col, InLargeGroup(col, keys));
    } else {
      var ks := keys[..|keys| - 1];
      var k := keys[|keys| - 1];
      assert keys == ks + [k];
      assert Groups(col, keys)[..|keys| - 1] == Groups(col, ks);
      SumOfLargeGroups(col, ks);
      assert k !in ks;
      CountDisjoint(col, InLargeGroup(col, ks), InLargeGroupOf(col, k), InLargeGroup(col, keys));
      if Occurrences(col, k) > 1 {
        CountAgree(col, InLargeGroupOf(col, k), Holds(k));
      } else {
        CountZero(col, InLargeGroupOf(col, k));
      }
    }
  }

  /** A set that contains two distinct elements has at least two elements. */
  lemma TwoInSet(s: set<int>, i: int, j: int)
    requires i in s && j in s && i != j
    ensures |s| >= 2
  {
    var pair := {i, j};
    assert s == pair + (s - pair);
    assert pair * (s - pair) == {};
  }

  /** A subset has no more elements than its superset. */
  lemma SubsetCard(a: set<int>, b: set<int>)
    requires a <= b
    ensures |a| <= |b|
  {
    assert b == a + (b - a);
    assert a * (b - a) == {};
  }

  /** A row's value has a group larger than one exactly when another row holds the same value. */
  lemma OccursElsewhere(col: Column, i: int)
    requires 0 <= i < |col| && col[i].Some?
    ensures Occurrences(col, col[i].value) > 1 <==> exists j :: 0 <= j < |col| && j != i && col[j] == col[i]
  {
    var v := col[i].value;
    CountIsCard(col, Holds(v));
    var s := Positions(col, Holds(v));
    assert i in s;
    if exists j :: 0 <= j < |col| && j != i && col[j] == col[i] {
      var j :| 0 <= j < |col| && j != i && col[j] == col[i];
      assert j in s;
      TwoInSet(s, i, j);
    } else {
      assert s == {i};
    }
  }

  /** unique counts every row of every duplicate group, not only the rows beyond the first. */
  lemma UniqueCountsDuplicateRows(col: Column)
    ensures CheckUnique(col) == |DuplicateRows(col)|
  {
    var keys := GroupKeys(col);
    SumOfLargeGroups(col, keys);
    forall i | 0 <= i < |col|
      ensures InLargeGroup(col, keys)(col[i]) == Duplicated(col)(col[i])
    {
      if col[i].Some? {
        assert col[i].value in keys;
      }
    }
    CountAgree(col, InLargeGroup(col, keys), Duplicated(col));
    CountIsCard(col, Duplicated(col));
    forall i | 0 <= i < |col| && col[i].Some? {
      OccursElsewhere(col, i);
    }
    assert Positions(col, Duplicated(col)) == DuplicateRows(col);
  }

  /** unique is zero exactly when the non-null values are pairwise distinct. */
  lemma UniqueZeroIffDistinct(col: Column)
    ensures CheckUnique(col) == 0 <==>
      forall i, j :: 0 <= i < j < |col| && col[i].Some? ==> col[i] != col[j]
  {
    UniqueCountsDuplicateRows(col);
    if CheckUnique(col) == 0 {
      forall i, j | 0 <= i < j < |col| && col[i].Some?
        ensures col[i] != col[j]
      {
        assert col[i] == col[j] ==> i in DuplicateRows(col);
      }
    } else {
      var i :| i in DuplicateRows(col);
      var j :| 0 <= j < |col| && j != i && col[j] == col[i];
      if i < j {
        assert col[i].Some? && col[i] == col[j];
      } else {
        assert col[j].Some? && col[j] == col[i];
      }
    }
  }

  /** A duplicate group has at least two rows, so unique is never one. */
  lemma UniqueNeverOne(col: Column)
    ensures CheckUnique(col) != 1
  {
    UniqueCountsDuplicateRows(col);
    var d := DuplicateRows(col);
    if |d| == 1 {
      var i :| i in d;
      var j :| 0 <= j < |col| && j != i && col[j] == col[i];
      assert j in d;
      TwoInSet(d, i, j);
    }
  }

  /** unique never exceeds the number of non-null rows. */
  lemma UniqueAtMostNonNull(col: Column)
    ensures CheckUnique(col) <= NonNullCount(col)
  {
    UniqueCountsDuplicateRows(col);
    CountIsCard(col, IsPresent);
    SubsetCard(DuplicateRows(col), Positions(col, IsPresent));
  }

  /** A null row forms no group and leaves the group keys unchanged. */
  lemma {:induction false} GroupKeysSkipNull(a: Column, b: Column)
    ensures GroupKeys(a + [None] + b) == GroupKeys(a + b)
  {
    if b == [] {
      assert a + [None] + b == a + [None];
      assert (a + [None])[..|a|] == a;
      assert a + b == a;
    } else {
      var b' := b[..|b| - 1];
      var x := b[|b| - 1];
      assert a + [None] + b == (a + [None] + b') + [x];
      assert (a + [None] + b)[..|a + [None] + b| - 1] == a + [None] + b';
      assert a + b == (a + b') + [x];
      assert (a + b)[..|a + b| - 1] == a + b';
      GroupKeysSkipNull(a, b');
    }
  }

  /** Null entries never contribute to unique: removing a null row leaves it unchanged. */
  lemma UniqueIgnoresNulls(a: Column, b: Column)
    ensures CheckUnique(a + [None] + b) == CheckUnique(a + b)
  {
    GroupKeysSkipNull(a, b);
    forall v: Value
      ensures Occurrences(a + [None] + b, v) == Occurrences(a + b, v)
    {
      CountAppend(a + [None], b, Holds(v));
      CountAppend(a, [None], Holds(v));
      CountAppend(a, b, Holds(v));
      assert Count([None], Holds(v)) == 0 by {
        var one: Column := [None];
        assert one[..0] == [];
      }
    }
    assert GroupCounts(a + [None] + b) == GroupCounts(a + b);
  }

  // ---------------------------------------------------------------------------
  // range
  // ---------------------------------------------------------------------------

  /** Every non-null entry is an integer, so comparing it with a bound cannot raise. */
  predicate AllIntegers(col: Column)
  {
    forall i :: 0 <= i < |col| && col[i].Some? ==> col[i].value.Int?
  }

  /** The mask `(column < lo) | (column > hi)`; a null compares false. */
  function OutsideBounds(lo: int, hi: int): Cell -> bool
  {
    (c: Cell) => c.Some? && c.value.Int? && (c.value.n < lo || c.value.n > hi)
  }

  /** `check_range`: the number of non-null rows selected by the bounds mask. */
  function CheckRange(col: Column, lo: int, hi: int): nat
    requires AllIntegers(col)
  {
    NonNullCount(Where(col, OutsideBounds(lo, hi)))
  }

  /** The rows whose value lies strictly below `lo` or strictly above `hi`. */
  ghost function OutOfRangeRows(col: Column, lo: int, hi: int): set<int>
  {
    set i | 0 <= i < |col| && col[i].Some? && col[i].value.Int? && (col[i].value.n < lo || col[i].value.n > hi)
  }

  /** The selection keeps only non-null rows, so range counts the rows the mask selects. */
  lemma RangeIsMaskCount(col: Column, lo: int, hi: int)
    requires AllIntegers(col)
    ensures CheckRange(col, lo, hi) == Count(col, OutsideBounds(lo, hi))
  {
    WhereCount(col, OutsideBounds(lo, hi), IsPresent, OutsideBounds(lo, hi));
  }

  /** range counts exactly the out-of-bounds rows, and no more than the non-null rows. */
  lemma RangeCountsOutOfRangeRows(col: Column, lo: int, hi: int)
    requires AllIntegers(col)
    ensures CheckRange(col, lo, hi) == |OutOfRangeRows(col, lo, hi)|
    ensures CheckRange(col, lo, hi) <= NonNullCount(col)
  {
    RangeIsMaskCount(col, lo, hi);
    CountIsCard(col, OutsideBounds(lo, hi));
    assert Positions(col, OutsideBounds(lo, hi)) == OutOfRangeRows(col, lo, hi);
    CountMono(col, OutsideBounds(lo, hi), IsPresent);
  }

  /**
   * What one row adds to range: nothing when it is null or lies within the
   * inclusive bounds (a value equal to either bound included), one otherwise.
   */
  lemma RangeRowContribution(a: Column, x: Cell, b: Column, lo: int, hi: int)
    requires AllIntegers(a + [x] + b)
    ensures AllIntegers(a + b)
    ensures x.Some? ==> x.value.Int?
    ensures x.None? ==> CheckRange(a + [x] + b, lo, hi) == CheckRange(a + b, lo, hi)
    ensures x.Some? && x.value.Int? && lo <= x.value.n <= hi ==> CheckRange(a + [x] + b, lo, hi) == CheckRange(a + b, lo, hi)
    ensures x.Some? && x.value.Int? && (x.value.n < lo || x.value.n > hi) ==> CheckRange(a + [x] + b, lo, hi) == CheckRange(a + b, lo, hi) + 1
  {
    var s := a + [x] + b;
    assert forall i :: 0 <= i < |a| ==> (a + b)[i] == s[i];
    assert forall i :: |a| <= i < |a + b| ==> (a + b)[i] == s[i + 1];
    assert x == s[|a|];
    RangeIsMaskCount(s, lo, hi);
    RangeIsMaskCount(a + b, lo, hi);
    CountAppend(a + [x], b, OutsideBounds(lo, hi));
    CountAppend(a, [x], OutsideBounds(lo, hi));
    CountAppend(a, b, OutsideBounds(lo, hi));
    assert [x][..0] == [];
  }

  // ---------------------------------------------------------------------------
  // regex
  // ---------------------------------------------------------------------------

  /**
   * `str.match(pattern)` on one value. A non-string entry has no string to
   * match and `na=False` turns its result into "no match".
   */
  predicate MatchesAtStart(m: Matcher, pattern: string, v: Value)
  {
    v.Str? && m(pattern, v.s)
  }

  /** The mask `~column.str.match(pattern, na=False)`: a null cell is selected. */
  function FailsPattern(m: Matcher, pattern: string): Cell -> bool
  {
    (c: Cell) => !(c.Some? && MatchesAtStart(m, pattern, c.value))
  }

  /** `check_regex`: the number of non-null rows among those the mask selects. */
  function CheckRegex(col: Column, pattern: string, m: Matcher): nat
  {
    NonNullCount(Where(col, FailsPattern(m, pattern)))
  }

  /** The rows with a non-null value that does not match the pattern at its start. */
  ghost function NonMatchingRows(col: Column, pattern: string, m: Matcher): set<int>
  {
    set i | 0 <= i < |col| && col[i].Some? && !MatchesAtStart(m, pattern, col[i].value)
  }

  /** The non-null cells that fail the pattern. */
  function PresentAndFailing(m: Matcher, pattern: string): Cell -> bool
  {
    (c: Cell) => c.Some? && !MatchesAtStart(m, pattern, c.value)
  }

  /** regex counts the present values that fail the pattern, and no more than the non-null rows. */
  lemma RegexCountsNonMatchingRows(col: Column, pattern: string, m: Matcher)
    ensures CheckRegex(col, pattern, m) == |NonMatchingRows(col, pattern, m)|
    ensures CheckRegex(col, pattern, m) <= NonNullCount(col)
  {
    WhereCount(col, FailsPattern(m, pattern), IsPresent, PresentAndFailing(m, pattern));
    CountIsCard(col, PresentAndFailing(m, pattern));
    assert Positions(col, PresentAndFailing(m, pattern)) == NonMatchingRows(col, pattern, m);
    CountMono(col, PresentAndFailing(m, pattern), IsPresent);
  }

  /**
   * What one row adds to regex. A null row IS selected by the mask, yet the
   * final non-null count drops it, so it adds nothing; a present value adds
   * one exactly when it does not match.
   */
  lemma RegexRowContribution(a: Column, x: Cell, b: Column, pattern: string, m: Matcher)
    ensures x.None? ==> x in Where(a + [x] + b, FailsPattern(m, pattern))
    ensures x.None? ==> CheckRegex(a + [x] + b, pattern, m) == CheckRegex(a + b, pattern, m)
    ensures x.Some? && MatchesAtStart(m, pattern, x.value) ==> CheckRegex(a + [x] + b, pattern, m) == CheckRegex(a + b, pattern, m)
    ensures x.Some? && !MatchesAtStart(m, pattern, x.value) ==> CheckRegex(a + [x] + b, pattern, m) == CheckRegex(a + b, pattern, m) + 1
  {
    var mask := FailsPattern(m, pattern);
    RegexAppend(a + [x], b, pattern, m);
    RegexAppend(a, [x], pattern, m);
    RegexAppend(a, b, pattern, m);
    RegexSingle(x, pattern, m);
    if x.None? {
      WhereAppend(a + [x], b, mask);
      WhereAppend(a, [x], mask);
      assert Where(a + [x] + b, mask) == Where(a, mask) + [x] + Where(b, mask);
      assert (Where(a, mask) + [x] + Where(b, mask))[|Where(a, mask)|] == x;
    }
  }

  /** regex of a concatenation is the sum of the parts' counts. */
  lemma RegexAppend(a: Column, b: Column, pattern: string, m: Matcher)
    ensures CheckRegex(a + b, pattern, m) == CheckRegex(a, pattern, m) + CheckRegex(b, pattern, m)
  {
    var mask := FailsPattern(m, pattern);
    WhereAppend(a, b, mask);
    CountAppend(Where(a, mask), Where(b, mask), IsPresent);
  }

  /** regex of a single row: one for a present value that fails, zero otherwise; a null row is selected. */
  lemma RegexSingle(x: Cell, pattern: string, m: Matcher)
    ensures CheckRegex([x], pattern, m) == if x.Some? && !MatchesAtStart(m, pattern, x.value) then 1 else 0
    ensures x.None? ==> Where([x], FailsPattern(m, pattern)) == [x]
  {
    var mask := FailsPattern(m, pattern);
    WhereSingle(x, mask);
    if mask(x) {
      CountSingle(x, IsPresent);
    }
  }

  /**
   * On a table split into row partitions, not_null, range and regex of the
   * whole are the sums over the parts.
   */
  lemma CountsAddOverPartitions(a: Column, b: Column, lo: int, hi: int, pattern: string, m: Matcher)
    ensures CheckNotNull(a + b) == CheckNotNull(a) + CheckNotNull(b)
    ensures CheckRegex(a + b, pattern, m) == CheckRegex(a, pattern, m) + CheckRegex(b, pattern, m)
    ensures AllIntegers(a + b) ==>
      AllIntegers(a) && AllIntegers(b) &&
      CheckRange(a + b, lo, hi) == CheckRange(a, lo, hi) + CheckRange(b, lo, hi)
  {
    CountAppend(a, b, IsNull);
    RegexAppend(a, b, pattern, m);
    if AllIntegers(a + b) {
      assert forall i :: 0 <= i < |a| ==> a[i] == (a + b)[i];
      assert forall i :: 0 <= i < |b| ==> b[i] == (a + b)[|a| + i];
      RangeIsMaskCount(a + b, lo, hi);
      RangeIsMaskCount(a, lo, hi);
      RangeIsMaskCount(b, lo, hi);
      CountAppend(a, b, OutsideBounds(lo, hi));
    }
  }

  // ---------------------------------------------------------------------------
  // The driver
  // ---------------------------------------------------------------------------

  /** Why a validation run aborts. */
  datatype ValidationError =
    | /** `rules_config[section][column]` has no entry for the column. */
      MissingRule(section: string, column: string)
    | /** The range entry of the column is not a `[min, max]` pair, so it cannot be unpacked. */
      MalformedRange(column: string)
    | /** The table has no column of that name. */
      MissingColumn(column: string)
    | /** The column holds a string, which cannot be compared with a numeric bound. */
      IncomparableValues(column: string)

  /** One entry of the result list: a column, a check name and its failure count. */
  datatype CheckResult = CheckResult(column: string, check: string, failedCount: nat)

  /** A table's checks: each column, in stored order, with its list of check names. */
  type TableRules = seq<(string, seq<string>)>

  /** The check names the driver recognises; every other name is passed over. */
  predicate IsCheckName(check: string)
  {
    check == "not_null" || check == "unique" || check == "range" || check == "regex"
  }

  /** The outcome of one recognised check on one column, parameters looked up in `rules`. */
  function EvalCheck(t: Table, column: string, check: string, rules: RulesConfig, m: Matcher): Result<nat, ValidationError>
    requires IsCheckName(check)
  {
    if check == "not_null" then
      if column !in t then Failure(MissingColumn(column)) else Success(CheckNotNull(t[column]))
    else if check == "unique" then
      if column !in t then Failure(MissingColumn(column)) else Success(CheckUnique(t[column]))
    else if check == "range" then
      if column !in rules.ranges then Failure(MissingRule("ranges", column))
      else if |rules.ranges[column]| != 2 then Failure(MalformedRange(column))
      else if column !in t then Failure(MissingColumn(column))
      else if !AllIntegers(t[column]) then Failure(IncomparableValues(column))
      else Success(CheckRange(t[column], rules.ranges[column][0], rules.ranges[column][1]))
    else
      if column !in rules.regexPatterns then Failure(MissingRule("regex_patterns", column))
      else if column !in t then Failure(MissingColumn(column))
      else Success(CheckRegex(t[column], rules.regexPatterns[column], m))
  }

  /**
   * A recognised check raises exactly when its column is missing from the
   * table, when range has no `[min, max]` pair for it or meets a string, or
   * when regex has no pattern for it.
   */
  lemma EvalCheckFails(t: Table, column: string, check: string, rules: RulesConfig, m: Matcher)
    requires IsCheckName(check)
    ensures EvalCheck(t, column, check, rules, m).Failure? <==>
      column !in t ||
      (check == "range" && (column !in rules.ranges || |rules.ranges[column]| != 2 || !AllIntegers(t[column]))) ||
      (check == "regex" && column !in rules.regexPatterns)
  {
  }

  /** The `(column, check)` pairs a column's check list runs, unrecognised names dropped. */
  function ColumnChecks(column: string, checks: seq<string>): (pairs: seq<(string, string)>)
    ensures forall i :: 0 <= i < |pairs| ==> pairs[i].0 == column && IsCheckName(pairs[i].1)
    ensures |pairs| <= |checks|
  {
    if checks == [] then []
    else
      var init := ColumnChecks(column, checks[..|checks| - 1]);
      var last := checks[|checks| - 1];
      if IsCheckName(last) then init + [(column, last)] else init
  }

  /** The `(column, check)` pairs of a whole configuration, column after column. */
  function Scheduled(tableRules: TableRules): (pairs: seq<(string, string)>)
    ensures forall i :: 0 <= i < |pairs| ==> IsCheckName(pairs[i].1)
  {
    if tableRules == [] then []
    else
      var last := tableRules[|tableRules| - 1];
      Scheduled(tableRules[..|tableRules| - 1]) + ColumnChecks(last.0, last.1)
  }

  /** Runs the pairs in order; the first failing one aborts the run and nothing else is returned. */
  function RunAll(t: Table, pairs: seq<(string, string)>, rules: RulesConfig, m: Matcher): Result<seq<CheckResult>, ValidationError>
    requires forall i :: 0 <= i < |pairs| ==> IsCheckName(pairs[i].1)
  {
    if pairs == [] then Success([])
    else
      var last := pairs[|pairs| - 1];
      match RunAll(t, pairs[..|pairs| - 1], rules, m)
      case Failure(e) => Failure(e)
      case Success(done) =>
        match EvalCheck(t, last.0, last.1, rules, m)
        case Failure(e) => Failure(e)
        case Success(n) => Success(done + [CheckResult(last.0, last.1, n)])
  }

  /** What `run_validations` returns or raises for a table, its checks and the shared rules. */
  function Validations(t: Table, tableRules: TableRules, rules: RulesConfig, m: Matcher): Result<seq<CheckResult>, ValidationError>
  {
    RunAll(t, Scheduled(tableRules), rules, m)
  }

  /** The number of recognised check names in a configuration. */
  function RecognisedNames(tableRules: TableRules): nat
  {
    if tableRules == [] then 0
    else RecognisedNames(tableRules[..|tableRules| - 1]) + Count(tableRules[|tableRules| - 1].1, IsCheckName)
  }

  /** A column's check list runs in its stored order: the pairs of a concatenation are the concatenated pairs. */
  lemma {:induction false} ColumnChecksInOrder(column: string, c1: seq<string>, c2: seq<string>)
    ensures ColumnChecks(column, c1 + c2) == ColumnChecks(column, c1) + ColumnChecks(column, c2)
  {
    if c2 == [] {
      assert c1 + c2 == c1;
    } else {
      var c2' := c2[..|c2| - 1];
      assert (c1 + c2)[..|c1 + c2| - 1] == c1 + c2';
      ColumnChecksInOrder(column, c1, c2');
    }
  }

  /** Columns run in their stored order: the pairs of a concatenated configuration are the concatenated pairs. */
  lemma {:induction false} ScheduledInOrder(r1: TableRules, r2: TableRules)
    ensures Scheduled(r1 + r2) == Scheduled(r1) + Scheduled(r2)
  {
    if r2 == [] {
      assert r1 + r2 == r1;
    } else {
      var r2' := r2[..|r2| - 1];
      assert (r1 + r2)[..|r1 + r2| - 1] == r1 + r2';
      ScheduledInOrder(r1, r2');
    }
  }

  /** An unrecognised check name contributes no pair, wherever it stands. */
  lemma UnknownCheckIgnored(column: string, c1: seq<string>, check: string, c2: seq<string>)
    requires !IsCheckName(check)
    ensures ColumnChecks(column, c1 + [check] + c2) == ColumnChecks(column, c1 + c2)
  {
    ColumnChecksInOrder(column, c1 + [check], c2);
    ColumnChecksInOrder(column, c1, [check]);
    ColumnChecksInOrder(column, c1, c2);
    assert [check][..0] == [];
  }

  /** One pair per recognised name of the list. */
  lemma {:induction false} ColumnChecksLength(column: string, checks: seq<string>)
    ensures |ColumnChecks(column, checks)| == Count(checks, IsCheckName)
  {
    if checks != [] {
      ColumnChecksLength(column, checks[..|checks| - 1]);
    }
  }

  /** The result of a successful run has one entry per recognised check name of the configuration. */
  lemma {:induction false} ScheduledLength(tableRules: TableRules)
    ensures |Scheduled(tableRules)| == RecognisedNames(tableRules)
  {
    if tableRules != [] {
      var last := tableRules[|tableRules| - 1];
      ScheduledLength(tableRules[..|tableRules| - 1]);
      ColumnChecksLength(last.0, last.1);
    }
  }

  /** A pair is scheduled exactly when its name is recognised and stands in that column's check list. */
  lemma {:induction false} ColumnChecksMembers(column: string, checks: seq<string>, c: string, k: string)
    ensures (c, k) in ColumnChecks(column, checks) <==> c == column && k in checks && IsCheckName(k)
  {
    if checks != [] {
      var init := checks[..|checks| - 1];
      assert checks == init + [checks[|checks| - 1]];
      ColumnChecksMembers(column, init, c, k);
    }
  }

  /** A pair is scheduled exactly when its name is recognised and listed under that column. */
  lemma {:induction false} ScheduledMembers(tableRules: TableRules, c: string, k: string)
    ensures (c, k) in Scheduled(tableRules) <==>
      IsCheckName(k) && exists i :: 0 <= i < |tableRules| && tableRules[i].0 == c && k in tableRules[i].1
  {
    if tableRules != [] {
      var init := tableRules[..|tableRules| - 1];
      var last := tableRules[|tableRules| - 1];
      ScheduledMembers(init, c, k);
      ColumnChecksMembers(last.0, last.1, c, k);
      assert forall i :: 0 <= i < |init| ==> init[i] == tableRules[i];
      if IsCheckName(k) && last.0 == c && k in last.1 {
        assert tableRules[|tableRules| - 1] == last;
      }
    }
  }

  /**
   * A run succeeds iff every scheduled check succeeds; its result then lists,
   * in order, each pair with its own count. A failed run carries the error of
   * the first failing pair and no partial results.
   */
  lemma RunAllOutcome(t: Table, pairs: seq<(string, string)>, rules: RulesConfig, m: Matcher)
    requires forall i :: 0 <= i < |pairs| ==> IsCheckName(pairs[i].1)
    ensures RunAll(t, pairs, rules, m).Success? <==>
      forall i :: 0 <= i < |pairs| ==> EvalCheck(t, pairs[i].0, pairs[i].1, rules, m).Success?
    ensures RunAll(t, pairs, rules, m).Success? ==>
      var res := RunAll(t, pairs, rules, m).value;
      |res| == |pairs| &&
      forall i :: 0 <= i < |pairs| ==>
        res[i] == CheckResult(pairs[i].0, pairs[i].1, EvalCheck(t, pairs[i].0, pairs[i].1, rules, m).value)
    ensures RunAll(t, pairs, rules, m).Failure? ==>
      exists i :: 0 <= i < |pairs| &&
        EvalCheck(t, pairs[i].0, pairs[i].1, rules, m) == Failure(RunAll(t, pairs, rules, m).error) &&
        forall j :: 0 <= j < i ==> EvalCheck(t, pairs[j].0, pairs[j].1, rules, m).Success?
  {
    RunAllSucceeds(t, pairs, rules, m);
    RunAllResults(t, pairs, rules, m);
    RunAllFirstFailure(t, pairs, rules, m);
  }

  /** A run succeeds iff every scheduled check succeeds. */
  lemma {:induction false} RunAllSucceeds(t: Table, pairs: seq<(string, string)>, rules: RulesConfig, m: Matcher)
    requires forall i :: 0 <= i < |pairs| ==> IsCheckName(pairs[i].1)
    ensures RunAll(t, pairs, rules, m).Success? <==>
      forall i :: 0 <= i < |pairs| ==> EvalCheck(t, pairs[i].0, pairs[i].1, rules, m).Success?
  {
    if pairs != [] {
      var init := pairs[..|pairs| - 1];
      assert forall i :: 0 <= i < |init| ==> init[i] == pairs[i];
      RunAllSucceeds(t, init, rules, m);
    }
  }

  /** A successful run lists each pair with its own count, in order. */
  lemma {:induction false} RunAllResults(t: Table, pairs: seq<(string, string)>, rules: RulesConfig, m: Matcher)
    requires forall i :: 0 <= i < |pairs| ==> IsCheckName(pairs[i].1)
    ensures RunAll(t, pairs, rules, m).Success? ==>
      var res := RunAll(t, pairs, rules, m).value;
      |res| == |pairs| &&
      forall i :: 0 <= i < |pairs| ==>
        EvalCheck(t, pairs[i].0, pairs[i].1, rules, m).Success? &&
        res[i] == CheckResult(pairs[i].0, pairs[i].1, EvalCheck(t, pairs[i].0, pairs[i].1, rules, m).value)
  {
    if pairs != [] && RunAll(t, pairs, rules, m).Success? {
      var init := pairs[..|pairs| - 1];
      assert forall i :: 0 <= i < |init| ==> init[i] == pairs[i];
      RunAllResults(t, init, rules, m);
    }
  }

  /** A failed run carries the error of the first failing pair. */
  lemma {:induction false} RunAllFirstFailure(t: Table, pairs: seq<(string, string)>, rules: RulesConfig, m: Matcher)
    requires forall i :: 0 <= i < |pairs| ==> IsCheckName(pairs[i].1)
    ensures RunAll(t, pairs, rules, m).Failure? ==>
      exists i :: 0 <= i < |pairs| &&
        EvalCheck(t, pairs[i].0, pairs[i].1, rules, m) == Failure(RunAll(t, pairs, rules, m).error) &&
        forall j :: 0 <= j < i ==> EvalCheck(t, pairs[j].0, pairs[j].1, rules, m).Success?
  {
    if pairs != [] && RunAll(t, pairs, rules, m).Failure? {
      var init := pairs[..|pairs| - 1];
      assert forall i :: 0 <= i < |init| ==> init[i] == pairs[i];
      RunAllFirstFailure(t, init, rules, m);
      RunAllSucceeds(t, init, rules, m);
      if RunAll(t, init, rules, m).Success? {
        assert EvalCheck(t, pairs[|init|].0, pairs[|init|].1, rules, m) == Failure(RunAll(t, pairs, rules, m).error);
      }
    }
  }

  /** A range or regex check on a column with no rules entry aborts the whole run. */
  lemma MissingParameterAborts(t: Table, tableRules: TableRules, rules: RulesConfig, m: Matcher, i: int, j: int)
    requires 0 <= i < |tableRules| && 0 <= j < |tableRules[i].1|
    requires (tableRules[i].1[j] == "range" && tableRules[i].0 !in rules.ranges) ||
             (tableRules[i].1[j] == "regex" && tableRules[i].0 !in rules.regexPatterns)
    ensures Validations(t, tableRules, rules, m).Failure?
  {
    var c, k := tableRules[i].0, tableRules[i].1[j];
    ScheduledMembers(tableRules, c, k);
    var pairs := Scheduled(tableRules);
    var p :| 0 <= p < |pairs| && pairs[p] == (c, k);
    assert EvalCheck(t, pairs[p].0, pairs[p].1, rules, m).Failure?;
    RunAllOutcome(t, pairs, rules, m);
  }

  /** A failed prefix fails the longer run with the same error. */
  lemma {:induction false} RunAllFailureSticks(t: Table, p: seq<(string, string)>, q: seq<(string, string)>, rules: RulesConfig, m: Matcher)
    requires forall i :: 0 <= i < |p| ==> IsCheckName(p[i].1)
    requires forall i :: 0 <= i < |q| ==> IsCheckName(q[i].1)
    requires RunAll(t, p, rules, m).Failure?
    ensures RunAll(t, p + q, rules, m) == RunAll(t, p, rules, m)
  {
    if q == [] {
      assert p + q == p;
    } else {
      var q' := q[..|q| - 1];
      assert (p + q)[..|p + q| - 1] == p + q';
      RunAllFailureSticks(t, p, q', rules, m);
    }
  }

  /** The pairs scheduled before the check at column `i`, position `j`. */
  function Before(tableRules: TableRules, i: int, j: int): seq<(string, string)>
    requires 0 <= i < |tableRules| && 0 <= j <= |tableRules[i].1|
  {
    Scheduled(tableRules[..i]) + ColumnChecks(tableRules[i].0, tableRules[i].1[..j])
  }

  /** A column between two runs of columns schedules its checks between theirs. */
  lemma ScheduledMiddle(r1: TableRules, x: (string, seq<string>), r2: TableRules)
    ensures Scheduled(r1 + [x] + r2) == Scheduled(r1) + ColumnChecks(x.0, x.1) + Scheduled(r2)
  {
    assert (r1 + [x])[..|r1|] == r1;
    ScheduledInOrder(r1 + [x], r2);
  }

  /** A sequence is what comes before position `i`, the element there, and what comes after. */
  lemma SplitAround<T>(s: seq<T>, i: int)
    requires 0 <= i < |s|
    ensures s[..i] + [s[i]] + s[i + 1..] == s
  {
  }

  /** A sequence is what comes before position `j` and what comes from there on. */
  lemma SplitAt<T>(s: seq<T>, j: int)
    requires 0 <= j <= |s|
    ensures s[..j] + s[j..] == s
  {
  }

  /** Regrouping a concatenation of four sequences. */
  lemma Regroup<T>(a: seq<T>, b: seq<T>, c: seq<T>, d: seq<T>)
    ensures a + (b + c) + d == (a + b) + (c + d)
  {
  }

  /** The schedule splits around column `i`. */
  lemma ScheduledAround(tableRules: TableRules, i: int)
    requires 0 <= i < |tableRules|
    ensures Scheduled(tableRules) ==
      Scheduled(tableRules[..i]) + ColumnChecks(tableRules[i].0, tableRules[i].1) + Scheduled(tableRules[i + 1..])
  {
    SplitAround(tableRules, i);
    ScheduledMiddle(tableRules[..i], tableRules[i], tableRules[i + 1..]);
  }

  /** The schedule splits at any check position. */
  lemma ScheduledSplit(tableRules: TableRules, i: int, j: int)
    requires 0 <= i < |tableRules| && 0 <= j <= |tableRules[i].1|
    ensures Scheduled(tableRules) ==
      Before(tableRules, i, j) + (ColumnChecks(tableRules[i].0, tableRules[i].1[j..]) + Scheduled(tableRules[i + 1..]))
  {
    var column, checks := tableRules[i].0, tableRules[i].1;
    ScheduledAround(tableRules, i);
    SplitAt(checks, j);
    ColumnChecksInOrder(column, checks[..j], checks[j..]);
    Regroup(Scheduled(tableRules[..i]), ColumnChecks(column, checks[..j]), ColumnChecks(column, checks[j..]),
      Scheduled(tableRules[i + 1..]));
  }

  /** The schedule before position `j + 1` of column `i`: the one before `j`, plus that check when it is recognised. */
  lemma BeforeStep(tableRules: TableRules, i: int, j: int)
    requires 0 <= i < |tableRules| && 0 <= j < |tableRules[i].1|
    ensures Before(tableRules, i, j + 1) ==
      Before(tableRules, i, j) + if IsCheckName(tableRules[i].1[j]) then [(tableRules[i].0, tableRules[i].1[j])] else []
  {
    var column, checks := tableRules[i].0, tableRules[i].1;
    assert checks[..j + 1] == checks[..j] + [checks[j]];
    ColumnChecksInOrder(column, checks[..j], [checks[j]]);
    assert [checks[j]][..0] == [];
  }

  /** Before a column's first check come the earlier columns' checks; after its last, its own as well. */
  lemma BeforeColumn(tableRules: TableRules, i: int)
    requires 0 <= i < |tableRules|
    ensures Before(tableRules, i, 0) == Scheduled(tableRules[..i])
    ensures Before(tableRules, i, |tableRules[i].1|) == Scheduled(tableRules[..i + 1])
  {
    var checks := tableRules[i].1;
    assert checks[..0] == [];
    assert checks[..|checks|] == checks;
    ScheduledSnoc(tableRules[..i], tableRules[i]);
    assert tableRules[..i + 1] == tableRules[..i] + [tableRules[i]];
  }

  /** One more column schedules its checks after the others. */
  lemma ScheduledSnoc(r: TableRules, x: (string, seq<string>))
    ensures Scheduled(r + [x]) == Scheduled(r) + ColumnChecks(x.0, x.1)
  {
    assert (r + [x])[..|r|] == r;
  }

  /** Running one more pair after a successful prefix: the prefix's results plus that pair's outcome. */
  lemma RunAllSnoc(t: Table, p: seq<(string, string)>, x: (string, string), rules: RulesConfig, m: Matcher)
    requires forall i :: 0 <= i < |p| ==> IsCheckName(p[i].1)
    requires IsCheckName(x.1)
    requires RunAll(t, p, rules, m).Success?
    ensures RunAll(t, p + [x], rules, m) ==
      match EvalCheck(t, x.0, x.1, rules, m)
      case Failure(e) => Failure(e)
      case Success(n) => Success(RunAll(t, p, rules, m).value + [CheckResult(x.0, x.1, n)])
  {
    assert (p + [x])[..|p + [x]| - 1] == p;
  }

  /** A check at column `i`, position `j` that fails after the earlier ones succeeded decides the run. */
  lemma AbortsAt(t: Table, tableRules: TableRules, rules: RulesConfig, m: Matcher, i: int, j: int)
    requires 0 <= i < |tableRules| && 0 <= j < |tableRules[i].1|
    requires IsCheckName(tableRules[i].1[j])
    requires RunAll(t, Before(tableRules, i, j), rules, m).Success?
    requires EvalCheck(t, tableRules[i].0, tableRules[i].1[j], rules, m).Failure?
    ensures Validations(t, tableRules, rules, m) == Failure(EvalCheck(t, tableRules[i].0, tableRules[i].1[j], rules, m).error)
  {
    var column, checks := tableRules[i].0, tableRules[i].1;
    var x := (column, checks[j]);
    var e := EvalCheck(t, column, checks[j], rules, m);
    var p := Before(tableRules, i, j + 1);
    assert RunAll(t, p, rules, m) == Failure(e.error) by {
      BeforeStep(tableRules, i, j);
      RunAllSnoc(t, Before(tableRules, i, j), x, rules, m);
    }
    var rest := ColumnChecks(column, checks[j + 1..]) + Scheduled(tableRules[i + 1..]);
    ScheduledSplit(tableRules, i, j + 1);
    RunAllFailureSticks(t, p, rest, rules, m);
  }

  /** A check at column `i`, position `j` that succeeds extends the results by its triple; an unrecognised name changes nothing. */
  lemma StepAt(t: Table, tableRules: TableRules, rules: RulesConfig, m: Matcher, i: int, j: int, done: seq<CheckResult>)
    requires 0 <= i < |tableRules| && 0 <= j < |tableRules[i].1|
    requires RunAll(t, Before(tableRules, i, j), rules, m) == Success(done)
    requires IsCheckName(tableRules[i].1[j]) ==> EvalCheck(t, tableRules[i].0, tableRules[i].1[j], rules, m).Success?
    ensures RunAll(t, Before(tableRules, i, j + 1), rules, m) ==
      if IsCheckName(tableRules[i].1[j])
      then Success(done + [CheckResult(tableRules[i].0, tableRules[i].1[j], EvalCheck(t, tableRules[i].0, tableRules[i].1[j], rules, m).value)])
      else Success(done)
  {
    BeforeStep(tableRules, i, j);
    if IsCheckName(tableRules[i].1[j]) {
      RunAllSnoc(t, Before(tableRules, i, j), (tableRules[i].0, tableRules[i].1[j]), rules, m);
    } else {
      assert Before(tableRules, i, j) + [] == Before(tableRules, i, j);
    }
  }

  /** `run_validations`: walk the columns and their checks in order, collecting results. */
  method RunValidations(t: Table, tableName: string, tableRules: TableRules, rules: RulesConfig, m: Matcher)
    returns (r: Result<seq<CheckResult>, ValidationError>)
    ensures r == Validations(t, tableRules, rules, m)
  {
    var results: seq<CheckResult> := [];
    for i := 0 to |tableRules|
      invariant RunAll(t, Scheduled(tableRules[..i]), rules, m) == Success(results)
    {
      var column, checks := tableRules[i].0, tableRules[i].1;
      BeforeColumn(tableRules, i);
      for j := 0 to |checks|
        invariant RunAll(t, Before(tableRules, i, j), rules, m) == Success(results)
      {
        var check := checks[j];
        if IsCheckName(check) {
          match EvalCheck(t, column, check, rules, m) {
            case Failure(e) =>
              AbortsAt(t, tableRules, rules, m, i, j);
              return Failure(e);
            case Success(res) =>
              StepAt(t, tableRules, rules, m, i, j, results);
              results := results + [CheckResult(column, check, res)];
          }
        } else {
          StepAt(t, tableRules, rules, m, i, j, results);
        }
      }
    }
    assert tableRules[..|tableRules|] == tableRules;
    return Success(results);
  }
}

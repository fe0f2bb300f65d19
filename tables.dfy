/**
 * The tabular data the checks run on, and the few column operations of the
 * dataframe library that the checks are built from: null tests, non-null
 * counts and boolean-mask selection. Every count is an instance of `Count`.
 */
module Tables {
  import opened Wrappers

  /** A cell value: the model keeps integers and strings. */
  datatype Value = Int(n: int) | Str(s: string)

  /** A cell of a column; `None` is a null (missing) entry. */
  type Cell = Option<Value>

  /** One column of a table, top row first. */
  type Column = seq<Cell>

  /** A table, column by column, keyed by column name. */
  type Table = map<string, Column>

  /** The number of elements of `s` that satisfy `p`. */
  function Count<T>(s: seq<T>, p: T -> bool): (r: nat)
    ensures r <= |s|
  {
    if s == [] then 0
    else Count(s[..|s| - 1], p) + (if p(s[|s| - 1]) then 1 else 0)
  }

  /** A single element counts once when it satisfies the predicate. */
  lemma CountSingle<T>(x: T, p: T -> bool)
    ensures Count([x], p) == if p(x) then 1 else 0
  {
    var one := [x];
    assert one[..0] == [];
  }

  /** The positions of `s` whose element satisfies `p`. */
  ghost function Positions<T>(s: seq<T>, p: T -> bool): set<int>
  {
    set i | 0 <= i < |s| && p(s[i])
  }

  /** `Count` is the number of positions that satisfy the predicate. */
  lemma {:induction false} CountIsCard<T>(s: seq<T>, p: T -> bool)
    ensures Count(s, p) == |Positions(s, p)|
  {
    if s != [] {
      var n := |s|;
      var t := s[..n - 1];
      CountIsCard(t, p);
      var a := Positions(t, p);
      if p(s[n - 1]) {
        assert Positions(s, p) == a + {n - 1};
      } else {
        assert Positions(s, p) == a;
      }
    }
  }

  /** The count is zero exactly when no element satisfies the predicate. */
  lemma {:induction false} CountZero<T>(s: seq<T>, p: T -> bool)
    ensures Count(s, p) == 0 <==> forall i :: 0 <= i < |s| ==> !p(s[i])
  {
    if s != [] {
      var t := s[..|s| - 1];
      CountZero(t, p);
      assert forall i :: 0 <= i < |t| ==> t[i] == s[i];
    }
  }

  /** Counting distributes over concatenation (a column split into partitions). */
  lemma {:induction false} CountAppend<T>(a: seq<T>, b: seq<T>, p: T -> bool)
    ensures Count(a + b, p) == Count(a, p) + Count(b, p)
  {
    if b == [] {
      assert a + b == a;
    } else {
      var b' := b[..|b| - 1];
      assert (a + b)[..|a + b| - 1] == a + b';
      CountAppend(a, b', p);
    }
  }

  /** Predicates that agree on every element of `s` count the same. */
  lemma {:induction false} CountAgree<T>(s: seq<T>, p: T -> bool, q: T -> bool)
    requires forall i :: 0 <= i < |s| ==> p(s[i]) == q(s[i])
    ensures Count(s, p) == Count(s, q)
  {
    if s != [] {
      var t := s[..|s| - 1];
      assert forall i :: 0 <= i < |t| ==> t[i] == s[i];
      CountAgree(t, p, q);
    }
  }

  /** Counting a disjunction of exclusive predicates adds their counts. */
  lemma {:induction false} CountDisjoint<T>(s: seq<T>, p: T -> bool, q: T -> bool, pq: T -> bool)
    requires forall i :: 0 <= i < |s| ==> pq(s[i]) == (p(s[i]) || q(s[i]))
    requires forall i :: 0 <= i < |s| ==> !(p(s[i]) && q(s[i]))
    ensures Count(s, pq) == Count(s, p) + Count(s, q)
  {
    if s != [] {
      var t := s[..|s| - 1];
      assert forall i :: 0 <= i < |t| ==> t[i] == s[i];
      CountDisjoint(t, p, q, pq);
    }
  }

  /** A weaker predicate counts at least as many elements. */
  lemma {:induction false} CountMono<T>(s: seq<T>, p: T -> bool, q: T -> bool)
    requires forall i :: 0 <= i < |s| && p(s[i]) ==> q(s[i])
    ensures Count(s, p) <= Count(s, q)
  {
    if s != [] {
      var t := s[..|s| - 1];
      assert forall i :: 0 <= i < |t| ==> t[i] == s[i];
      CountMono(t, p, q);
    }
  }

  predicate IsNull(c: Cell) { c.None? }

  predicate IsPresent(c: Cell) { c.Some? }

  /** Every element satisfies exactly one of the two complementary predicates. */
  lemma {:induction false} CountSplit(col: Column)
    ensures Count(col, IsNull) + Count(col, IsPresent) == |col|
  {
    if col != [] {
      CountSplit(col[..|col| - 1]);
    }
  }

  /** `column.isnull().sum()`: the number of null entries. */
  function NullSum(col: Column): nat
  {
    Count(col, IsNull)
  }

  /** `column.count()`: the number of non-null entries. */
  function NonNullCount(col: Column): nat
  {
    Count(col, IsPresent)
  }

  /** `frame[mask][column]`: the entries whose row the element-wise mask keeps, in order. */
  function Where(col: Column, mask: Cell -> bool): (r: Column)
    ensures |r| == Count(col, mask)
    ensures forall i :: 0 <= i < |r| ==> mask(r[i]) && r[i] in col
  {
    if col == [] then []
    else
      var rest := Where(col[..|col| - 1], mask);
      var last := col[|col| - 1];
      if mask(last) then rest + [last] else rest
  }

  /** Selecting from a single row keeps it exactly when the mask holds. */
  lemma WhereSingle(x: Cell, mask: Cell -> bool)
    ensures Where([x], mask) == if mask(x) then [x] else []
  {
    var one: Column := [x];
    assert one[..0] == [];
  }

  /** Selection distributes over concatenation: each partition keeps its own rows. */
  lemma {:induction false} WhereAppend(a: Column, b: Column, mask: Cell -> bool)
    ensures Where(a + b, mask) == Where(a, mask) + Where(b, mask)
  {
    if b == [] {
      assert a + b == a;
    } else {
      var b' := b[..|b| - 1];
      assert (a + b)[..|a + b| - 1] == a + b';
      WhereAppend(a, b', mask);
    }
  }

  /** Counting over the selected entries is counting the rows that the mask keeps and that satisfy `p`. */
  lemma {:induction false} WhereCount(col: Column, mask: Cell -> bool, p: Cell -> bool, both: Cell -> bool)
    requires forall c :: both(c) == (mask(c) && p(c))
    ensures Count(Where(col, mask), p) == Count(col, both)
  {
    if col != [] {
      var init := col[..|col| - 1];
      var last := col[|col| - 1];
      WhereCount(init, mask, p, both);
      if mask(last) {
        var rest := Where(init, mask);
        assert (rest + [last])[..|rest + [last]| - 1] == rest;
      }
    }
  }
}

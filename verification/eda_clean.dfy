/**
 * The cleaning shared by the exploratory questions: `clean_base` coerces the
 * numeric columns, drops exact duplicate rows and removes impossible rates
 * and negative salaries; `latest_year` finds the latest plausible survey
 * year; `ensure_not_empty` guards a selection before it is plotted.
 */
module EdaClean {
  import opened Wrappers
  import opened Frames

  // ---------------------------------------------------------------------
  // Numeric coercion
  // ---------------------------------------------------------------------

  /** `num_cols` of `clean_base`. */
  const NumCols: seq<string> := ["employment_rate_overall", "employment_rate_ft_perm", "basic_monthly_mean",
                                 "basic_monthly_median", "gross_monthly_mean", "gross_monthly_median", "year"]

  /** `out[c] = to_num(out[c])` for each of the first `i` names that is a column. */
  function Coerce(f: Frame, names: seq<string>): (r: Frame)
    requires WellFormed(f)
    ensures WellFormed(r) && r.columns == f.columns && |r.rows| == |f.rows|
  {
    if names == [] then f else MapColumn(Coerce(f, names[..|names| - 1]), names[|names| - 1], ToNumeric)
  }

  /** After coercion no cell of a coerced column is text, and every other
      column is as it was. */
  lemma {:induction false} CoerceFacts(f: Frame, names: seq<string>, k: nat, x: string)
    requires WellFormed(f) && k < |f.rows|
    ensures x in names && x in f.columns ==> !Lookup(f.columns, Coerce(f, names).rows[k], x).Text?
    ensures x !in names ==> Lookup(f.columns, Coerce(f, names).rows[k], x) == Lookup(f.columns, f.rows[k], x)
  {
    if names != [] {
      var n := |names| - 1;
      CoerceFacts(f, names[..n], k, x);
      if x != names[n] {
        assert x in names ==> x in names[..n];
      }
    }
  }

  // ---------------------------------------------------------------------
  // Duplicates
  // ---------------------------------------------------------------------

  predicate NoDuplicates<T(==)>(s: seq<T>) {
    forall i, j :: 0 <= i < j < |s| ==> s[i] != s[j]
  }

  /** `drop_duplicates()` after the rows in `seen`: the first occurrence of
      each row not yet seen is kept, in order. */
  function DedupAfter<T(==)>(s: seq<T>, seen: set<T>): seq<T> {
    if s == [] then []
    else if s[0] in seen then DedupAfter(s[1..], seen)
    else [s[0]] + DedupAfter(s[1..], seen + {s[0]})
  }

  /** `drop_duplicates()` keeping the first occurrence. */
  function Dedup<T(==)>(s: seq<T>): seq<T> {
    DedupAfter(s, {})
  }

  /** The rows kept are exactly the distinct unseen rows, each once, in
      their original order. */
  lemma {:induction false} DedupAfterFacts<T>(s: seq<T>, seen: set<T>)
    ensures forall x :: x in DedupAfter(s, seen) <==> x in s && x !in seen
    ensures NoDuplicates(DedupAfter(s, seen))
    ensures IsSubsequence(DedupAfter(s, seen), s)
  {
    if s != [] {
      DedupAfterFacts(s[1..], seen);
      DedupAfterFacts(s[1..], seen + {s[0]});
      assert s == [s[0]] + s[1..];
      if s[0] !in seen {
        var r := DedupAfter(s, seen);
        assert r[1..] == DedupAfter(s[1..], seen + {s[0]});
        forall i, j | 0 <= i < j < |r|
          ensures r[i] != r[j]
        {
          if i == 0 {
            assert r[j] in r[1..];
          } else {
            assert r[i] == r[1..][i - 1] && r[j] == r[1..][j - 1];
          }
        }
      }
    }
  }

  /** Every row of the input appears once in the output, and nothing else. */
  lemma DedupFacts<T>(s: seq<T>)
    ensures forall x :: x in Dedup(s) <==> x in s
    ensures NoDuplicates(Dedup(s))
    ensures IsSubsequence(Dedup(s), s)
  {
    DedupAfterFacts(s, {});
  }

  /** Adding a row after `s` keeps the earlier result and appends the row
      only when it has not been seen, in `s` or before it. */
  lemma {:induction false} DedupAfterSnoc<T>(s: seq<T>, x: T, seen: set<T>)
    ensures DedupAfter(s + [x], seen) == DedupAfter(s, seen) + (if x in s || x in seen then [] else [x])
  {
    if s == [] {
      assert [] + [x] == [x];
    } else {
      assert (s + [x])[0] == s[0] && (s + [x])[1..] == s[1..] + [x];
      assert x in s <==> x == s[0] || x in s[1..];
      if s[0] in seen {
        DedupAfterSnoc(s[1..], x, seen);
      } else {
        DedupAfterSnoc(s[1..], x, seen + {s[0]});
      }
    }
  }

  /** `drop_duplicates()` keeps the FIRST copy: nothing comes of no rows,
      and a later row is kept exactly when no earlier row equals it, so a
      repeat never displaces the copy already kept. */
  lemma DedupSnoc<T>(s: seq<T>, x: T)
    ensures Dedup<T>([]) == []
    ensures Dedup(s + [x]) == Dedup(s) + (if x in s then [] else [x])
  {
    DedupAfterSnoc(s, x, {});
  }

  /** On `[1, 2, 1]` the first 1 is kept, giving `[1, 2]`. */
  lemma DedupKeepsFirstExample()
    ensures Dedup([1, 2, 1]) == [1, 2]
  {
    assert [1] == [] + [1] && [1, 2] == [1] + [2] && [1, 2, 1] == [1, 2] + [1];
    DedupSnoc([], 1);
    DedupSnoc([1], 2);
    DedupSnoc([1, 2], 1);
  }

  /** Selecting from distinct rows keeps them distinct. */
  lemma {:induction false} FilterDistinct<T(!new)>(s: seq<T>, p: T -> bool)
    requires NoDuplicates(s)
    ensures NoDuplicates(Filter(s, p))
  {
    if s != [] {
      FilterDistinct(s[1..], p);
      FilterMembers(s[1..], p);
      var r := Filter(s, p);
      if p(s[0]) {
        assert s[0] !in s[1..] by {
          forall j | 0 <= j < |s[1..]|
            ensures s[1..][j] != s[0]
          {
            assert s[1..][j] == s[j + 1];
          }
        }
        assert r[1..] == Filter(s[1..], p);
        forall i, j | 0 <= i < j < |r|
          ensures r[i] != r[j]
        {
          if i == 0 {
            assert r[j] in r[1..];
          } else {
            assert r[i] == r[1..][i - 1] && r[j] == r[1..][j - 1];
          }
        }
      }
    }
  }

  // ---------------------------------------------------------------------
  // clean_base
  // ---------------------------------------------------------------------

  /** `(x >= 0) & (x <= 100)`: a missing rate fails. */
  predicate RatePresentInRange(c: Cell) {
    Between(c, 0.0, 100.0)
  }

  /** `isna() | (x >= 0)` */
  predicate SalaryOk(c: Cell) {
    c.Missing? || Ge(c, 0.0)
  }

  /** Lines 50-68: a rate column that exists must hold a value in [0, 100];
      a salary column must hold a missing or non-negative value (a salary
      column the frame lacks reads as missing). The successive selections
      keep exactly the rows passing all of them. */
  predicate Plausible(columns: seq<string>, row: Cells) {
    && ("employment_rate_overall" in columns ==> RatePresentInRange(Lookup(columns, row, "employment_rate_overall")))
    && ("employment_rate_ft_perm" in columns ==> RatePresentInRange(Lookup(columns, row, "employment_rate_ft_perm")))
    && SalaryOk(Lookup(columns, row, "basic_monthly_mean")) && SalaryOk(Lookup(columns, row, "basic_monthly_median"))
    && SalaryOk(Lookup(columns, row, "gross_monthly_mean")) && SalaryOk(Lookup(columns, row, "gross_monthly_median"))
  }

  function PlausibleMask(columns: seq<string>): Cells -> bool {
    (row: Cells) => Plausible(columns, row)
  }

  /** `clean_base` */
  function CleanBase(df: Frame): (r: Frame)
    requires WellFormed(df)
    ensures r.columns == df.columns
  {
    Frame(df.columns, Filter(Dedup(Coerce(df, NumCols).rows), PlausibleMask(df.columns)))
  }

  /** The cleaned rows are distinct, plausible, free of text in every
      numeric column, and a subsequence of the de-duplicated coerced rows;
      a coerced row that is plausible is kept. */
  lemma CleanBaseFacts(df: Frame)
    requires WellFormed(df)
    ensures var out := CleanBase(df).rows;
      && NoDuplicates(out)
      && (forall row :: row in out ==> Plausible(df.columns, row))
      && (forall row :: row in out <==> row in Coerce(df, NumCols).rows && Plausible(df.columns, row))
      && IsSubsequence(out, Dedup(Coerce(df, NumCols).rows))
  {
    var rows := Coerce(df, NumCols).rows;
    DedupFacts(rows);
    FilterDistinct(Dedup(rows), PlausibleMask(df.columns));
    FilterMembers(Dedup(rows), PlausibleMask(df.columns));
    FilterIsSubsequence(Dedup(rows), PlausibleMask(df.columns));
  }

  /** Every cleaned row has no text in the numeric columns the frame has. */
  lemma CleanBaseNumeric(df: Frame, row: Cells, x: string)
    requires WellFormed(df) && row in CleanBase(df).rows
    requires x in NumCols && x in df.columns
    ensures !Lookup(df.columns, row, x).Text?
  {
    CleanBaseFacts(df);
    var rows := Coerce(df, NumCols).rows;
    var k :| 0 <= k < |rows| && rows[k] == row;
    CoerceFacts(df, NumCols, k, x);
  }

  /** A row with a missing overall rate does not survive when the column
      exists, though the salary filters would let a missing salary through. */
  lemma MissingRateDropped(df: Frame, row: Cells)
    requires WellFormed(df) && "employment_rate_overall" in df.columns
    requires Lookup(df.columns, row, "employment_rate_overall") == Missing
    ensures row !in CleanBase(df).rows
  {
    CleanBaseFacts(df);
  }

  // ---------------------------------------------------------------------
  // latest_year
  // ---------------------------------------------------------------------

  datatype YearError = NonFiniteYear

  /** The coerced year of a row. */
  function YearOf(columns: seq<string>, row: Cells): Cell {
    ToNumeric(Lookup(columns, row, "year"))
  }

  predicate InRange(c: Cell) {
    c.Num? && 2000 <= Trunc(c.v) <= 2100
  }

  /** `yrs` after the range filter: the truncated in-range years, in order. */
  function InRangeYears(columns: seq<string>, rows: seq<Cells>): seq<int> {
    if rows == [] then []
    else
      var c := YearOf(columns, rows[|rows| - 1]);
      InRangeYears(columns, rows[..|rows| - 1]) + if InRange(c) then [Trunc(c.v)] else []
  }

  function Max(s: seq<int>): (m: int)
    requires s != []
  {
    if |s| == 1 then s[0] else var m := Max(s[..|s| - 1]); if s[|s| - 1] > m then s[|s| - 1] else m
  }

  lemma {:induction false} MaxFacts(s: seq<int>)
    requires s != []
    ensures Max(s) in s && forall x :: x in s ==> x <= Max(s)
  {
    if |s| > 1 {
      MaxFacts(s[..|s| - 1]);
      assert s == s[..|s| - 1] + [s[|s| - 1]];
    }
  }

  /** `latest_year`: `astype(int)` raises on an infinite year. */
  function LatestYear(df: Frame): Result<Option<int>, YearError> {
    if "year" !in df.columns then Success(None)
    else if exists k :: 0 <= k < |df.rows| && YearOf(df.columns, df.rows[k]).Inf? then Failure(NonFiniteYear)
    else
      var ys := InRangeYears(df.columns, df.rows);
      if ys == [] then Success(None) else Success(Some(Max(ys)))
  }

  lemma {:induction false} InRangeYearsMembers(columns: seq<string>, rows: seq<Cells>)
    ensures forall y :: y in InRangeYears(columns, rows) <==>
      exists k :: 0 <= k < |rows| && InRange(YearOf(columns, rows[k])) && Trunc(YearOf(columns, rows[k]).v) == y
  {
    InRangeYearsFrom(columns, rows);
    InRangeYearsHave(columns, rows);
  }

  /** Every candidate year comes from some row. */
  lemma {:induction false} InRangeYearsFrom(columns: seq<string>, rows: seq<Cells>)
    ensures forall y :: y in InRangeYears(columns, rows) ==>
      exists k :: 0 <= k < |rows| && InRange(YearOf(columns, rows[k])) && Trunc(YearOf(columns, rows[k]).v) == y
  {
    if rows != [] {
      var m := |rows| - 1;
      var pre := rows[..m];
      InRangeYearsFrom(columns, pre);
      forall y | y in InRangeYears(columns, rows)
        ensures exists k :: 0 <= k < |rows| && InRange(YearOf(columns, rows[k])) && Trunc(YearOf(columns, rows[k]).v) == y
      {
        InRangeYearsStep(columns, rows, y);
        if y in InRangeYears(columns, pre) {
          var k :| 0 <= k < |pre| && InRange(YearOf(columns, pre[k])) && Trunc(YearOf(columns, pre[k]).v) == y;
          assert pre[k] == rows[k];
        } else {
          assert InRange(YearOf(columns, rows[m])) && Trunc(YearOf(columns, rows[m]).v) == y;
        }
      }
    }
  }

  /** Every row's in-range year is a candidate. */
  lemma {:induction false} InRangeYearsHave(columns: seq<string>, rows: seq<Cells>)
    ensures forall k :: 0 <= k < |rows| && InRange(YearOf(columns, rows[k])) ==>
      Trunc(YearOf(columns, rows[k]).v) in InRangeYears(columns, rows)
  {
    if rows != [] {
      var m := |rows| - 1;
      var pre := rows[..m];
      InRangeYearsHave(columns, pre);
      forall k | 0 <= k < |rows| && InRange(YearOf(columns, rows[k]))
        ensures Trunc(YearOf(columns, rows[k]).v) in InRangeYears(columns, rows)
      {
        InRangeYearsStep(columns, rows, Trunc(YearOf(columns, rows[k]).v));
        if k < m {
          assert pre[k] == rows[k];
        }
      }
    }
  }

  /** A year is a candidate of the rows exactly when it is one of all but
      the last row, or the last row's own in-range year. */
  lemma InRangeYearsStep(columns: seq<string>, rows: seq<Cells>, y: int)
    requires rows != []
    ensures y in InRangeYears(columns, rows) <==>
      y in InRangeYears(columns, rows[..|rows| - 1])
      || (InRange(YearOf(columns, rows[|rows| - 1])) && Trunc(YearOf(columns, rows[|rows| - 1]).v) == y)
  {
  }

  /** No year is kept exactly when no row's coerced year is in range. */
  lemma InRangeYearsEmpty(columns: seq<string>, rows: seq<Cells>)
    ensures InRangeYears(columns, rows) == [] <==> forall k :: 0 <= k < |rows| ==> !InRange(YearOf(columns, rows[k]))
  {
    InRangeYearsMembers(columns, rows);
    var ys := InRangeYears(columns, rows);
    if ys != [] {
      assert ys[0] in ys;
      var k :| 0 <= k < |rows| && InRange(YearOf(columns, rows[k])) && Trunc(YearOf(columns, rows[k]).v) == ys[0];
    }
  }

  /** There is no latest year exactly when the column is missing or no
      finite year truncates into [2000, 2100]; the function raises exactly
      when the column holds an infinite year. */
  lemma LatestYearNone(df: Frame)
    ensures LatestYear(df).Failure? <==>
      "year" in df.columns && exists k :: 0 <= k < |df.rows| && YearOf(df.columns, df.rows[k]).Inf?
    ensures LatestYear(df) == Success(None) <==>
      "year" !in df.columns ||
      ((forall k :: 0 <= k < |df.rows| ==> !YearOf(df.columns, df.rows[k]).Inf?) &&
       (forall k :: 0 <= k < |df.rows| ==> !InRange(YearOf(df.columns, df.rows[k]))))
  {
    InRangeYearsEmpty(df.columns, df.rows);
  }

  /** A latest year is the largest year among the rows that truncates into
      [2000, 2100]. */
  lemma LatestYearMax(df: Frame)
    requires LatestYear(df).Success? && LatestYear(df).value.Some?
    ensures var y := LatestYear(df).value.value;
      && 2000 <= y <= 2100
      && (exists k :: 0 <= k < |df.rows| && InRange(YearOf(df.columns, df.rows[k])) && Trunc(YearOf(df.columns, df.rows[k]).v) == y)
      && (forall k :: 0 <= k < |df.rows| && InRange(YearOf(df.columns, df.rows[k])) ==> Trunc(YearOf(df.columns, df.rows[k]).v) <= y)
  {
    var ys := InRangeYears(df.columns, df.rows);
    InRangeYearsMembers(df.columns, df.rows);
    MaxFacts(ys);
    forall k | 0 <= k < |df.rows| && InRange(YearOf(df.columns, df.rows[k]))
      ensures Trunc(YearOf(df.columns, df.rows[k]).v) <= Max(ys)
    {
      assert Trunc(YearOf(df.columns, df.rows[k]).v) in ys;
    }
  }

  // ---------------------------------------------------------------------
  // ensure_not_empty
  // ---------------------------------------------------------------------

  datatype EmptyError = NoDataFor(selection: string)

  /** `df.empty`: no rows or no columns. */
  predicate IsEmpty(df: Frame) {
    |df.rows| == 0 || |df.columns| == 0
  }

  /** `ensure_not_empty`: raises ValueError naming the selection. */
  function EnsureNotEmpty(df: Option<Frame>, selection: string): (r: Result<(), EmptyError>)
    ensures r.Failure? <==> df.None? || IsEmpty(df.value)
    ensures r.Failure? ==> r.error.selection == selection
  {
    if df.None? || IsEmpty(df.value) then Failure(NoDataFor(selection)) else Success(())
  }
}

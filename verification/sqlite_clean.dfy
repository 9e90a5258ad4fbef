/**
 * Reading the CSV for the sqlite3 loader: column names are normalised and
 * renamed, the numeric columns are cleaned of thousands separators and
 * percent signs, and the rows are validated: absent required columns are
 * filled with defaults and the year is coerced to an integer in [2000, 2100].
 */
module SqliteClean {
  import opened Wrappers
  import opened Strings
  import opened Frames

  // ---------------------------------------------------------------------
  // clean_numeric
  // ---------------------------------------------------------------------

  /** The text, without its thousands separators and percent signs, `clean_numeric` hands to `to_numeric`. */
  function Unseparated(s: string): string {
    RemoveAll(RemoveAll(s, ','), '%')
  }

  /** `clean_numeric` on one cell: text loses every ',' and '%', is trimmed
      and coerced to a number, or to missing when it spells none. A number,
      a missing value or an infinity is rendered by `str` and read back as
      itself. */
  function CleanNumeric(c: Cell): (r: Cell)
    ensures !r.Text?
    ensures !c.Text? ==> r == c
  {
    match c
    case Text(s) => ToNumeric(Text(Strip(Unseparated(s))))
    case _ => c
  }

  /** Removing a character from `x + [sep] + y` removes it from both sides,
      and `sep` too when it is that character. */
  lemma RemoveAllAround(x: string, y: string, sep: char, a: char)
    ensures RemoveAll(x + [sep] + y, a) == RemoveAll(x, a) + (if sep == a then [] else [sep]) + RemoveAll(y, a)
  {
    RemoveAllConcat(x + [sep], y, a);
    RemoveAllConcat(x, [sep], a);
    assert [sep][1..] == [];
  }

  lemma UnseparatedIgnoresSeparator(x: string, y: string, sep: char)
    requires sep == ',' || sep == '%'
    ensures Unseparated(x + [sep] + y) == Unseparated(x + y)
  {
    var x1, y1 := RemoveAll(x, ','), RemoveAll(y, ',');
    var s1 := RemoveAll(x + [sep] + y, ',');
    assert s1 == x1 + (if sep == ',' then [] else [sep]) + y1 by {
      RemoveAllAround(x, y, sep, ',');
    }
    assert RemoveAll(x + y, ',') == x1 + y1 by {
      RemoveAllConcat(x, y, ',');
    }
    if sep == '%' {
      assert RemoveAll(s1, '%') == RemoveAll(x1, '%') + RemoveAll(y1, '%') by {
        RemoveAllAround(x1, y1, sep, '%');
        assert RemoveAll(x1, '%') + [] + RemoveAll(y1, '%') == RemoveAll(x1, '%') + RemoveAll(y1, '%');
      }
      assert RemoveAll(x1 + y1, '%') == RemoveAll(x1, '%') + RemoveAll(y1, '%') by {
        RemoveAllConcat(x1, y1, '%');
      }
    } else {
      assert s1 == x1 + y1 by {
        assert x1 + [] + y1 == x1 + y1;
      }
    }
  }

  /** A ',' or '%' anywhere in the text makes no difference to the number read. */
  lemma CleanNumericIgnoresSeparator(x: string, y: string, sep: char)
    requires sep == ',' || sep == '%'
    ensures CleanNumeric(Text(x + [sep] + y)) == CleanNumeric(Text(x + y))
  {
    UnseparatedIgnoresSeparator(x, y, sep);
  }

  /** Digits without separators or percent signs are read as written. */
  lemma CleanNumericNatText(n: nat)
    ensures CleanNumeric(Text(NatText(n))) == Num(n as real)
  {
    var t := NatText(n);
    assert ',' !in t && '%' !in t by {
      forall k | 0 <= k < |t| ensures t[k] != ',' && t[k] != '%' {
        assert IsDigit(t[k]);
      }
    }
    assert Unseparated(t) == t by {
      RemoveAllAbsent(t, ',');
      RemoveAllAbsent(t, '%');
    }
    assert Strip(t) == t by {
      assert IsDigit(t[0]) && IsDigit(t[|t| - 1]);
      StripOfStripped(t);
    }
    assert StripAscii(t) == t by {
      StripAsciiAfterStrip(t);
    }
    ParseDecimalNatText(n);
  }

  /** A whole number followed by a percent sign reads as that number. */
  lemma CleanNumericPercent(n: nat)
    ensures CleanNumeric(Text(NatText(n) + "%")) == Num(n as real)
  {
    var t := NatText(n);
    assert t + "%" == t + ['%'] + [];
    CleanNumericIgnoresSeparator(t, [], '%');
    assert t + [] == t;
    CleanNumericNatText(n);
  }

  // ---------------------------------------------------------------------
  // Column names
  // ---------------------------------------------------------------------

  /** `c.strip().lower().replace(" ", "_")` */
  function NormaliseName(c: string): string {
    Replace(Lower(Strip(c)), ' ', '_')
  }

  /** A name in normal form: trimmed, lower case, no spaces. */
  predicate IsNormalName(r: string) {
    IsStripped(r) && ' ' !in r && forall k :: 0 <= k < |r| ==> !IsUpper(r[k])
  }

  /** A normalised name is in normal form and as long as the trimmed name. */
  lemma NormaliseNameShape(c: string)
    ensures IsNormalName(NormaliseName(c))
    ensures |NormaliseName(c)| == |Strip(c)|
  {
    var s := Strip(c);
    var r := NormaliseName(c);
    if |r| > 0 {
      assert !IsSpace(s[0]) && !IsSpace(s[|s| - 1]);
      assert r[0] == (if LowerChar(s[0]) == ' ' then '_' else LowerChar(s[0]));
      assert r[|r| - 1] == (if LowerChar(s[|s| - 1]) == ' ' then '_' else LowerChar(s[|s| - 1]));
    }
    assert ' ' !in r by {
      forall k | 0 <= k < |r| ensures r[k] != ' ' {
      }
    }
  }

  /** A name in normal form is its own normal form. */
  lemma NormalNameFixed(r: string)
    requires IsNormalName(r)
    ensures NormaliseName(r) == r
  {
    StripOfStripped(r);
    assert Lower(r) == r;
    assert Replace(r, ' ', '_') == r;
  }

  /** Normalising a normalised name changes nothing. */
  lemma NormaliseNameIdempotent(c: string)
    ensures NormaliseName(NormaliseName(c)) == NormaliseName(c)
  {
    NormaliseNameShape(c);
    NormalNameFixed(NormaliseName(c));
  }

  /** The rename map of `load_csv`, applied to a column whose name is a key. */
  function RenameColumn(name: string): string {
    if name == "employment_overall" then "employment_rate_overall"
    else if name == "employment_ft_perm" then "employment_rate_ft_perm"
    else if name == "programme" then "degree"
    else name
  }

  predicate IsRenameKey(name: string) {
    name == "employment_overall" || name == "employment_ft_perm" || name == "programme"
  }

  /** `load_csv`'s name for one column. */
  function LoadedName(c: string): string {
    RenameColumn(NormaliseName(c))
  }

  /** The column names `load_csv` gives the frame. Renaming only the keys
      present is renaming each column that is a key. */
  function NormaliseColumns(columns: seq<string>): (r: seq<string>)
    ensures |r| == |columns|
  {
    if columns == [] then []
    else NormaliseColumns(columns[..|columns| - 1]) + [LoadedName(columns[|columns| - 1])]
  }

  lemma {:induction false} NormaliseColumnsAt(columns: seq<string>, k: nat)
    requires k < |columns|
    ensures NormaliseColumns(columns)[k] == LoadedName(columns[k])
  {
    var n := |columns| - 1;
    if k < n {
      NormaliseColumnsAt(columns[..n], k);
    }
  }

  /** The names the rename map produces are in normal form and are not keys. */
  lemma RenameTargetsNormal()
    ensures IsNormalName("employment_rate_overall") && !IsRenameKey("employment_rate_overall")
    ensures IsNormalName("employment_rate_ft_perm") && !IsRenameKey("employment_rate_ft_perm")
    ensures IsNormalName("degree") && !IsRenameKey("degree")
  {
  }

  /** Renaming a name in normal form gives a name in normal form that is not
      a key, which normalising and renaming again leaves as it is. */
  lemma RenameColumnNormal(n: string)
    requires IsNormalName(n)
    ensures IsNormalName(RenameColumn(n)) && !IsRenameKey(RenameColumn(n))
    ensures RenameColumn(NormaliseName(RenameColumn(n))) == RenameColumn(n)
  {
    RenameTargetsNormal();
    NormalNameFixed(RenameColumn(n));
  }

  /** Every normalised column name is in normal form and none is a key of
      the rename map. */
  lemma NormaliseColumnsShape(columns: seq<string>)
    ensures forall k :: 0 <= k < |columns| ==>
      IsNormalName(NormaliseColumns(columns)[k]) && !IsRenameKey(NormaliseColumns(columns)[k])
  {
    forall k | 0 <= k < |columns|
      ensures IsNormalName(NormaliseColumns(columns)[k]) && !IsRenameKey(NormaliseColumns(columns)[k])
    {
      NormaliseColumnsAt(columns, k);
      NormaliseNameShape(columns[k]);
      RenameColumnNormal(NormaliseName(columns[k]));
    }
  }

  /** Normalising and renaming one name a second time changes nothing. */
  lemma LoadedNameIdempotent(c: string)
    ensures LoadedName(LoadedName(c)) == LoadedName(c)
  {
    NormaliseNameShape(c);
    RenameColumnNormal(NormaliseName(c));
  }

  /** Normalising and renaming the columns a second time changes nothing. */
  lemma {:induction false} NormaliseColumnsIdempotent(columns: seq<string>)
    ensures NormaliseColumns(NormaliseColumns(columns)) == NormaliseColumns(columns)
  {
    if columns != [] {
      var n := |columns| - 1;
      var r := NormaliseColumns(columns);
      NormaliseColumnsIdempotent(columns[..n]);
      assert r[..n] == NormaliseColumns(columns[..n]);
      LoadedNameIdempotent(columns[n]);
    }
  }

  // ---------------------------------------------------------------------
  // validate_dataframe
  // ---------------------------------------------------------------------

  /** `required_cols`, in a fixed order (Python iterates the set in an
      order of its own). */
  const RequiredDb: seq<string> := ["university", "school", "degree", "year"]

  /** The value a missing required column is filled with. */
  function Default(name: string): Cell {
    if name == "year" then Num(2020.0) else Text("UNKNOWN")
  }

  /** `df[name] = c` for a new column: every row gets `c` at the end. */
  function AddColumn(f: Frame, name: string, c: Cell): (r: Frame)
    ensures r.columns == f.columns + [name] && |r.rows| == |f.rows|
  {
    Frame(f.columns + [name], seq(|f.rows|, k requires 0 <= k < |f.rows| => f.rows[k] + [c]))
  }

  /** The frame with the columns `names` added, in order, each holding its default. */
  function FillDefaults(f: Frame, names: seq<string>): (r: Frame)
    ensures r.columns == f.columns + names && |r.rows| == |f.rows|
  {
    if names == [] then f
    else
      var n := |names| - 1;
      assert names == names[..n] + [names[n]];
      AddColumn(FillDefaults(f, names[..n]), names[n], Default(names[n]))
  }

  /** Adding default columns keeps every row as wide as the header, finds
      each added name's default in a row that lacked it, and leaves every
      other lookup alone. */
  lemma {:induction false} FillDefaultsLookup(f: Frame, names: seq<string>, k: nat, x: string)
    requires WellFormed(f) && k < |f.rows|
    ensures |FillDefaults(f, names).rows[k]| == |f.columns| + |names|
    ensures var r := FillDefaults(f, names);
      Lookup(r.columns, r.rows[k], x) ==
        if x !in f.columns && x in names then Default(x) else Lookup(f.columns, f.rows[k], x)
  {
    if names != [] {
      var n := |names| - 1;
      var prev := FillDefaults(f, names[..n]);
      FillDefaultsLookup(f, names[..n], k, x);
      LookupAppend(prev.columns, prev.rows[k], names[n], Default(names[n]), x);
      assert names == names[..n] + [names[n]];
    }
  }

  lemma FillDefaultsWellFormed(f: Frame, names: seq<string>)
    requires WellFormed(f)
    ensures WellFormed(FillDefaults(f, names))
  {
    var r := FillDefaults(f, names);
    forall k | 0 <= k < |r.rows|
      ensures |r.rows[k]| == |r.columns|
    {
      FillDefaultsLookup(f, names, k, "");
    }
  }

  /** The frame once every absent required column is filled in. */
  function Filled(df: Frame): (r: Frame)
  {
    FillDefaults(df, Absent(RequiredDb, df.columns))
  }

  /** The cell under "year" after `pd.to_numeric(..., errors="coerce")`. */
  function YearCell(columns: seq<string>, row: Cells): Cell {
    ToNumeric(Lookup(columns, row, "year"))
  }

  /** The year a row keeps through `dropna`, `astype(int)` and
      `between(2000, 2100)`, or `None` when it is dropped. */
  function KeptYear(columns: seq<string>, row: Cells): (r: Option<int>)
    ensures r.Some? ==> 2000 <= r.value <= 2100
  {
    match YearCell(columns, row)
    case Num(v) => if 2000 <= Trunc(v) <= 2100 then Some(Trunc(v)) else None
    case _ => None
  }

  /** The row mask "the row keeps its year". */
  function HasKeptYear(columns: seq<string>): Cells -> bool {
    (row: Cells) => KeptYear(columns, row).Some?
  }

  ghost predicate RowsFit(columns: seq<string>, rows: seq<Cells>) {
    forall k :: 0 <= k < |rows| ==> |rows[k]| == |columns|
  }

  /** The surviving rows, in order, each with its year as an integer. */
  function KeepYears(columns: seq<string>, rows: seq<Cells>): (r: seq<Cells>)
    requires RowsFit(columns, rows)
    ensures |r| <= |rows|
  {
    if rows == [] then []
    else
      var n := |rows| - 1;
      KeepYears(columns, rows[..n]) +
        match KeptYear(columns, rows[n])
        case Some(y) => [Store(columns, rows[n], "year", Num(y as real))]
        case None => []
  }

  /** `astype(int)` refuses a non-finite year among the rows `dropna` keeps. */
  function AnyInfiniteYear(columns: seq<string>, rows: seq<Cells>): bool {
    if rows == [] then false
    else AnyInfiniteYear(columns, rows[..|rows| - 1]) || YearCell(columns, rows[|rows| - 1]).Inf?
  }

  lemma {:induction false} AnyInfiniteYearExists(columns: seq<string>, rows: seq<Cells>)
    ensures AnyInfiniteYear(columns, rows) <==> exists k :: 0 <= k < |rows| && YearCell(columns, rows[k]).Inf?
  {
    if rows != [] {
      var n := |rows| - 1;
      AnyInfiniteYearExists(columns, rows[..n]);
      if AnyInfiniteYear(columns, rows[..n]) {
        var k :| 0 <= k < n && YearCell(columns, rows[..n][k]).Inf?;
        assert rows[k] == rows[..n][k];
      }
      if exists k :: 0 <= k < |rows| && YearCell(columns, rows[k]).Inf? {
        var k :| 0 <= k < |rows| && YearCell(columns, rows[k]).Inf?;
        if k < n {
          assert rows[..n][k] == rows[k];
        }
      }
    }
  }

  datatype ValidateError = NonFiniteYear

  /** What `validate_dataframe` returns, or the error `astype(int)` raises. */
  function Validated(df: Frame): Result<Frame, ValidateError>
    requires WellFormed(df)
  {
    var f := Filled(df);
    FillDefaultsWellFormed(df, Absent(RequiredDb, df.columns));
    if AnyInfiniteYear(f.columns, f.rows) then Failure(NonFiniteYear)
    else Success(Frame(f.columns, KeepYears(f.columns, f.rows)))
  }

  /** `validate_dataframe`: fills each absent required column, then coerces,
      filters and converts the year column. */
  method ValidateDataframe(df: Frame) returns (r: Result<Frame, ValidateError>)
    requires WellFormed(df)
    ensures r == Validated(df)
  {
    var missing := Absent(RequiredDb, df.columns);
    var f := df;
    for i := 0 to |missing|
      invariant f == FillDefaults(df, missing[..i])
    {
      assert missing[..i + 1][..i] == missing[..i];
      f := AddColumn(f, missing[i], Default(missing[i]));
    }
    assert missing[..|missing|] == missing;
    FillDefaultsWellFormed(df, missing);
    if AnyInfiniteYear(f.columns, f.rows) {
      return Failure(NonFiniteYear);
    }
    r := Success(Frame(f.columns, KeepYears(f.columns, f.rows)));
  }

  /** Every kept row has an integral year in [2000, 2100] under "year". */
  lemma {:induction false} KeepYearsInRange(columns: seq<string>, rows: seq<Cells>)
    requires RowsFit(columns, rows) && "year" in columns
    ensures forall k :: 0 <= k < |KeepYears(columns, rows)| ==>
      var c := Lookup(columns, KeepYears(columns, rows)[k], "year");
      c.Num? && IsIntegral(c.v) && 2000.0 <= c.v <= 2100.0
  {
    if rows != [] {
      var n := |rows| - 1;
      KeepYearsInRange(columns, rows[..n]);
      var prev := KeepYears(columns, rows[..n]);
      var r := KeepYears(columns, rows);
      forall k | 0 <= k < |r|
        ensures var c := Lookup(columns, r[k], "year"); c.Num? && IsIntegral(c.v) && 2000.0 <= c.v <= 2100.0
      {
        if k < |prev| {
          assert r[k] == prev[k];
        } else {
          var y := KeptYear(columns, rows[n]).value;
          assert r[k] == Store(columns, rows[n], "year", Num(y as real));
          assert IsIntegral(y as real);
        }
      }
    }
  }

  /** Rows `a` are rows `b` with nothing but the year changed. */
  ghost predicate OnlyYearChanged(columns: seq<string>, a: seq<Cells>, b: seq<Cells>) {
    |a| == |b| &&
    forall k, x :: 0 <= k < |a| && x != "year" ==> Lookup(columns, a[k], x) == Lookup(columns, b[k], x)
  }

  /** The kept rows are exactly the rows whose year survives, in order,
      with only their year rewritten. */
  lemma {:induction false} KeepYearsSelects(columns: seq<string>, rows: seq<Cells>)
    requires RowsFit(columns, rows)
    ensures OnlyYearChanged(columns, KeepYears(columns, rows), Filter(rows, HasKeptYear(columns)))
  {
    if rows != [] {
      var n := |rows| - 1;
      KeepYearsSelects(columns, rows[..n]);
      SplitLast(rows);
      FilterAppend(rows[..n], rows[n], HasKeptYear(columns));
      var a, b := KeepYears(columns, rows), Filter(rows, HasKeptYear(columns));
      var a', b' := KeepYears(columns, rows[..n]), Filter(rows[..n], HasKeptYear(columns));
      forall k, x | 0 <= k < |a| && x != "year"
        ensures Lookup(columns, a[k], x) == Lookup(columns, b[k], x)
      {
        if k < |a'| {
          assert a[k] == a'[k] && b[k] == b'[k];
        } else {
          assert b[k] == rows[n];
        }
      }
    }
  }

  /** After validation every required column exists, every row has an
      integral year in [2000, 2100], and the rows are those of the filled
      frame whose year survives, in order, with only the year rewritten. */
  lemma ValidatedRows(df: Frame)
    requires WellFormed(df)
    ensures var r := Validated(df);
      r.Success? ==>
        && (forall m :: m in RequiredDb ==> m in r.value.columns)
        && r.value.columns == df.columns + Absent(RequiredDb, df.columns)
        && OnlyYearChanged(r.value.columns, r.value.rows, Filter(Filled(df).rows, HasKeptYear(Filled(df).columns)))
        && forall k :: 0 <= k < |r.value.rows| ==>
             var c := Lookup(r.value.columns, r.value.rows[k], "year");
             c.Num? && IsIntegral(c.v) && 2000.0 <= c.v <= 2100.0
  {
    var f := Filled(df);
    FillDefaultsWellFormed(df, Absent(RequiredDb, df.columns));
    AbsentMembers(RequiredDb, df.columns);
    assert "year" in f.columns;
    KeepYearsInRange(f.columns, f.rows);
    KeepYearsSelects(f.columns, f.rows);
  }

  /** Validation fails exactly when a filled row's coerced year is infinite. */
  lemma ValidatedFails(df: Frame)
    requires WellFormed(df)
    ensures Validated(df).Failure? <==>
      exists k :: 0 <= k < |Filled(df).rows| && YearCell(Filled(df).columns, Filled(df).rows[k]).Inf?
  {
    AnyInfiniteYearExists(Filled(df).columns, Filled(df).rows);
  }

  /** A frame without a "year" column gets year 2020 in every row, and so
      validation keeps every row. */
  lemma ValidatedDefaultYear(df: Frame)
    requires WellFormed(df) && "year" !in df.columns
    ensures Validated(df).Success? && |Validated(df).value.rows| == |df.rows|
  {
    var f := Filled(df);
    var names := Absent(RequiredDb, df.columns);
    AbsentMembers(RequiredDb, df.columns);
    FillDefaultsWellFormed(df, names);
    forall k | 0 <= k < |f.rows|
      ensures KeptYear(f.columns, f.rows[k]) == Some(2020)
    {
      FillDefaultsLookup(df, names, k, "year");
    }
    AnyInfiniteYearExists(f.columns, f.rows);
    FilterAll(f.rows, HasKeptYear(f.columns));
    KeepYearsSelects(f.columns, f.rows);
  }

  /** A required text column the frame lacks reads "UNKNOWN" in every
      validated row. */
  lemma ValidatedDefaultText(df: Frame, m: string)
    requires WellFormed(df) && m in RequiredDb && m != "year" && m !in df.columns
    ensures var r := Validated(df);
      r.Success? ==> forall k :: 0 <= k < |r.value.rows| ==> Lookup(r.value.columns, r.value.rows[k], m) == Text("UNKNOWN")
  {
    var f := Filled(df);
    var names := Absent(RequiredDb, df.columns);
    AbsentMembers(RequiredDb, df.columns);
    FillDefaultsWellFormed(df, names);
    ValidatedRows(df);
    var sel := Filter(f.rows, HasKeptYear(f.columns));
    FilterMembers(f.rows, HasKeptYear(f.columns));
    var r := Validated(df);
    if r.Success? {
      forall k | 0 <= k < |r.value.rows|
        ensures Lookup(r.value.columns, r.value.rows[k], m) == Text("UNKNOWN")
      {
        assert Lookup(f.columns, r.value.rows[k], m) == Lookup(f.columns, sel[k], m);
        assert sel[k] in f.rows;
        var j :| 0 <= j < |f.rows| && f.rows[j] == sel[k];
        FillDefaultsLookup(df, names, j, m);
      }
    }
  }

  // ---------------------------------------------------------------------
  // load_csv, after the file is read
  // ---------------------------------------------------------------------

  /** The measure columns `clean_numeric` is applied to, when present. */
  const NumericColumns: seq<string> := [
    "employment_rate_overall", "employment_rate_ft_perm", "basic_monthly_mean", "basic_monthly_median",
    "gross_monthly_mean", "gross_monthly_median", "gross_mthly_25_percentile", "gross_mthly_75_percentile"]

  /** The frame with `clean_numeric` applied to the first `i` measure columns. */
  function CleanColumns(f: Frame, i: nat): (r: Frame)
    requires WellFormed(f) && i <= |NumericColumns|
    ensures WellFormed(r) && r.columns == f.columns && |r.rows| == |f.rows|
  {
    if i == 0 then f else MapColumn(CleanColumns(f, i - 1), NumericColumns[i - 1], CleanNumeric)
  }

  /** After cleaning, no measure column the frame has holds text. */
  lemma {:induction false} CleanColumnsNumeric(f: Frame, i: nat, k: nat, c: string)
    requires WellFormed(f) && i <= |NumericColumns| && k < |f.rows|
    requires c in NumericColumns[..i] && c in f.columns
    ensures !Lookup(f.columns, CleanColumns(f, i).rows[k], c).Text?
  {
    var prev := CleanColumns(f, i - 1);
    if c != NumericColumns[i - 1] {
      assert NumericColumns[..i] == NumericColumns[..i - 1] + [NumericColumns[i - 1]];
      CleanColumnsNumeric(f, i - 1, k, c);
    }
  }

  /** `load_csv` after `read_csv`: normalise and rename the columns, clean the
      measure columns present, validate. */
  method LoadCsv(df: Frame) returns (r: Result<Frame, ValidateError>)
    requires WellFormed(df)
    ensures var g := Frame(NormaliseColumns(df.columns), df.rows);
      r == Validated(CleanColumns(g, |NumericColumns|))
  {
    var g := Frame(NormaliseColumns(df.columns), df.rows);
    var f := g;
    for i := 0 to |NumericColumns|
      invariant WellFormed(f) && f == CleanColumns(g, i)
    {
      if NumericColumns[i] in f.columns {
        f := MapColumn(f, NumericColumns[i], CleanNumeric);
      }
    }
    r := ValidateDataframe(f);
  }

  /** A validated row under a column other than "year" holds what some row
      of the filled frame held. */
  lemma ValidatedCellFrom(df: Frame, k: nat, x: string)
    requires WellFormed(df) && Validated(df).Success? && k < |Validated(df).value.rows| && x != "year"
    ensures exists j :: (0 <= j < |df.rows| &&
      Lookup(Validated(df).value.columns, Validated(df).value.rows[k], x) ==
      Lookup(Filled(df).columns, Filled(df).rows[j], x))
  {
    var f := Filled(df);
    ValidatedRows(df);
    var sel := Filter(f.rows, HasKeptYear(f.columns));
    FilterMembers(f.rows, HasKeptYear(f.columns));
    assert sel[k] in f.rows;
    var j :| 0 <= j < |f.rows| && f.rows[j] == sel[k];
  }

  /** After `load_csv` no measure column the frame has holds text. With
      `ValidatedRows`, every row also has an integral year in [2000, 2100]. */
  lemma LoadCsvNumeric(df: Frame)
    requires WellFormed(df)
    ensures var g := CleanColumns(Frame(NormaliseColumns(df.columns), df.rows), |NumericColumns|);
      var r := Validated(g);
      r.Success? ==>
        forall k, c :: 0 <= k < |r.value.rows| && c in NumericColumns && c in g.columns ==>
          !Lookup(r.value.columns, r.value.rows[k], c).Text?
  {
    var g0 := Frame(NormaliseColumns(df.columns), df.rows);
    var g := CleanColumns(g0, |NumericColumns|);
    var r := Validated(g);
    if r.Success? {
      forall k, c | 0 <= k < |r.value.rows| && c in NumericColumns && c in g.columns
        ensures !Lookup(r.value.columns, r.value.rows[k], c).Text?
      {
        assert c != "year";
        ValidatedCellFrom(g, k, c);
        var j :| 0 <= j < |g.rows| &&
          Lookup(r.value.columns, r.value.rows[k], c) == Lookup(Filled(g).columns, Filled(g).rows[j], c);
        FillDefaultsLookup(g, Absent(RequiredDb, g.columns), j, c);
        assert NumericColumns[..|NumericColumns|] == NumericColumns;
        CleanColumnsNumeric(g0, |NumericColumns|, j, c);
      }
    }
  }
}

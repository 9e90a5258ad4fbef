/**
 * The second sqlite3 pipeline: `read_and_prepare` screens the survey rows
 * (key columns present, year in range, rates and salaries plausible),
 * audits the rows whose gross pay lies more than a tolerance below their
 * basic pay and clamps or drops them; `upsert_dim_tables` loads the
 * university, programme and survey year tables with INSERT OR IGNORE, and
 * `load_fact_table` resolves every row to its programme and year and loads
 * the results with INSERT OR IGNORE, so the first row for a key wins.
 */
module Prepare {
  import opened Wrappers
  import opened Strings
  import opened Frames
  import opened Tables

  // ---------------------------------------------------------------------
  // Column names
  // ---------------------------------------------------------------------

  /** `c.strip().lower()` */
  function PrepName(c: string): string {
    Lower(Strip(c))
  }

  /** `df.columns = [c.strip().lower() for c in df.columns]` */
  function PrepColumns(columns: seq<string>): (r: seq<string>)
    ensures |r| == |columns|
  {
    if columns == [] then [] else PrepColumns(columns[..|columns| - 1]) + [PrepName(columns[|columns| - 1])]
  }

  lemma {:induction false} PrepColumnsAt(columns: seq<string>, k: nat)
    requires k < |columns|
    ensures PrepColumns(columns)[k] == PrepName(columns[k])
  {
    if k < |columns| - 1 {
      PrepColumnsAt(columns[..|columns| - 1], k);
    }
  }

  /** A trimmed name with no upper-case letter. */
  predicate IsPrepName(c: string) {
    IsStripped(c) && forall k :: 0 <= k < |c| ==> !IsUpper(c[k])
  }

  /** A prepared name is trimmed and lower case, and preparing it again
      changes nothing. */
  lemma PrepNameShape(c: string)
    ensures IsPrepName(PrepName(c))
    ensures PrepName(PrepName(c)) == PrepName(c)
  {
    var s := Strip(c);
    var r := PrepName(c);
    if |r| > 0 {
      assert !IsSpace(s[0]) && !IsSpace(s[|s| - 1]);
      assert r[0] == LowerChar(s[0]) && r[|r| - 1] == LowerChar(s[|s| - 1]);
    }
    StripOfStripped(r);
    assert Lower(r) == r;
  }

  /** Every prepared column name is trimmed and lower case. */
  lemma PrepColumnsShape(columns: seq<string>)
    ensures forall k :: 0 <= k < |columns| ==> IsPrepName(PrepColumns(columns)[k])
  {
    forall k | 0 <= k < |columns|
      ensures IsPrepName(PrepColumns(columns)[k])
    {
      PrepColumnsAt(columns, k);
      PrepNameShape(columns[k]);
    }
  }

  // ---------------------------------------------------------------------
  // Rows
  // ---------------------------------------------------------------------

  /** The six measures `survey_result` stores. */
  datatype Metrics = Metrics(empOverall: Cell, empFtPerm: Cell, basicMean: Cell, basicMedian: Cell,
                             grossMean: Cell, grossMedian: Cell)

  /** A row of the needed columns once the key texts are trimmed and the
      numeric columns coerced; a needed column the frame lacks reads as
      missing, which every later filter lets through just as skipping
      that column does. */
  datatype Record = Record(university: Cell, degree: Cell, year: Cell, m: Metrics)

  /** `df[c].astype(str).str.strip()`: every cell becomes trimmed text,
      a missing one the text "nan". */
  function StrCell(c: Cell): (r: Cell)
    ensures r.Text? && IsStripped(r.s)
  {
    Text(Strip(CellText(c)))
  }

  /** Lines 111-127 on one row of a frame with prepared column names. */
  function ReadRecord(columns: seq<string>, row: Cells): Record {
    Record(StrCell(Lookup(columns, row, "university")), StrCell(Lookup(columns, row, "degree")),
           ToNumeric(Lookup(columns, row, "year")),
           Metrics(ToNumeric(Lookup(columns, row, "employment_rate_overall")),
                   ToNumeric(Lookup(columns, row, "employment_rate_ft_perm")),
                   ToNumeric(Lookup(columns, row, "basic_monthly_mean")),
                   ToNumeric(Lookup(columns, row, "basic_monthly_median")),
                   ToNumeric(Lookup(columns, row, "gross_monthly_mean")),
                   ToNumeric(Lookup(columns, row, "gross_monthly_median"))))
  }

  function ReadRecords(columns: seq<string>, rows: seq<Cells>): (r: seq<Record>)
    ensures |r| == |rows|
  {
    if rows == [] then [] else ReadRecords(columns, rows[..|rows| - 1]) + [ReadRecord(columns, rows[|rows| - 1])]
  }

  /** `dropna(subset=["university", "degree", "year"])` */
  predicate KeysPresent(r: Record) {
    NotNa(r.university) && NotNa(r.degree) && NotNa(r.year)
  }

  /** `isna() | between(0, 100)` */
  predicate RateOk(c: Cell) {
    c.Missing? || Between(c, 0.0, 100.0)
  }

  /** `isna() | (x >= 0)` */
  predicate SalaryOk(c: Cell) {
    c.Missing? || Ge(c, 0.0)
  }

  predicate MetricsOk(m: Metrics) {
    && RateOk(m.empOverall) && RateOk(m.empFtPerm)
    && SalaryOk(m.basicMean) && SalaryOk(m.basicMedian) && SalaryOk(m.grossMean) && SalaryOk(m.grossMedian)
  }

  /** Lines 141-157: the successive row selections keep exactly the rows
      that pass all of them. */
  predicate Admissible(r: Record) {
    KeysPresent(r) && Between(r.year, 2000.0, 2100.0) && MetricsOk(r.m)
  }

  /** `EPS = 1e-6` */
  const Eps: real := 0.000001

  /** `mask_mean` */
  predicate MeanFlag(m: Metrics) {
    NotNa(m.grossMean) && NotNa(m.basicMean) && LessBy(m.grossMean, Eps, m.basicMean)
  }

  /** `mask_median` */
  predicate MedianFlag(m: Metrics) {
    NotNa(m.grossMedian) && NotNa(m.basicMedian) && LessBy(m.grossMedian, Eps, m.basicMedian)
  }

  /** `bad_mask = mask_mean | mask_median` */
  predicate Bad(r: Record) {
    MeanFlag(r.m) || MedianFlag(r.m)
  }

  predicate NotBad(r: Record) {
    !Bad(r)
  }

  /** The "clamp" strategy on one row: each flagged pair has its gross set
      to its basic, both masks being computed before either assignment. */
  function ClampRecord(r: Record): Record {
    r.(m := r.m.(grossMean := if MeanFlag(r.m) then r.m.basicMean else r.m.grossMean,
                 grossMedian := if MedianFlag(r.m) then r.m.basicMedian else r.m.grossMedian))
  }

  /** A clamped row is not flagged and still admissible; an unflagged row
      is untouched; a flagged pair ends with gross equal to basic; nothing
      but the two gross values changes. */
  lemma ClampRecordFacts(r: Record)
    ensures !Bad(ClampRecord(r))
    ensures Admissible(r) ==> Admissible(ClampRecord(r))
    ensures !Bad(r) ==> ClampRecord(r) == r
    ensures MeanFlag(r.m) ==> ClampRecord(r).m.grossMean == r.m.basicMean
    ensures MedianFlag(r.m) ==> ClampRecord(r).m.grossMedian == r.m.basicMedian
    ensures !MeanFlag(r.m) ==> ClampRecord(r).m.grossMean == r.m.grossMean
    ensures !MedianFlag(r.m) ==> ClampRecord(r).m.grossMedian == r.m.grossMedian
    ensures ClampRecord(r).(m := ClampRecord(r).m.(grossMean := r.m.grossMean, grossMedian := r.m.grossMedian)) == r
  {
  }

  /** `GROSS_BASIC_STRATEGY` */
  const GrossBasicStrategy: string := "clamp"

  /** What the strategy name selects at lines 178-186. */
  datatype Strategy = ClampPairs | DropRows | KeepRows

  /** `s.lower() == "clamp"`, then `s.lower() == "drop"`; any other name
      selects neither branch. */
  function StrategyOf(name: string): Strategy {
    if Lower(name) == "clamp" then ClampPairs else if Lower(name) == "drop" then DropRows else KeepRows
  }

  /** "clamp" clamps the flagged pairs, "drop" removes the flagged rows,
      and any other strategy leaves the rows as they are. */
  function ApplyStrategy(recs: seq<Record>, strategy: Strategy): seq<Record> {
    match strategy
    case ClampPairs => MapSeq(recs, ClampRecord)
    case DropRows => Filter(recs, NotBad)
    case KeepRows => recs
  }

  /** With no flagged row (`bad_mask.any()` false) no strategy changes anything. */
  lemma NoBadNoChange(recs: seq<Record>, strategy: Strategy)
    requires forall k :: 0 <= k < |recs| ==> !Bad(recs[k])
    ensures ApplyStrategy(recs, strategy) == recs
  {
    if strategy == ClampPairs {
      forall k | 0 <= k < |recs|
        ensures MapSeq(recs, ClampRecord)[k] == recs[k]
      {
        ClampRecordFacts(recs[k]);
      }
    } else if strategy == DropRows {
      FilterAll(recs, NotBad);
    }
  }

  /** The columns whose absence raises KeyError: the `dropna` subset and
      the four salary columns the masks read unconditionally. */
  const PrepRequired: seq<string> := ["university", "degree", "year", "gross_monthly_mean",
                                      "basic_monthly_mean", "gross_monthly_median", "basic_monthly_median"]

  datatype PrepareError = MissingColumns(names: seq<string>)

  /** The prepared rows, and the rows written to the anomaly audit file. */
  datatype Prepared = Prepared(records: seq<Record>, audit: seq<Record>)

  /** The rows surviving the screening of lines 141-157. */
  function Screened(df: Frame): seq<Record> {
    Filter(ReadRecords(PrepColumns(df.columns), df.rows), Admissible)
  }

  /** `read_and_prepare`, once the CSV is read into `df`, under the
      strategy `StrategyOf(GrossBasicStrategy)`. */
  function ReadAndPrepare(df: Frame, strategy: Strategy): Result<Prepared, PrepareError> {
    var missing := Absent(PrepRequired, PrepColumns(df.columns));
    if missing != [] then Failure(MissingColumns(missing))
    else Success(Prepared(ApplyStrategy(Screened(df), strategy), Filter(Screened(df), Bad)))
  }

  /** Preparation raises exactly when a required column is missing once
      the names are prepared, and names the missing ones. */
  lemma ReadAndPrepareFails(df: Frame, strategy: Strategy)
    ensures ReadAndPrepare(df, strategy).Failure? <==> exists n :: n in PrepRequired && n !in PrepColumns(df.columns)
    ensures ReadAndPrepare(df, strategy).Failure? ==>
      forall n :: n in ReadAndPrepare(df, strategy).error.names <==> n in PrepRequired && n !in PrepColumns(df.columns)
  {
    AbsentMembers(PrepRequired, PrepColumns(df.columns));
    var missing := Absent(PrepRequired, PrepColumns(df.columns));
    if missing != [] {
      assert missing[0] in missing;
    }
  }

  /** Every screened row has its keys and year present, the year in
      [2000, 2100], its rates missing or in [0, 100], its salaries missing
      or non-negative and its key texts trimmed; and the screening only
      removes rows. */
  lemma ScreenedFacts(df: Frame)
    ensures forall r :: r in Screened(df) ==> Admissible(r)
    ensures forall r :: r in Screened(df) ==> r.year.Num? && 2000.0 <= r.year.v <= 2100.0
    ensures IsSubsequence(Screened(df), ReadRecords(PrepColumns(df.columns), df.rows))
  {
    FilterMembers(ReadRecords(PrepColumns(df.columns), df.rows), Admissible);
    FilterIsSubsequence(ReadRecords(PrepColumns(df.columns), df.rows), Admissible);
  }

  /** Every read row has its key columns as trimmed text. */
  lemma {:induction false} ReadRecordsTrimmed(columns: seq<string>, rows: seq<Cells>)
    ensures forall r :: r in ReadRecords(columns, rows) ==>
      r.university.Text? && IsStripped(r.university.s) && r.degree.Text? && IsStripped(r.degree.s)
  {
    if rows != [] {
      ReadRecordsTrimmed(columns, rows[..|rows| - 1]);
    }
  }

  /** The audit holds exactly the screened rows that are flagged, in order. */
  lemma AuditExact(df: Frame, strategy: Strategy)
    requires ReadAndPrepare(df, strategy).Success?
    ensures var p := ReadAndPrepare(df, strategy).value;
      && (forall r :: r in p.audit <==> r in Screened(df) && Bad(r))
      && IsSubsequence(p.audit, Screened(df))
  {
    FilterMembers(Screened(df), Bad);
    FilterIsSubsequence(Screened(df), Bad);
  }

  /** Under "clamp" the row count is unchanged, each row is its screened
      row clamped, and no prepared row is flagged or inadmissible. */
  lemma ClampStrategyFacts(df: Frame, strategy: Strategy)
    requires ReadAndPrepare(df, strategy).Success? && strategy == ClampPairs
    ensures var p := ReadAndPrepare(df, strategy).value;
      && |p.records| == |Screened(df)|
      && (forall k :: 0 <= k < |p.records| ==> p.records[k] == ClampRecord(Screened(df)[k]))
      && (forall k :: 0 <= k < |p.records| ==> !Bad(p.records[k]) && Admissible(p.records[k]))
  {
    var s := Screened(df);
    ScreenedFacts(df);
    forall k | 0 <= k < |s|
      ensures !Bad(ClampRecord(s[k])) && Admissible(ClampRecord(s[k]))
    {
      assert s[k] in s;
      ClampRecordFacts(s[k]);
    }
  }

  /** Under "drop" exactly the flagged rows are removed: the prepared rows
      are the unflagged screened rows in order, and they and the audit
      together account for every screened row. */
  lemma DropStrategyFacts(df: Frame, strategy: Strategy)
    requires ReadAndPrepare(df, strategy).Success? && strategy == DropRows
    ensures var p := ReadAndPrepare(df, strategy).value;
      && (forall r :: r in p.records <==> r in Screened(df) && !Bad(r))
      && IsSubsequence(p.records, Screened(df))
      && |p.records| + |p.audit| == |Screened(df)|
  {
    FilterMembers(Screened(df), NotBad);
    FilterIsSubsequence(Screened(df), NotBad);
    FilterComplement(Screened(df), Bad, NotBad);
  }

  /** Whatever the strategy, every prepared row is admissible. */
  lemma PreparedAdmissible(df: Frame, strategy: Strategy)
    requires ReadAndPrepare(df, strategy).Success?
    ensures forall r :: r in ReadAndPrepare(df, strategy).value.records ==> Admissible(r)
  {
    ScreenedFacts(df);
    var p := ReadAndPrepare(df, strategy).value;
    if strategy == ClampPairs {
      ClampStrategyFacts(df, strategy);
    } else if strategy == DropRows {
      FilterMembers(Screened(df), NotBad);
    }
  }

  // ---------------------------------------------------------------------
  // A missing university or degree survives the screening
  // ---------------------------------------------------------------------

  /** `dropna` on the raw key cells, as the comment at line 129 intends:
      a row whose university or degree is missing is dropped. */
  predicate RawKeysPresent(columns: seq<string>, row: Cells) {
    NotNa(Lookup(columns, row, "university")) && NotNa(Lookup(columns, row, "degree"))
  }

  function RawKeysMask(columns: seq<string>): Cells -> bool {
    (row: Cells) => RawKeysPresent(columns, row)
  }

  /** `read_and_prepare` with the key columns' `dropna` taken before their
      `astype(str)`. */
  function ReadAndPrepareFixed(df: Frame, strategy: Strategy): Result<Prepared, PrepareError> {
    ReadAndPrepare(Frame(df.columns, Filter(df.rows, RawKeysMask(PrepColumns(df.columns)))), strategy)
  }

  /** No required column is missing when every one is among the columns. */
  lemma NoneAbsent(columns: seq<string>)
    requires forall n :: n in PrepRequired ==> n in columns
    ensures Absent(PrepRequired, columns) == []
  {
    AbsentMembers(PrepRequired, columns);
  }

  /** The row read from a frame line with an empty university field. */
  lemma MissingUniversityRecord(cs: seq<string>, row: Cells)
    requires && Lookup(cs, row, "university") == Missing && Lookup(cs, row, "degree") == Text("CS")
      && Lookup(cs, row, "year") == Num(2020.0)
      && Lookup(cs, row, "employment_rate_overall") == Missing && Lookup(cs, row, "employment_rate_ft_perm") == Missing
      && Lookup(cs, row, "basic_monthly_mean") == Missing && Lookup(cs, row, "basic_monthly_median") == Missing
      && Lookup(cs, row, "gross_monthly_mean") == Missing && Lookup(cs, row, "gross_monthly_median") == Missing
    ensures ReadRecord(cs, row) == Record(Text("nan"), Text("CS"), Num(2020.0),
                                          Metrics(Missing, Missing, Missing, Missing, Missing, Missing))
  {
    StripOfStripped("CS");
    StripOfStripped("nan");
  }

  /** As written, `astype(str)` turns a missing university into the text
      "nan" before `dropna` looks at it: a row with no university but an
      otherwise valid year survives, keyed by "nan". */
  lemma MissingUniversityKept(df: Frame, row: Cells, strategy: Strategy)
    requires forall n :: n in PrepRequired ==> n in PrepColumns(df.columns)
    requires df.rows == [row]
    requires var cs := PrepColumns(df.columns);
      && Lookup(cs, row, "university") == Missing && Lookup(cs, row, "degree") == Text("CS")
      && Lookup(cs, row, "year") == Num(2020.0)
      && Lookup(cs, row, "employment_rate_overall") == Missing && Lookup(cs, row, "employment_rate_ft_perm") == Missing
      && Lookup(cs, row, "basic_monthly_mean") == Missing && Lookup(cs, row, "basic_monthly_median") == Missing
      && Lookup(cs, row, "gross_monthly_mean") == Missing && Lookup(cs, row, "gross_monthly_median") == Missing
    ensures var p := ReadAndPrepare(df, strategy);
      p.Success? && |p.value.records| == 1 && p.value.records[0].university == Text("nan")
  {
    var cs := PrepColumns(df.columns);
    NoneAbsent(cs);
    var r := Record(Text("nan"), Text("CS"), Num(2020.0), Metrics(Missing, Missing, Missing, Missing, Missing, Missing));
    assert ReadRecords(cs, df.rows) == [r] by {
      MissingUniversityRecord(cs, row);
    }
    NanRowSurvives(r, strategy);
    SingleRowPrepared(df, r, strategy);
  }

  /** The row keyed by "nan" survives the screening unflagged. */
  lemma NanRowSurvives(r: Record, strategy: Strategy)
    requires r == Record(Text("nan"), Text("CS"), Num(2020.0), Metrics(Missing, Missing, Missing, Missing, Missing, Missing))
    ensures Filter([r], Admissible) == [r] && Filter([r], Bad) == [] && ApplyStrategy([r], strategy) == [r]
  {
    FilterAll([r], Admissible);
    FilterNone([r], Bad);
    NoBadNoChange([r], strategy);
  }

  /** A frame whose only row survives the screening unflagged prepares to that row. */
  lemma SingleRowPrepared(df: Frame, r: Record, strategy: Strategy)
    requires Absent(PrepRequired, PrepColumns(df.columns)) == []
    requires ReadRecords(PrepColumns(df.columns), df.rows) == [r]
    requires Filter([r], Admissible) == [r] && Filter([r], Bad) == [] && ApplyStrategy([r], strategy) == [r]
    ensures ReadAndPrepare(df, strategy) == Success(Prepared([r], []))
  {
  }

  /** With the drop taken first, a row whose raw university or degree is
      missing contributes nothing, whatever the other rows are. */
  lemma FixedDropsMissingKeys(columns: seq<string>, rows: seq<Cells>, row: Cells, strategy: Strategy)
    requires !RawKeysPresent(PrepColumns(columns), row)
    ensures ReadAndPrepareFixed(Frame(columns, rows + [row]), strategy) == ReadAndPrepareFixed(Frame(columns, rows), strategy)
  {
    var mask := RawKeysMask(PrepColumns(columns));
    FilterAppend(rows, row, mask);
    assert Frame(columns, Filter(rows + [row], mask)) == Frame(columns, Filter(rows, mask));
  }

  /** On rows whose key cells are all present the correction changes nothing. */
  lemma FixedAgreesOnCompleteRows(df: Frame, strategy: Strategy)
    requires forall k :: 0 <= k < |df.rows| ==> RawKeysPresent(PrepColumns(df.columns), df.rows[k])
    ensures ReadAndPrepareFixed(df, strategy) == ReadAndPrepare(df, strategy)
  {
    FilterAll(df.rows, RawKeysMask(PrepColumns(df.columns)));
  }

  // ---------------------------------------------------------------------
  // The tables
  // ---------------------------------------------------------------------

  /** `ck_year_range` */
  predicate YearAllowed(y: int) {
    2000 <= y <= 2100
  }

  /** The three dimension tables. */
  datatype Dims = Dims(universities: KeyedTable<string>, programmes: KeyedTable<(nat, string)>,
                       years: KeyedTable<int>)

  ghost predicate DimsValid(d: Dims) {
    && Tables.Valid(d.universities) && Tables.Valid(d.programmes) && Tables.Valid(d.years)
    && (forall y :: y in d.years.ids ==> YearAllowed(y))
  }

  /** `df["university"].dropna().unique()`, in order of first appearance. */
  function UniversityNames(recs: seq<Record>): seq<string> {
    if recs == [] then []
    else
      var r := recs[|recs| - 1];
      UniversityNames(recs[..|recs| - 1]) + if NotNa(r.university) then [CellText(r.university)] else []
  }

  /** `df["year"].dropna().astype(int).unique()`, less the years whose
      insert fails `ck_year_range`, which INSERT OR IGNORE skips. */
  function SurveyYears(recs: seq<Record>): seq<int> {
    if recs == [] then []
    else
      var r := recs[|recs| - 1];
      SurveyYears(recs[..|recs| - 1]) + if r.year.Num? && YearAllowed(Trunc(r.year.v)) then [Trunc(r.year.v)] else []
  }

  /** `prows`: for each row whose university is in the table, its
      university id and degree text. */
  function ProgrammeKeys(universities: KeyedTable<string>, recs: seq<Record>): seq<(nat, string)> {
    if recs == [] then []
    else ProgrammeKeys(universities, recs[..|recs| - 1]) + ProgrammeKey(universities, recs[|recs| - 1])
  }

  function ProgrammeKey(universities: KeyedTable<string>, r: Record): seq<(nat, string)> {
    if CellText(r.university) in universities.ids then [(universities.ids[CellText(r.university)], CellText(r.degree))]
    else []
  }

  /** `upsert_dim_tables` on the tables. */
  function UpsertDims(d: Dims, recs: seq<Record>): Dims {
    var u := InsertAllOrIgnore(d.universities, UniversityNames(recs));
    Dims(u, InsertAllOrIgnore(d.programmes, ProgrammeKeys(u, recs)), InsertAllOrIgnore(d.years, SurveyYears(recs)))
  }

  lemma {:induction false} UniversityNamesMembers(recs: seq<Record>)
    ensures forall n :: n in UniversityNames(recs) <==>
      exists k :: 0 <= k < |recs| && NotNa(recs[k].university) && CellText(recs[k].university) == n
  {
    if recs != [] {
      var m := |recs| - 1;
      UniversityNamesMembers(recs[..m]);
      forall n | exists k :: 0 <= k < |recs| && NotNa(recs[k].university) && CellText(recs[k].university) == n
        ensures n in UniversityNames(recs)
      {
        var k :| 0 <= k < |recs| && NotNa(recs[k].university) && CellText(recs[k].university) == n;
        if k < m {
          assert recs[..m][k] == recs[k];
        }
      }
    }
  }

  lemma {:induction false} SurveyYearsMembers(recs: seq<Record>)
    ensures forall y :: y in SurveyYears(recs) <==>
      YearAllowed(y) && exists k :: 0 <= k < |recs| && recs[k].year.Num? && Trunc(recs[k].year.v) == y
  {
    if recs != [] {
      var m := |recs| - 1;
      SurveyYearsMembers(recs[..m]);
      forall y | YearAllowed(y) && exists k :: 0 <= k < |recs| && recs[k].year.Num? && Trunc(recs[k].year.v) == y
        ensures y in SurveyYears(recs)
      {
        var k :| 0 <= k < |recs| && recs[k].year.Num? && Trunc(recs[k].year.v) == y;
        if k < m {
          assert recs[..m][k] == recs[k];
        }
      }
    }
  }

  /** Dimension loading keeps ids unique, never renumbers a row, stores no
      year outside [2000, 2100], and leaves the university and year tables
      holding exactly the old values and the distinct values of the rows. */
  lemma UpsertDimsFacts(d: Dims, recs: seq<Record>)
    requires DimsValid(d)
    ensures var d' := UpsertDims(d, recs);
      && DimsValid(d')
      && Extends(d.universities, d'.universities) && Extends(d.programmes, d'.programmes)
      && Extends(d.years, d'.years)
      && (forall n :: n in d'.universities.ids <==> (n in d.universities.ids ||
            exists k :: 0 <= k < |recs| && NotNa(recs[k].university) && CellText(recs[k].university) == n))
      && (forall y :: y in d'.years.ids <==> (y in d.years.ids ||
            (YearAllowed(y) && exists k :: 0 <= k < |recs| && recs[k].year.Num? && Trunc(recs[k].year.v) == y)))
  {
    var u := InsertAllOrIgnore(d.universities, UniversityNames(recs));
    InsertAllOrIgnoreValid(d.universities, UniversityNames(recs));
    InsertAllOrIgnoreValid(d.programmes, ProgrammeKeys(u, recs));
    InsertAllOrIgnoreValid(d.years, SurveyYears(recs));
    UniversityNamesMembers(recs);
    SurveyYearsMembers(recs);
  }

  /** Loading the dimensions a second time changes nothing. */
  lemma UpsertDimsIdempotent(d: Dims, recs: seq<Record>)
    ensures UpsertDims(UpsertDims(d, recs), recs) == UpsertDims(d, recs)
  {
    var d1 := UpsertDims(d, recs);
    InsertAllOrIgnoreIdempotent(d.universities, UniversityNames(recs));
    InsertAllOrIgnoreIdempotent(d.programmes, ProgrammeKeys(d1.universities, recs));
    InsertAllOrIgnoreIdempotent(d.years, SurveyYears(recs));
  }

  // ---------------------------------------------------------------------
  // The fact table
  // ---------------------------------------------------------------------

  /** `a <= b` in SQL on two stored values; a NULL makes the CHECK pass. */
  predicate NotBelow(a: Cell, b: Cell) {
    a.Missing? || b.Missing? || !LessBy(a, 0.0, b)
  }

  /** The CHECK constraints of `survey_result`, lines 69-91: rates in
      [0, 100], the full-time rate not above the overall one, salaries
      non-negative and gross not below basic, each holding vacuously on a
      NULL (sqlite3 stores NaN as NULL). */
  predicate ResultChecks(m: Metrics) {
    && RateOk(m.empOverall) && RateOk(m.empFtPerm)
    && NotBelow(m.empOverall, m.empFtPerm)
    && SalaryOk(m.basicMean) && SalaryOk(m.basicMedian) && SalaryOk(m.grossMean) && SalaryOk(m.grossMedian)
    && NotBelow(m.grossMean, m.basicMean) && NotBelow(m.grossMedian, m.basicMedian)
  }

  /** INSERT OR IGNORE skips a row that fails a CHECK as it skips a duplicate. */
  predicate ItemPasses(item: (FactKey, Metrics)) {
    ResultChecks(item.1)
  }

  /** Lines 235-238: the programme and year ids a row resolves to, if both
      exist. */
  function Resolve(d: Dims, r: Record): Option<FactKey> {
    var u := CellText(r.university);
    if u !in d.universities.ids then None
    else if (d.universities.ids[u], CellText(r.degree)) !in d.programmes.ids then None
    else if !r.year.Num? || Trunc(r.year.v) !in d.years.ids then None
    else Some((d.programmes.ids[(d.universities.ids[u], CellText(r.degree))], d.years.ids[Trunc(r.year.v)]))
  }

  /** `rows`: the key and measures of every row that resolves, in order. */
  function FactItems(d: Dims, recs: seq<Record>): seq<(FactKey, Metrics)> {
    if recs == [] then []
    else
      var r := recs[|recs| - 1];
      FactItems(d, recs[..|recs| - 1]) + match Resolve(d, r) case Some(k) => [(k, r.m)] case None => []
  }

  /** `load_fact_table` on the fact table. */
  function LoadFacts(d: Dims, t: FactTable<Metrics>, recs: seq<Record>): FactTable<Metrics> {
    InsertAllOrIgnoreFacts(t, Filter(FactItems(d, recs), ItemPasses))
  }

  /** A row that does not resolve is skipped. */
  lemma UnresolvedSkipped(d: Dims, recs: seq<Record>, r: Record)
    requires Resolve(d, r).None?
    ensures FactItems(d, recs + [r]) == FactItems(d, recs)
  {
    assert (recs + [r])[..|recs|] == recs;
  }

  /** Loading keeps the (programme, year) key unique; a key already holding
      a result keeps it; a new key holds the measures of the FIRST row that
      resolves to it and passes the CHECKs; and every stored result passes
      the CHECKs. */
  lemma LoadFactsFirstWins(d: Dims, t: FactTable<Metrics>, recs: seq<Record>, key: FactKey)
    requires ValidFacts(t)
    ensures ValidFacts(LoadFacts(d, t, recs))
    ensures ValueAt(LoadFacts(d, t, recs), key) ==
      if ValueAt(t, key).Some? then ValueAt(t, key) else FirstValue(Filter(FactItems(d, recs), ItemPasses), key)
    ensures ValueAt(t, key).None? && ValueAt(LoadFacts(d, t, recs), key).Some? ==>
      ResultChecks(ValueAt(LoadFacts(d, t, recs), key).value)
  {
    var items := Filter(FactItems(d, recs), ItemPasses);
    InsertAllOrIgnoreFactsValid(t, items);
    FirstWins(t, items, key);
    FirstValueIn(items, key);
    FilterMembers(FactItems(d, recs), ItemPasses);
  }

  /** A row whose gross median is less than EPS below its basic median is
      neither flagged nor clamped, passes the screening, and then fails
      `ck_salary_logic`, so INSERT OR IGNORE never stores it. */
  lemma NearMissNotStored()
    ensures var r := Record(Text("NUS"), Text("CS"), Num(2020.0),
                            Metrics(Missing, Missing, Missing, Num(3000.0), Missing, Num(2999.9999995)));
      Admissible(r) && !Bad(r) && !ResultChecks(r.m)
  {
  }

  /** Every prepared row has a finite year, as `load_fact_table` and
      `upsert_dim_tables` need. */
  lemma PreparedYearsFinite(df: Frame, strategy: Strategy)
    requires ReadAndPrepare(df, strategy).Success?
    ensures forall k :: 0 <= k < |ReadAndPrepare(df, strategy).value.records| ==>
      ReadAndPrepare(df, strategy).value.records[k].year.Num?
  {
    PreparedAdmissible(df, strategy);
    var recs := ReadAndPrepare(df, strategy).value.records;
    forall k | 0 <= k < |recs|
      ensures recs[k].year.Num?
    {
      assert recs[k] in recs;
    }
  }

  // ---------------------------------------------------------------------
  // The connection
  // ---------------------------------------------------------------------

  /** The database of the second pipeline. */
  class SurveyDb {
    var universities: KeyedTable<string>
    var programmes: KeyedTable<(nat, string)>
    var years: KeyedTable<int>
    var results: FactTable<Metrics>

    function DimTables(): Dims
      reads this
    {
      Dims(universities, programmes, years)
    }

    ghost predicate Valid()
      reads this
    {
      DimsValid(DimTables()) && ValidFacts(results)
    }

    /** `create_schema`: the tables dropped and created empty. */
    constructor()
      ensures Valid()
      ensures universities.ids == map[] && programmes.ids == map[] && years.ids == map[] && results.rows == []
    {
      universities := EmptyTable();
      programmes := EmptyTable();
      years := EmptyTable();
      results := EmptyFacts();
    }

    /** `upsert_dim_tables`: universities, then years, then the programme
        rows built by the loop over the rows. `astype(int)` raises on an
        infinite year. */
    method UpsertDimTables(recs: seq<Record>)
      requires Valid()
      requires forall k :: 0 <= k < |recs| ==> !recs[k].year.Inf?
      modifies this
      ensures Valid()
      ensures DimTables() == UpsertDims(old(DimTables()), recs)
      ensures results == old(results)
    {
      ghost var d := DimTables();
      UpsertDimsFacts(d, recs);
      universities := InsertAllOrIgnore(universities, UniversityNames(recs));
      years := InsertAllOrIgnore(years, SurveyYears(recs));
      var prows: seq<(nat, string)> := [];
      for i := 0 to |recs|
        invariant prows == ProgrammeKeys(universities, recs[..i])
      {
        assert recs[..i + 1][..i] == recs[..i];
        var u := CellText(recs[i].university);
        if u in universities.ids {
          prows := prows + [(universities.ids[u], CellText(recs[i].degree))];
        }
      }
      assert recs[..|recs|] == recs;
      programmes := InsertAllOrIgnore(programmes, prows);
    }

    /** `load_fact_table`: the loop resolves each row and collects those
        that resolve, then one batch of INSERT OR IGNORE. `int(r["year"])`
        raises on a missing or infinite year. */
    method LoadFactTable(recs: seq<Record>)
      requires Valid()
      requires forall k :: 0 <= k < |recs| ==> recs[k].year.Num?
      modifies this
      ensures Valid()
      ensures results == LoadFacts(old(DimTables()), old(results), recs)
      ensures DimTables() == old(DimTables())
    {
      var rows: seq<(FactKey, Metrics)> := [];
      for i := 0 to |recs|
        invariant rows == FactItems(DimTables(), recs[..i])
      {
        assert recs[..i + 1][..i] == recs[..i];
        var r := recs[i];
        var u := CellText(r.university);
        var uId: Option<nat> := if u in universities.ids then Some(universities.ids[u]) else None;
        var pId: Option<nat> := None;
        if uId.Some? && (uId.value, CellText(r.degree)) in programmes.ids {
          pId := Some(programmes.ids[(uId.value, CellText(r.degree))]);
        }
        var y := Trunc(r.year.v);
        var yId: Option<nat> := if y in years.ids then Some(years.ids[y]) else None;
        if pId.Some? && yId.Some? {
          rows := rows + [((pId.value, yId.value), r.m)];
        }
      }
      assert recs[..|recs|] == recs;
      InsertAllOrIgnoreFactsValid(results, Filter(rows, ItemPasses));
      results := InsertAllOrIgnoreFacts(results, Filter(rows, ItemPasses));
    }
  }
}

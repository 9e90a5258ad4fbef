/**
 * The ORM loader: survey rows are read from a frame, then upserted through a
 * session into four tables (university, programme, survey year, survey
 * result), after which results whose gross median is below the basic median
 * are audited and clamped.
 *
 * The session's tables are fields of `Session`; SQLite's CHECK constraints
 * are evaluated when a row reaches the table, and a violation aborts the
 * whole transaction.
 */
module OrmLoader {
  import opened Wrappers
  import opened Strings
  import opened Frames
  import opened Tables
  import EmploymentRecords

  // ---------------------------------------------------------------------
  // Cell conversion
  // ---------------------------------------------------------------------

  /** `_as_float`: a missing, infinite or unreadable value becomes `None`. */
  function AsFloat(c: Cell): Option<real> {
    match c
    case Num(v) => Some(v)
    case Text(s) => ParseDecimal(Strip(s))
    case _ => None
  }

  /** On text whose only whitespace is ASCII, `_as_float` agrees with
      `pd.to_numeric(errors="coerce")`: a value is read exactly when coercion
      yields a finite number, and it is that number. */
  lemma AsFloatIsToNumeric(c: Cell)
    requires c.Text? ==> OnlyAsciiSpace(c.s)
    ensures AsFloat(c).Some? <==> ToNumeric(c).Num?
    ensures AsFloat(c).Some? ==> AsFloat(c).value == ToNumeric(c).v
  {
    if c.Text? {
      StripAsciiIsStrip(c.s);
    }
  }

  /** Elsewhere they part: `float()` strips a trailing no-break space and
      reads 12, while `to_numeric` keeps it and gives missing. */
  lemma AsFloatDisagreesOnNoBreakSpace()
    ensures AsFloat(Text("12\U{00A0}")) == Some(12.0)
    ensures ToNumeric(Text("12\U{00A0}")) == Missing
  {
    StripAsciiKeepsNoBreakSpace();
    ParseDecimalNatText(12);
    assert NatText(12) == "12";
  }

  /** A number written out in decimal, with any surrounding whitespace, reads back. */
  lemma AsFloatText(n: nat, pre: string, post: string)
    requires forall k :: 0 <= k < |pre| ==> IsSpace(pre[k])
    requires forall k :: 0 <= k < |post| ==> IsSpace(post[k])
    ensures AsFloat(Text(pre + NatText(n) + post)) == Some(n as real)
  {
    var t := NatText(n);
    assert !IsSpace(t[0]) && !IsSpace(t[|t| - 1]);
    StripPadded(pre, t, post);
    ParseDecimalNatText(n);
  }

  predicate YearInRange(y: int) {
    2000 <= y <= 2100
  }

  /** `_clean_year`: the year as an integer when it lies in [2000, 2100]. */
  function CleanYear(c: Cell): (r: Option<int>)
    ensures r.Some? ==> YearInRange(r.value)
  {
    match IntOf(c)
    case Some(y) => if YearInRange(y) then Some(y) else None
    case None => None
  }

  /** On a whole number the cleaned year is that number exactly when it is in range. */
  lemma CleanYearIntegral(v: real)
    requires IsIntegral(v)
    ensures CleanYear(Num(v)).Some? <==> 2000.0 <= v <= 2100.0
    ensures CleanYear(Num(v)).Some? ==> CleanYear(Num(v)).value as real == v
  {
  }

  /** A year written as text is accepted exactly when it is in range, and read back exactly. */
  lemma CleanYearText(y: int)
    ensures CleanYear(Text(IntText(y))).Some? <==> YearInRange(y)
    ensures CleanYear(Text(IntText(y))).Some? ==> CleanYear(Text(IntText(y))).value == y
  {
    var s := IntText(y);
    ParseIntegerIntText(y);
    if y < 0 {
      assert !IsSpace(s[0]);
      assert !IsSpace(s[|s| - 1]) by { assert s[|s| - 1] == NatText(-y)[|NatText(-y)| - 1]; }
    } else {
      assert !IsSpace(s[0]) && !IsSpace(s[|s| - 1]);
    }
    StripOfStripped(s);
  }

  /** `int()` truncates rather than rejecting a fraction: 2020.9 is year 2020. */
  lemma CleanYearTruncates()
    ensures CleanYear(Num(2020.9)) == Some(2020)
    ensures CleanYear(Num(1999.5)) == None
  {
  }

  // ---------------------------------------------------------------------
  // Parsing the frame
  // ---------------------------------------------------------------------

  /** The four measures of a survey result. */
  datatype Metrics = Metrics(empOverall: Option<real>, empFtPerm: Option<real>,
                             basicMedian: Option<real>, grossMedian: Option<real>)

  /** The `Row` dataclass. */
  datatype SurveyRow = SurveyRow(university: string, programme: string, year: int, metrics: Metrics)

  /** The rename map: only the full-time column changes name. */
  function RenameColumn(name: string): string {
    if name == "employment_fulltime_permanent" then "employment_ft_perm" else name
  }

  function RenameColumns(columns: seq<string>): (r: seq<string>)
    ensures |r| == |columns|
  {
    MapSeq(columns, RenameColumn)
  }

  const Required: seq<string> := ["university", "programme", "year", "employment_overall",
                                  "employment_ft_perm", "basic_monthly_median", "gross_monthly_median"]

  datatype ParseError = MissingColumns(names: seq<string>)

  /** One frame row as a survey row, or `None` when its year does not clean. */
  function ParseRow(columns: seq<string>, row: Cells): (r: Option<SurveyRow>)
    ensures r.Some? <==> CleanYear(Lookup(columns, row, "year")).Some?
    ensures r.Some? ==>
      && r.value.year == CleanYear(Lookup(columns, row, "year")).value
      && YearInRange(r.value.year)
      && IsStripped(r.value.university) && IsStripped(r.value.programme)
  {
    match CleanYear(Lookup(columns, row, "year"))
    case None => None
    case Some(y) =>
      Some(SurveyRow(Strip(CellText(Lookup(columns, row, "university"))),
                     Strip(CellText(Lookup(columns, row, "programme"))),
                     y,
                     Metrics(AsFloat(Lookup(columns, row, "employment_overall")),
                             AsFloat(Lookup(columns, row, "employment_ft_perm")),
                             AsFloat(Lookup(columns, row, "basic_monthly_median")),
                             AsFloat(Lookup(columns, row, "gross_monthly_median")))))
  }

  /** The survey rows of a frame's rows, in order, skipping rows without a valid year. */
  function ParseRows(columns: seq<string>, rows: seq<Cells>): (out: seq<SurveyRow>)
    ensures |out| <= |rows|
    ensures forall k :: 0 <= k < |out| ==>
      YearInRange(out[k].year) && IsStripped(out[k].university) && IsStripped(out[k].programme)
  {
    if rows == [] then []
    else ParseRows(columns, rows[..|rows| - 1]) + OptionSeq(ParseRow(columns, rows[|rows| - 1]))
  }

  /** The row mask "the year cleans". */
  function HasCleanYear(columns: seq<string>): Cells -> bool {
    (row: Cells) => CleanYear(Lookup(columns, row, "year")).Some?
  }

  /** Exactly the rows with a valid year survive. */
  lemma {:induction false} ParseRowsCount(columns: seq<string>, rows: seq<Cells>)
    ensures |ParseRows(columns, rows)| == |Filter(rows, HasCleanYear(columns))|
  {
    if rows != [] {
      var init := rows[..|rows| - 1];
      var last := rows[|rows| - 1];
      ParseRowsCount(columns, init);
      SplitLast(rows);
      FilterAppend(init, last, HasCleanYear(columns));
      assert |OptionSeq(ParseRow(columns, last))| == if HasCleanYear(columns)(last) then 1 else 0;
    }
  }

  /** `[c for c in required if c not in df2.columns]`: the required columns
      the frame lacks, in the order they are required. */
  function MissingRequired(columns: seq<string>): seq<string> {
    Absent(Required, columns)
  }

  lemma MissingRequiredMembers(columns: seq<string>)
    ensures forall c :: c in MissingRequired(columns) <==> c in Required && c !in columns
  {
    AbsentMembers(Required, columns);
  }

  /** Parsing one more frame row appends its survey row, if it has one. */
  lemma ParseRowsNext(columns: seq<string>, rows: seq<Cells>, i: nat)
    requires i < |rows|
    ensures ParseRows(columns, rows[..i + 1]) == ParseRows(columns, rows[..i]) + OptionSeq(ParseRow(columns, rows[i]))
  {
    PrefixOfPrefix(rows, i);
  }

  /** `parse_dataframe`: refuses a frame lacking a required column (after
      the rename), naming the missing ones; otherwise parses every row. */
  method ParseDataframe(df: Frame) returns (r: Result<seq<SurveyRow>, ParseError>)
    ensures r.Failure? <==> MissingRequired(RenameColumns(df.columns)) != []
    ensures r.Failure? ==> r.error == MissingColumns(MissingRequired(RenameColumns(df.columns)))
    ensures r.Success? ==> r.value == ParseRows(RenameColumns(df.columns), df.rows)
  {
    var columns := RenameColumns(df.columns);
    var missing := MissingRequired(columns);
    if missing != [] {
      return Failure(MissingColumns(missing));
    }
    var rows: seq<SurveyRow> := [];
    var i := 0;
    while i < |df.rows|
      invariant 0 <= i <= |df.rows|
      invariant rows == ParseRows(columns, df.rows[..i])
    {
      var row := ParseRow(columns, df.rows[i]);
      ParseRowsNext(columns, df.rows, i);
      rows := rows + OptionSeq(row);
      i := i + 1;
    }
    assert df.rows[..i] == df.rows;
    return Success(rows);
  }

  // ---------------------------------------------------------------------
  // Constraints of survey_result and survey_year
  // ---------------------------------------------------------------------

  predicate GrossGeBasic(m: Metrics) {
    m.grossMedian.None? || m.basicMedian.None? || m.grossMedian.value >= m.basicMedian.value
  }

  /** The CHECK constraints of survey_result; `withGross` includes ck_gross_ge_basic. */
  predicate PassesChecks(m: Metrics, withGross: bool) {
    && EmploymentRecords.IsRateValid(m.empOverall)
    && EmploymentRecords.IsRateValid(m.empFtPerm)
    && EmploymentRecords.IsNonNegative(m.basicMedian)
    && EmploymentRecords.IsNonNegative(m.grossMedian)
    && (withGross ==> GrossGeBasic(m))
  }

  /** A row the database accepts: its year passes ck_year_range and its
      measures pass the result constraints. */
  predicate Admissible(row: SurveyRow, withGross: bool) {
    YearInRange(row.year) && PassesChecks(row.metrics, withGross)
  }

  /** A stored result, seen as an employment record, passes the record sanity checks. */
  lemma ChecksMakeSaneRecord(m: Metrics, id: nat, degreeId: nat, yearId: nat)
    requires PassesChecks(m, true)
    ensures EmploymentRecords.IsSaneRecord(
      EmploymentRecords.Blank(id, degreeId, yearId).(employmentRateOverall := m.empOverall,
        employmentRateFtPerm := m.empFtPerm, basicMonthlyMedian := m.basicMedian,
        grossMonthlyMedian := m.grossMedian))
  {
  }

  // ---------------------------------------------------------------------
  // Audit and clamp
  // ---------------------------------------------------------------------

  /** Both medians known and gross below basic. */
  predicate Violates(f: Fact<Metrics>) {
    f.values.grossMedian.Some? && f.values.basicMedian.Some? &&
    f.values.grossMedian.value < f.values.basicMedian.value
  }

  /** One line of the audit file: the result and its original medians. */
  datatype AuditEntry = AuditEntry(resultId: nat, programmeId: nat, yearId: nat, gross: real, basic: real)

  function Entry(f: Fact<Metrics>): AuditEntry
    requires Violates(f)
  {
    AuditEntry(f.id, f.key.0, f.key.1, f.values.grossMedian.value, f.values.basicMedian.value)
  }

  /** The soft fix: a violating result gets its gross median set to its basic median. */
  function Clamp(f: Fact<Metrics>): (r: Fact<Metrics>)
    ensures r.id == f.id && r.key == f.key
    ensures GrossGeBasic(r.values)
    ensures !Violates(f) ==> r == f
    ensures Violates(f) ==> r.values == f.values.(grossMedian := f.values.basicMedian)
  {
    if Violates(f) then f.(values := f.values.(grossMedian := f.values.basicMedian)) else f
  }

  function ClampAll(rows: seq<Fact<Metrics>>): (r: seq<Fact<Metrics>>)
    ensures |r| == |rows|
    ensures forall k :: 0 <= k < |rows| ==> r[k] == Clamp(rows[k])
  {
    seq(|rows|, k requires 0 <= k < |rows| => Clamp(rows[k]))
  }

  /** The audit lines of `rows`: one per violating result, in order. */
  function AuditOf(rows: seq<Fact<Metrics>>): seq<AuditEntry> {
    if rows == [] then []
    else
      var last := rows[|rows| - 1];
      AuditOf(rows[..|rows| - 1]) + (if Violates(last) then [Entry(last)] else [])
  }

  /** The audit has one line per violating result, every violating result
      is listed with its original medians, and every line comes from one. */
  lemma {:induction false} AuditOfLists(rows: seq<Fact<Metrics>>)
    ensures |AuditOf(rows)| == |Filter(rows, Violates)|
    ensures forall k :: 0 <= k < |rows| && Violates(rows[k]) ==> Entry(rows[k]) in AuditOf(rows)
    ensures forall e :: e in AuditOf(rows) ==>
              exists k :: 0 <= k < |rows| && Violates(rows[k]) && Entry(rows[k]) == e
  {
    if rows != [] {
      var n := |rows| - 1;
      AuditOfLists(rows[..n]);
      SplitLast(rows);
      FilterAppend(rows[..n], rows[n], Violates);
      forall e | e in AuditOf(rows)
        ensures exists k :: 0 <= k < |rows| && Violates(rows[k]) && Entry(rows[k]) == e
      {
        if e in AuditOf(rows[..n]) {
          var k :| 0 <= k < n && Violates(rows[..n][k]) && Entry(rows[..n][k]) == e;
          assert rows[k] == rows[..n][k];
        } else {
          assert Violates(rows[n]) && Entry(rows[n]) == e;
        }
      }
      forall k | 0 <= k < |rows| && Violates(rows[k])
        ensures Entry(rows[k]) in AuditOf(rows)
      {
        if k < n {
          assert rows[..n][k] == rows[k];
        }
      }
    }
  }

  /** Clamping keeps every key and id, so the table stays valid. */
  lemma ClampAllValid(t: FactTable<Metrics>)
    requires ValidFacts(t)
    ensures ValidFacts(FactTable(ClampAll(t.rows), t.next))
  {
    var c := ClampAll(t.rows);
    forall a, b
      ensures RowsDiffer(c, a, b)
    {
      assert RowsDiffer(t.rows, a, b);
    }
  }

  /** When no stored result has gross below basic, the audit is empty. */
  lemma {:induction false} AuditEmptyUnderChecks(rows: seq<Fact<Metrics>>)
    requires forall k :: 0 <= k < |rows| ==> GrossGeBasic(rows[k].values)
    ensures AuditOf(rows) == []
  {
    if rows != [] {
      AuditEmptyUnderChecks(rows[..|rows| - 1]);
    }
  }

  /** A second audit after the clamp finds nothing. */
  lemma AuditAfterClampEmpty(rows: seq<Fact<Metrics>>)
    ensures AuditOf(ClampAll(rows)) == []
  {
    AuditEmptyUnderChecks(ClampAll(rows));
  }

  /** Stored results that pass the constraints other than ck_gross_ge_basic
      pass all of them once clamped. */
  lemma ClampRestoresChecks(f: Fact<Metrics>)
    requires PassesChecks(f.values, false)
    ensures PassesChecks(Clamp(f).values, true)
  {
  }

  // ---------------------------------------------------------------------
  // Keys of the load loop
  // ---------------------------------------------------------------------

  /** A row's natural key: university name, programme name, year. */
  type NaturalKey = (string, string, int)

  function KeyOf(row: SurveyRow): NaturalKey {
    (row.university, row.programme, row.year)
  }

  /** The university names of `rows`. */
  function UniversityNames(rows: seq<SurveyRow>): (r: set<string>)
    ensures forall j :: 0 <= j < |rows| ==> rows[j].university in r
  {
    if rows == [] then {} else UniversityNames(rows[..|rows| - 1]) + {rows[|rows| - 1].university}
  }

  /** The survey years of `rows`. */
  function SurveyYears(rows: seq<SurveyRow>): (r: set<int>)
    ensures forall j :: 0 <= j < |rows| ==> rows[j].year in r
  {
    if rows == [] then {} else SurveyYears(rows[..|rows| - 1]) + {rows[|rows| - 1].year}
  }

  /** The items the load loop writes: each row's natural key and measures. */
  function Items(rows: seq<SurveyRow>): (r: seq<(NaturalKey, Metrics)>)
    ensures |r| == |rows|
    ensures forall k :: 0 <= k < |rows| ==> r[k] == (KeyOf(rows[k]), rows[k].metrics)
  {
    MapSeq(rows, (row: SurveyRow) => (KeyOf(row), row.metrics))
  }

  lemma ItemsSplitLast(rows: seq<SurveyRow>)
    requires rows != []
    ensures Items(rows) == Items(rows[..|rows| - 1]) + [(KeyOf(rows[|rows| - 1]), rows[|rows| - 1].metrics)]
  {
  }

  /** `nk` resolves through the three dimension tables to fact key `fk`. */
  ghost predicate Resolves(unis: KeyedTable<string>, progs: KeyedTable<(nat, string)>, years: KeyedTable<int>,
                           nk: NaturalKey, fk: FactKey) {
    && nk.0 in unis.ids
    && (unis.ids[nk.0], nk.1) in progs.ids
    && nk.2 in years.ids
    && fk == (progs.ids[(unis.ids[nk.0], nk.1)], years.ids[nk.2])
  }

  /** Distinct natural keys resolve to distinct fact keys, because every
      dimension table gives distinct keys distinct ids. */
  lemma ResolveInjective(unis: KeyedTable<string>, progs: KeyedTable<(nat, string)>, years: KeyedTable<int>,
                         resolve: map<NaturalKey, FactKey>)
    requires Tables.Valid(unis) && Tables.Valid(progs) && Tables.Valid(years)
    requires forall n :: n in resolve ==> Resolves(unis, progs, years, n, resolve[n])
    ensures Injective(resolve)
  {
    forall n, n' | n in resolve && n' in resolve && resolve[n] == resolve[n']
      ensures n == n'
    {
      assert Resolves(unis, progs, years, n, resolve[n]);
      assert Resolves(unis, progs, years, n', resolve[n']);
      var u, u' := unis.ids[n.0], unis.ids[n'.0];
      assert DistinctIds(progs, (u, n.1), (u', n'.1));
      assert DistinctIds(years, n.2, n'.2);
      assert DistinctIds(unis, n.0, n'.0);
    }
  }

  /** Growing the dimension tables keeps every resolution. */
  lemma ResolvesExtends(unis: KeyedTable<string>, progs: KeyedTable<(nat, string)>, years: KeyedTable<int>,
                        unis': KeyedTable<string>, progs': KeyedTable<(nat, string)>, years': KeyedTable<int>,
                        resolve: map<NaturalKey, FactKey>)
    requires Extends(unis, unis') && Extends(progs, progs') && Extends(years, years')
    requires forall n :: n in resolve ==> Resolves(unis, progs, years, n, resolve[n])
    ensures forall n :: n in resolve ==> Resolves(unis', progs', years', n, resolve[n])
  {
    forall n | n in resolve
      ensures Resolves(unis', progs', years', n, resolve[n])
    {
      assert Resolves(unis, progs, years, n, resolve[n]);
    }
  }

  /** Every stored result passes the result constraints. */
  ghost predicate AllPass(t: FactTable<Metrics>, withGross: bool) {
    forall k :: ValueAt(t, k).Some? ==> PassesChecks(ValueAt(t, k).value, withGross)
  }

  /** Writing values that pass the constraints keeps every stored result passing. */
  lemma UpsertKeepsAllPass(t: FactTable<Metrics>, key: FactKey, m: Metrics, withGross: bool)
    requires ValidFacts(t) && AllPass(t, withGross) && PassesChecks(m, withGross)
    ensures AllPass(Upsert(t, key, m), withGross)
  {
    var t' := Upsert(t, key, m);
    UpsertFacts(t, key, m);
    forall k | ValueAt(t', k).Some?
      ensures PassesChecks(ValueAt(t', k).value, withGross)
    {
      if k != key {
        assert ValueAt(t', k) == ValueAt(t, k);
      }
    }
  }

  /** Results passing every constraint pass those without ck_gross_ge_basic. */
  lemma AllPassWithoutGross(t: FactTable<Metrics>)
    requires AllPass(t, true)
    ensures AllPass(t, false)
  {
    forall k | ValueAt(t, k).Some?
      ensures PassesChecks(ValueAt(t, k).value, false)
    {
      assert PassesChecks(ValueAt(t, k).value, true);
    }
  }

  /** One upsert of the load loop keeps its bookkeeping: every natural key
      seen resolves, the last row per natural key wins, and results no
      natural key resolves to keep their initial values. */
  lemma LoadStep(unis: KeyedTable<string>, progs: KeyedTable<(nat, string)>, years: KeyedTable<int>,
                 initial: FactTable<Metrics>, before: FactTable<Metrics>, resolve: map<NaturalKey, FactKey>,
                 items: seq<(NaturalKey, Metrics)>, nk: NaturalKey, fk: FactKey, m: Metrics)
    requires Tables.Valid(unis) && Tables.Valid(progs) && Tables.Valid(years) && ValidFacts(before)
    requires forall n :: n in resolve ==> Resolves(unis, progs, years, n, resolve[n])
    requires Resolves(unis, progs, years, nk, fk)
    requires LastWins(before, resolve, items)
    requires forall k :: (forall n :: n in resolve ==> resolve[n] != k) ==> ValueAt(before, k) == ValueAt(initial, k)
    ensures var after := Upsert(before, fk, m);
      var resolve' := resolve[nk := fk];
      && (forall n :: n in resolve' ==> Resolves(unis, progs, years, n, resolve'[n]))
      && LastWins(after, resolve', items + [(nk, m)])
      && (forall k :: (forall n :: n in resolve' ==> resolve'[n] != k) ==> ValueAt(after, k) == ValueAt(initial, k))
  {
    var after := Upsert(before, fk, m);
    UpsertFacts(before, fk, m);
    var resolve' := resolve[nk := fk];
    ResolveInjective(unis, progs, years, resolve');
    LastWinsStep(before, after, resolve, resolve', items, nk, m);
    forall k | (forall n :: n in resolve' ==> resolve'[n] != k)
      ensures ValueAt(after, k) == ValueAt(initial, k)
    {
      assert resolve'[nk] != k;
    }
  }

  // ---------------------------------------------------------------------
  // The load loop, as a function of the tables
  // ---------------------------------------------------------------------

  /** The four tables of the schema. */
  datatype Db = Db(universities: KeyedTable<string>, programmes: KeyedTable<(nat, string)>,
                   years: KeyedTable<int>, results: FactTable<Metrics>)

  /** UNIQUE constraints and autoincrement ids of all four tables, and
      ck_year_range on every stored year. */
  ghost predicate DbValid(db: Db) {
    && Tables.Valid(db.universities) && Tables.Valid(db.programmes) && Tables.Valid(db.years)
    && ValidFacts(db.results)
    && (forall y :: y in db.years.ids ==> YearInRange(y))
  }

  /** The three memo dictionaries of the load loop. */
  datatype Caches = Caches(uni: map<string, nat>, prog: map<(nat, string), nat>, year: map<int, nat>)

  /** Each entry of a memo dictionary holds the id of the stored row with that key. */
  ghost predicate CacheAgrees<K>(t: KeyedTable<K>, cache: map<K, nat>) {
    forall k :: k in cache ==> k in t.ids && t.ids[k] == cache[k]
  }

  ghost predicate CachesAgree(db: Db, c: Caches) {
    CacheAgrees(db.universities, c.uni) && CacheAgrees(db.programmes, c.prog) && CacheAgrees(db.years, c.year)
  }

  /** A memo-dictionary lookup (`cache_uni`, `cache_prog`, `cache_year`):
      on a miss, `get_or_create_*` is called and its id recorded. */
  function Cached<K>(t: KeyedTable<K>, cache: map<K, nat>, k: K): (r: (KeyedTable<K>, map<K, nat>, nat))
    ensures k in cache ==> r.0 == t
  {
    if k in cache then (t, cache, cache[k])
    else
      var p := GetOrInsert(t, k);
      (p.0, cache[k := p.1], p.1)
  }

  /** With a dictionary that agrees with its table, the lookup yields the
      stored id of the key, the table only grows, and the dictionary gains
      exactly that key and still agrees. */
  lemma CachedFacts<K>(t: KeyedTable<K>, cache: map<K, nat>, k: K)
    requires Valid(t) && CacheAgrees(t, cache)
    ensures var r := Cached(t, cache, k);
      && Valid(r.0) && Extends(t, r.0) && CacheAgrees(r.0, r.1)
      && k in r.0.ids && r.0.ids[k] == r.2
      && r.1.Keys == cache.Keys + {k}
      && |r.1| == |cache| + (if k in cache then 0 else 1)
  {
    if k !in cache {
      var r := Cached(t, cache, k);
      GetOrInsertFacts(t, k);
      forall k' | k' in r.1
        ensures k' in r.0.ids && r.0.ids[k'] == r.1[k']
      {
        if k' != k {
          assert k' in t.ids;
        }
      }
    }
  }

  /** What one row did: the tables and caches afterwards, the fact key it
      was written under, and which caches missed. */
  datatype Step = Step(db: Db, caches: Caches, key: FactKey, newU: bool, newP: bool, newY: bool)

  /** One iteration of the load loop: resolve the row's keys through the
      caches, then upsert its result; `None` when the database refuses the
      year (ck_year_range, on a new year) or the result. */
  function StepRow(db: Db, c: Caches, row: SurveyRow, withGross: bool): Option<Step> {
    var u := Cached(db.universities, c.uni, row.university);
    var p := Cached(db.programmes, c.prog, (u.2, row.programme));
    if row.year !in c.year && !YearInRange(row.year) then None
    else if !PassesChecks(row.metrics, withGross) then None
    else
      var y := Cached(db.years, c.year, row.year);
      var results := Upsert(db.results, (p.2, y.2), row.metrics);
      Some(Step(Db(u.0, p.0, y.0, results), Caches(u.1, p.1, y.1), (p.2, y.2),
                row.university !in c.uni, (u.2, row.programme) !in c.prog, row.year !in c.year))
  }

  /** With caches that agree with the tables, a row is written exactly when
      the database accepts it. */
  lemma StepRowAdmissible(db: Db, c: Caches, row: SurveyRow, withGross: bool)
    requires DbValid(db) && CachesAgree(db, c)
    ensures StepRow(db, c, row, withGross).Some? <==> Admissible(row, withGross)
  {
    if row.year in c.year {
      assert row.year in db.years.ids;
    }
  }

  /** A written row leaves caches that agree with the grown tables, each
      cache gaining the row's key, and counts a miss exactly when its cache
      grew; the row's natural key resolves, in the grown tables, to the fact
      key its result was upserted under. */
  lemma StepRowCaches(db: Db, c: Caches, row: SurveyRow, withGross: bool)
    requires DbValid(db) && CachesAgree(db, c) && StepRow(db, c, row, withGross).Some?
    ensures var s := StepRow(db, c, row, withGross).value;
      && CachesAgree(s.db, s.caches)
      && Extends(db.universities, s.db.universities) && Extends(db.programmes, s.db.programmes)
      && Extends(db.years, s.db.years)
      && s.caches.uni.Keys == c.uni.Keys + {row.university}
      && s.caches.year.Keys == c.year.Keys + {row.year}
      && |s.caches.uni| == |c.uni| + (if s.newU then 1 else 0)
      && |s.caches.prog| == |c.prog| + (if s.newP then 1 else 0)
      && |s.caches.year| == |c.year| + (if s.newY then 1 else 0)
      && Resolves(s.db.universities, s.db.programmes, s.db.years, KeyOf(row), s.key)
      && s.db.results == Upsert(db.results, s.key, row.metrics)
      && DbValid(s.db)
  {
    var u := Cached(db.universities, c.uni, row.university);
    CachedFacts(db.universities, c.uni, row.university);
    var p := Cached(db.programmes, c.prog, (u.2, row.programme));
    CachedFacts(db.programmes, c.prog, (u.2, row.programme));
    var y := Cached(db.years, c.year, row.year);
    CachedFacts(db.years, c.year, row.year);
    UpsertFacts(db.results, (p.2, y.2), row.metrics);
  }

  /** The outcome of the load loop over some rows. */
  datatype LoadOutcome =
    | Loaded(db: Db, caches: Caches, insertedU: nat, insertedP: nat, insertedY: nat)
    | Refused(at: nat)

  /** Lines 437-470: the rows, in order, each through `StepRow`, counting
      cache misses; stops at the first row the database refuses. */
  function LoadRows(db: Db, rows: seq<SurveyRow>, withGross: bool): (r: LoadOutcome)
    ensures r.Refused? ==> r.at < |rows|
  {
    if rows == [] then Loaded(db, Caches(map[], map[], map[]), 0, 0, 0)
    else
      var n := |rows| - 1;
      match LoadRows(db, rows[..n], withGross)
      case Refused(at) => Refused(at)
      case Loaded(d, c, u, p, y) =>
        match StepRow(d, c, rows[n], withGross)
        case None => Refused(n)
        case Some(s) =>
          Loaded(s.db, s.caches, u + (if s.newU then 1 else 0), p + (if s.newP then 1 else 0),
                 y + (if s.newY then 1 else 0))
  }

  /** After a successful load the caches agree with the tables, hold exactly
      the universities and years of the rows, and each counter is the size
      of its cache; no existing dimension row changed its id. */
  lemma {:induction false} LoadRowsCaches(db: Db, rows: seq<SurveyRow>, withGross: bool)
    requires DbValid(db)
    ensures var r := LoadRows(db, rows, withGross);
      r.Loaded? ==>
        && DbValid(r.db) && CachesAgree(r.db, r.caches)
        && r.caches.uni.Keys == UniversityNames(rows)
        && r.caches.year.Keys == SurveyYears(rows)
        && r.insertedU == |r.caches.uni| && r.insertedP == |r.caches.prog| && r.insertedY == |r.caches.year|
        && Extends(db.universities, r.db.universities) && Extends(db.programmes, r.db.programmes)
        && Extends(db.years, r.db.years)
  {
    if rows != [] {
      var n := |rows| - 1;
      LoadRowsCaches(db, rows[..n], withGross);
      var prev := LoadRows(db, rows[..n], withGross);
      if prev.Loaded? && StepRow(prev.db, prev.caches, rows[n], withGross).Some? {
        StepRowCaches(prev.db, prev.caches, rows[n], withGross);
        var s := StepRow(prev.db, prev.caches, rows[n], withGross).value;
        ExtendsTransitive(db.universities, prev.db.universities, s.db.universities);
        ExtendsTransitive(db.programmes, prev.db.programmes, s.db.programmes);
        ExtendsTransitive(db.years, prev.db.years, s.db.years);
      }
    }
  }

  /** The position of the first row the database does not accept. */
  function FirstInadmissible(rows: seq<SurveyRow>, withGross: bool): (r: Option<nat>)
    ensures r.Some? ==> r.value < |rows|
  {
    if rows == [] then None
    else
      var n := |rows| - 1;
      match FirstInadmissible(rows[..n], withGross)
      case Some(i) => Some(i)
      case None => if Admissible(rows[n], withGross) then None else Some(n)
  }

  /** It is the least position holding a row that is not admissible, and
      there is none exactly when every row is admissible. */
  lemma {:induction false} FirstInadmissibleIsFirst(rows: seq<SurveyRow>, withGross: bool)
    ensures var r := FirstInadmissible(rows, withGross);
      && (r.None? <==> forall i :: 0 <= i < |rows| ==> Admissible(rows[i], withGross))
      && (r.Some? ==> !Admissible(rows[r.value], withGross))
      && (r.Some? ==> forall j :: 0 <= j < r.value ==> Admissible(rows[j], withGross))
  {
    if rows != [] {
      var n := |rows| - 1;
      FirstInadmissibleIsFirst(rows[..n], withGross);
      assert forall j :: 0 <= j < n ==> rows[..n][j] == rows[j];
    }
  }

  /** The load is refused exactly at the first row that is not admissible. */
  lemma {:induction false} LoadRowsRefused(db: Db, rows: seq<SurveyRow>, withGross: bool)
    requires DbValid(db)
    ensures var r := LoadRows(db, rows, withGross);
      && (r.Refused? <==> FirstInadmissible(rows, withGross).Some?)
      && (r.Refused? ==> r.at == FirstInadmissible(rows, withGross).value)
  {
    if rows != [] {
      var n := |rows| - 1;
      LoadRowsRefused(db, rows[..n], withGross);
      LoadRowsCaches(db, rows[..n], withGross);
      var prev := LoadRows(db, rows[..n], withGross);
      if prev.Loaded? {
        StepRowAdmissible(prev.db, prev.caches, rows[n], withGross);
      }
    }
  }

  /** A row the database accepts extends a successful load by its step. */
  lemma LoadRowsNext(db: Db, rows: seq<SurveyRow>, i: nat, withGross: bool, d: Db, c: Caches,
                     u: nat, p: nat, y: nat, s: Step)
    requires i < |rows| && LoadRows(db, rows[..i], withGross) == Loaded(d, c, u, p, y)
    requires StepRow(d, c, rows[i], withGross) == Some(s)
    ensures LoadRows(db, rows[..i + 1], withGross) ==
      Loaded(s.db, s.caches, u + (if s.newU then 1 else 0), p + (if s.newP then 1 else 0),
             y + (if s.newY then 1 else 0))
  {
    PrefixOfPrefix(rows, i);
  }

  /** A row the database refuses after a successful prefix ends the load there. */
  lemma LoadRowsStop(db: Db, rows: seq<SurveyRow>, i: nat, withGross: bool, d: Db, c: Caches,
                     u: nat, p: nat, y: nat)
    requires i < |rows| && LoadRows(db, rows[..i], withGross) == Loaded(d, c, u, p, y)
    requires StepRow(d, c, rows[i], withGross).None?
    ensures LoadRows(db, rows, withGross) == Refused(i)
  {
    PrefixOfPrefix(rows, i);
    assert rows[..i + 1][i] == rows[i];
    assert LoadRows(db, rows[..i + 1], withGross) == Refused(i);
    LoadRowsRefusedPrefix(db, rows, i + 1, withGross);
  }

  /** A load refused on a prefix of the rows is refused, at the same row,
      on all of them. */
  lemma {:induction false} LoadRowsRefusedPrefix(db: Db, rows: seq<SurveyRow>, k: nat, withGross: bool)
    requires k <= |rows| && LoadRows(db, rows[..k], withGross).Refused?
    ensures LoadRows(db, rows, withGross) == LoadRows(db, rows[..k], withGross)
    decreases |rows|
  {
    if k < |rows| {
      var n := |rows| - 1;
      assert rows[..n][..k] == rows[..k];
      LoadRowsRefusedPrefix(db, rows[..n], k, withGross);
    } else {
      assert rows[..k] == rows;
    }
  }

  /** After a successful load every row's natural key resolves, in the final
      tables, to a result holding the measures of the last row with that
      key, and every result no natural key resolves to is as it was. */
  lemma {:induction false} LoadRowsLastWins(db: Db, rows: seq<SurveyRow>, withGross: bool)
    returns (resolve: map<NaturalKey, FactKey>)
    requires DbValid(db)
    ensures var r := LoadRows(db, rows, withGross);
      r.Loaded? ==>
        && (forall n :: n in resolve ==> Resolves(r.db.universities, r.db.programmes, r.db.years, n, resolve[n]))
        && LastWins(r.db.results, resolve, Items(rows))
        && (forall k :: (forall n :: n in resolve ==> resolve[n] != k) ==>
              ValueAt(r.db.results, k) == ValueAt(db.results, k))
  {
    if rows == [] {
      resolve := map[];
    } else {
      var n := |rows| - 1;
      var prevResolve := LoadRowsLastWins(db, rows[..n], withGross);
      LoadRowsCaches(db, rows[..n], withGross);
      var prev := LoadRows(db, rows[..n], withGross);
      resolve := prevResolve;
      if prev.Loaded? && StepRow(prev.db, prev.caches, rows[n], withGross).Some? {
        var s := StepRow(prev.db, prev.caches, rows[n], withGross).value;
        StepRowCaches(prev.db, prev.caches, rows[n], withGross);
        ResolvesExtends(prev.db.universities, prev.db.programmes, prev.db.years,
                        s.db.universities, s.db.programmes, s.db.years, prevResolve);
        LoadStep(s.db.universities, s.db.programmes, s.db.years, db.results, prev.db.results, prevResolve,
                 Items(rows[..n]), KeyOf(rows[n]), s.key, rows[n].metrics);
        ItemsSplitLast(rows);
        resolve := prevResolve[KeyOf(rows[n]) := s.key];
      }
    }
  }

  /** A load keeps every stored result passing the constraints it enforces. */
  lemma {:induction false} LoadRowsAllPass(db: Db, rows: seq<SurveyRow>, withGross: bool)
    requires DbValid(db) && AllPass(db.results, withGross)
    ensures LoadRows(db, rows, withGross).Loaded? ==> AllPass(LoadRows(db, rows, withGross).db.results, withGross)
  {
    if rows != [] {
      var n := |rows| - 1;
      LoadRowsAllPass(db, rows[..n], withGross);
      LoadRowsCaches(db, rows[..n], withGross);
      var prev := LoadRows(db, rows[..n], withGross);
      if prev.Loaded? && StepRow(prev.db, prev.caches, rows[n], withGross).Some? {
        StepRowCaches(prev.db, prev.caches, rows[n], withGross);
        var s := StepRow(prev.db, prev.caches, rows[n], withGross).value;
        UpsertKeepsAllPass(prev.db.results, s.key, rows[n].metrics, withGross);
      }
    }
  }

  /** What the load reports: the counters and the caches it built. */
  datatype LoadReport = LoadReport(insertedU: nat, insertedP: nat, insertedY: nat, caches: Caches)

  /** The position of the row whose write the database refused. */
  datatype LoadError = IntegrityError(at: nat)

  /** The outcome of `LoadRows` as the load reports it. */
  function Reported(o: LoadOutcome): (r: Result<LoadReport, LoadError>)
    ensures r.Failure? <==> o.Refused?
  {
    match o
    case Refused(at) => Failure(IntegrityError(at))
    case Loaded(_, c, u, p, y) => Success(LoadReport(u, p, y, c))
  }

  /** The whole pipeline's outcome: the load counters and the audit. */
  datatype RunReport = RunReport(load: LoadReport, audited: nat, audit: seq<AuditEntry>)

  // ---------------------------------------------------------------------
  // The session
  // ---------------------------------------------------------------------

  class Session {
    var universities: KeyedTable<string>
    var programmes: KeyedTable<(nat, string)>
    var years: KeyedTable<int>
    var results: FactTable<Metrics>

    /** The session's view of the four tables. */
    function State(): Db
      reads this
    {
      Db(universities, programmes, years, results)
    }

    ghost predicate Valid()
      reads this
    {
      DbValid(State())
    }

    /** Every stored result passes the result constraints. */
    ghost predicate ChecksHold(withGross: bool)
      reads this
    {
      AllPass(results, withGross)
    }

    /** A freshly created schema. */
    constructor()
      ensures Valid() && ChecksHold(true)
      ensures universities.ids == map[] && programmes.ids == map[] && years.ids == map[] && results.rows == []
    {
      universities := EmptyTable();
      programmes := EmptyTable();
      years := EmptyTable();
      results := EmptyFacts();
    }

    /** `get_or_create_university` */
    method GetOrCreateUniversity(name: string) returns (id: nat)
      requires Valid()
      modifies this
      ensures Valid()
      ensures (universities, id) == GetOrInsert(old(universities), name)
      ensures programmes == old(programmes) && years == old(years) && results == old(results)
    {
      GetOrInsertFacts(universities, name);
      var r := GetOrInsert(universities, name);
      universities, id := r.0, r.1;
    }

    /** `get_or_create_programme`: programmes are unique per university. */
    method GetOrCreateProgramme(uniId: nat, name: string) returns (id: nat)
      requires Valid()
      modifies this
      ensures Valid()
      ensures (programmes, id) == GetOrInsert(old(programmes), (uniId, name))
      ensures universities == old(universities) && years == old(years) && results == old(results)
    {
      GetOrInsertFacts(programmes, (uniId, name));
      var r := GetOrInsert(programmes, (uniId, name));
      programmes, id := r.0, r.1;
    }

    /** `get_or_create_year`: the flush of a new year outside [2000, 2100]
        fails ck_year_range, reported as `None`. */
    method GetOrCreateYear(year: int) returns (id: Option<nat>)
      requires Valid()
      modifies this
      ensures Valid()
      ensures id.None? <==> !YearInRange(year)
      ensures id.None? ==> years == old(years)
      ensures id.Some? ==> (years, id.value) == GetOrInsert(old(years), year)
      ensures universities == old(universities) && programmes == old(programmes) && results == old(results)
    {
      if year in years.ids {
        return Some(years.ids[year]);
      }
      if !YearInRange(year) {
        return None;
      }
      GetOrInsertFacts(years, year);
      var r := GetOrInsert(years, year);
      years := r.0;
      return Some(r.1);
    }

    /** `upsert_result`: overwrite the result of (programme, year) or add
        one; `false` when the written values fail the result constraints. */
    method UpsertResult(programmeId: nat, yearId: nat, m: Metrics, withGross: bool) returns (ok: bool)
      requires Valid()
      modifies this
      ensures Valid()
      ensures ok <==> PassesChecks(m, withGross)
      ensures ok ==> results == Upsert(old(results), (programmeId, yearId), m)
      ensures !ok ==> results == old(results)
      ensures universities == old(universities) && programmes == old(programmes) && years == old(years)
    {
      if !PassesChecks(m, withGross) {
        return false;
      }
      UpsertFacts(results, (programmeId, yearId), m);
      results := Upsert(results, (programmeId, yearId), m);
      return true;
    }

    /** Lines 446-452: the university's id from `cache_uni`, or from
        `get_or_create_university` on a miss, which is then recorded. */
    method ResolveUniversity(cu: map<string, nat>, name: string) returns (cu': map<string, nat>, id: nat)
      requires Valid()
      modifies this
      ensures Valid()
      ensures (universities, cu', id) == Cached(old(universities), cu, name)
      ensures programmes == old(programmes) && years == old(years) && results == old(results)
    {
      if name in cu {
        return cu, cu[name];
      }
      id := GetOrCreateUniversity(name);
      cu' := cu[name := id];
    }

    /** Lines 455-460: the same through `cache_prog`, keyed by university
        id and programme name. */
    method ResolveProgramme(cp: map<(nat, string), nat>, uniId: nat, name: string)
      returns (cp': map<(nat, string), nat>, id: nat)
      requires Valid()
      modifies this
      ensures Valid()
      ensures (programmes, cp', id) == Cached(old(programmes), cp, (uniId, name))
      ensures universities == old(universities) && years == old(years) && results == old(results)
    {
      if (uniId, name) in cp {
        return cp, cp[(uniId, name)];
      }
      id := GetOrCreateProgramme(uniId, name);
      cp' := cp[(uniId, name) := id];
    }

    /** Lines 463-467: the same through `cache_year`; `None` when the new
        year fails ck_year_range. */
    method ResolveYear(cy: map<int, nat>, year: int) returns (cy': map<int, nat>, id: Option<nat>)
      requires Valid()
      modifies this
      ensures Valid()
      ensures id.None? <==> year !in cy && !YearInRange(year)
      ensures id.None? ==> years == old(years)
      ensures id.Some? ==> (years, cy', id.value) == Cached(old(years), cy, year)
      ensures universities == old(universities) && programmes == old(programmes) && results == old(results)
    {
      if year in cy {
        return cy, Some(cy[year]);
      }
      id := GetOrCreateYear(year);
      cy' := if id.Some? then cy[year := id.value] else cy;
    }

    /** One iteration of the load loop, lines 444-470. */
    method LoadRow(row: SurveyRow, c: Caches, withGross: bool) returns (s: Option<Step>)
      requires Valid()
      modifies this
      ensures Valid()
      ensures s == StepRow(old(State()), c, row, withGross)
      ensures s.Some? ==> State() == s.value.db
    {
      var cu, uId := ResolveUniversity(c.uni, row.university);
      var cp, pId := ResolveProgramme(c.prog, uId, row.programme);
      var cy, yId := ResolveYear(c.year, row.year);
      if yId.None? {
        return None;
      }
      var ok := UpsertResult(pId, yId.value, row.metrics, withGross);
      if !ok {
        return None;
      }
      s := Some(Step(State(), Caches(cu, cp, cy), (pId, yId.value),
                     row.university !in c.uni, (uId, row.programme) !in c.prog, row.year !in c.year));
    }

    /** One pass of the loop body at lines 444-470: the row after a successful
        prefix either extends the load, with the cache-miss counters updated,
        or is the row the load is refused at. */
    method LoadNext(ghost db0: Db, rows: seq<SurveyRow>, i: nat, withGross: bool, c: Caches,
                    u: nat, p: nat, y: nat)
      returns (stop: bool, c': Caches, u': nat, p': nat, y': nat)
      requires Valid()
      requires i < |rows| && LoadRows(db0, rows[..i], withGross) == Loaded(State(), c, u, p, y)
      modifies this
      ensures Valid()
      ensures stop ==> LoadRows(db0, rows, withGross) == Refused(i)
      ensures !stop ==> LoadRows(db0, rows[..i + 1], withGross) == Loaded(State(), c', u', p', y')
    {
      ghost var before := State();
      var s := LoadRow(rows[i], c, withGross);
      if s.None? {
        LoadRowsStop(db0, rows, i, withGross, before, c, u, p, y);
        return true, c, u, p, y;
      }
      LoadRowsNext(db0, rows, i, withGross, before, c, u, p, y, s.value);
      stop, c' := false, s.value.caches;
      u' := u + if s.value.newU then 1 else 0;
      p' := p + if s.value.newP then 1 else 0;
      y' := y + if s.value.newY then 1 else 0;
    }

    /** The load loop, lines 437-470: every row through `LoadRow`, counting
        cache misses, stopping at the first row the database refuses. */
    method Load(rows: seq<SurveyRow>, withGross: bool) returns (r: Result<LoadReport, LoadError>)
      requires Valid()
      modifies this
      ensures Valid()
      ensures r == Reported(LoadRows(old(State()), rows, withGross))
      ensures r.Success? ==> State() == LoadRows(old(State()), rows, withGross).db
    {
      ghost var db0 := State();
      var c := Caches(map[], map[], map[]);
      var insertedU, insertedP, insertedY := 0, 0, 0;
      var i := 0;
      while i < |rows|
        invariant 0 <= i <= |rows|
        invariant Valid()
        invariant LoadRows(db0, rows[..i], withGross) == Loaded(State(), c, insertedU, insertedP, insertedY)
      {
        var stop;
        stop, c, insertedU, insertedP, insertedY := LoadNext(db0, rows, i, withGross, c, insertedU, insertedP, insertedY);
        if stop {
          return Failure(IntegrityError(i));
        }
        i := i + 1;
      }
      assert rows[..i] == rows;
      r := Success(LoadReport(insertedU, insertedP, insertedY, c));
    }

    /** `audit_and_fix_gross_basic`: every result with both medians known and
        gross below basic is listed with its original values and clamped; the
        count is the number of such results; nothing else changes. */
    method AuditAndFixGrossBasic() returns (count: nat, audit: seq<AuditEntry>)
      requires Valid()
      modifies this
      ensures Valid()
      ensures results == FactTable(ClampAll(old(results.rows)), old(results.next))
      ensures audit == AuditOf(old(results.rows)) && count == |audit|
      ensures universities == old(universities) && programmes == old(programmes) && years == old(years)
    {
      ClampAllValid(results);
      audit := [];
      var i := 0;
      while i < |results.rows|
        invariant 0 <= i <= |results.rows| == |old(results.rows)|
        invariant results.next == old(results.next)
        invariant forall k :: 0 <= k < i ==> results.rows[k] == Clamp(old(results.rows)[k])
        invariant forall k :: i <= k < |results.rows| ==> results.rows[k] == old(results.rows)[k]
        invariant audit == AuditOf(old(results.rows)[..i])
        invariant universities == old(universities) && programmes == old(programmes) && years == old(years)
      {
        var x := results.rows[i];
        PrefixOfPrefix(old(results.rows), i);
        if Violates(x) {
          audit := audit + [Entry(x)];
          results := results.(rows := results.rows[i := Clamp(x)]);
        }
        i := i + 1;
      }
      assert old(results.rows)[..i] == old(results.rows);
      assert results.rows == ClampAll(old(results.rows));
      count := |audit|;
    }

    /** Lines 433-473 as written: load with every constraint in force, then
        audit. A row with gross below basic fails ck_gross_ge_basic when it
        is flushed, which aborts the transaction, so on success the audit is
        always empty. */
    method Run(rows: seq<SurveyRow>) returns (r: Result<RunReport, LoadError>)
      requires Valid() && ChecksHold(true)
      modifies this
      ensures Valid() && ChecksHold(true)
      ensures r.Failure? <==> exists i :: 0 <= i < |rows| && !Admissible(rows[i], true)
      ensures r.Failure? ==> State() == old(State())
      ensures r.Success? ==> LoadRows(old(State()), rows, true).Loaded? && State() == LoadRows(old(State()), rows, true).db
      ensures r.Success? ==> Reported(LoadRows(old(State()), rows, true)).Success?
                             && r.value.load == Reported(LoadRows(old(State()), rows, true)).value
      ensures r.Success? ==> r.value.audited == 0 && r.value.audit == []
    {
      var db0 := State();
      LoadRowsRefused(db0, rows, true);
      FirstInadmissibleIsFirst(rows, true);
      LoadRowsAllPass(db0, rows, true);
      var loaded := Load(rows, true);
      if loaded.Failure? {
        universities, programmes, years, results := db0.universities, db0.programmes, db0.years, db0.results;
        return Failure(loaded.error);
      }
      ghost var stored := results.rows;
      assert forall k :: 0 <= k < |stored| ==> GrossGeBasic(stored[k].values) by {
        forall k | 0 <= k < |stored| ensures GrossGeBasic(stored[k].values) {
          ValueAtRow(results, k);
        }
      }
      AuditEmptyUnderChecks(stored);
      var n, audit := AuditAndFixGrossBasic();
      assert results.rows == stored by {
        assert forall k :: 0 <= k < |stored| ==> Clamp(stored[k]) == stored[k];
      }
      return Success(RunReport(loaded.value, n, audit));
    }

    /** The pipeline as its documentation describes it: ck_gross_ge_basic is
        left to the audit, so the load refuses only the other constraints,
        the audit lists every stored result with gross below basic, and
        afterwards every stored result passes all constraints. */
    method RunDeferringGrossCheck(rows: seq<SurveyRow>) returns (r: Result<RunReport, LoadError>)
      requires Valid() && ChecksHold(true)
      modifies this
      ensures Valid() && ChecksHold(true)
      ensures r.Failure? <==> exists i :: 0 <= i < |rows| && !Admissible(rows[i], false)
      ensures r.Failure? ==> State() == old(State())
      ensures r.Success? ==> Reported(LoadRows(old(State()), rows, false)).Success?
                             && r.value.load == Reported(LoadRows(old(State()), rows, false)).value
      ensures r.Success? ==> universities == LoadRows(old(State()), rows, false).db.universities
                             && programmes == LoadRows(old(State()), rows, false).db.programmes
                             && years == LoadRows(old(State()), rows, false).db.years
      ensures r.Success? ==> r.value.audited == |r.value.audit|
      ensures r.Success? ==> LoadRows(old(State()), rows, false).Loaded?
                             && r.value.audit == AuditOf(LoadRows(old(State()), rows, false).db.results.rows)
      ensures r.Success? ==> results == FactTable(ClampAll(LoadRows(old(State()), rows, false).db.results.rows),
                                                  LoadRows(old(State()), rows, false).db.results.next)
      ensures r.Success? ==> forall k :: 0 <= k < |results.rows| ==> GrossGeBasic(results.rows[k].values)
    {
      var db0 := State();
      LoadRowsRefused(db0, rows, false);
      FirstInadmissibleIsFirst(rows, false);
      AllPassWithoutGross(db0.results);
      LoadRowsAllPass(db0, rows, false);
      var loaded := Load(rows, false);
      if loaded.Failure? {
        universities, programmes, years, results := db0.universities, db0.programmes, db0.years, db0.results;
        return Failure(loaded.error);
      }
      ghost var stored := results;
      var n, audit := AuditAndFixGrossBasic();
      forall k | ValueAt(results, k).Some?
        ensures PassesChecks(ValueAt(results, k).value, true)
      {
        var i := Find(results.rows, k).value;
        ValueAtRow(stored, i);
        ClampRestoresChecks(stored.rows[i]);
      }
      return Success(RunReport(loaded.value, n, audit));
    }
  }

  /** A row with gross median 2500 below basic median 3000. */
  function GrossBelowBasicRow(): SurveyRow {
    SurveyRow("NUS", "Computing", 2020, Metrics(None, None, Some(3000.0), Some(2500.0)))
  }

  /** As written, loading that row into an empty database fails. */
  method ExampleRunAborts() returns (r: Result<RunReport, LoadError>)
    ensures r.Failure?
  {
    var s := new Session();
    var rows := [GrossBelowBasicRow()];
    assert !Admissible(rows[0], true);
    r := s.Run(rows);
  }

  /** With the gross check left to the audit, the same load succeeds and
      the audit reports that one result. */
  method ExampleDeferredRunSucceeds() returns (r: Result<RunReport, LoadError>)
    ensures r.Success? && r.value.audited == 1
  {
    var s := new Session();
    var rows := [GrossBelowBasicRow()];
    assert forall i :: 0 <= i < |rows| ==> Admissible(rows[i], false);
    r := s.RunDeferringGrossCheck(rows);
  }
}

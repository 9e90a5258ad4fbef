/**
 * The sqlite3 loader's write path: each row is resolved through four
 * dimension tables (university, school, degree, survey year) and written to
 * fact_employment with INSERT OR REPLACE, after a gross median below the
 * basic median is audited and clamped. A row whose processing raises is
 * logged and skipped; whatever it had already inserted stays, since nothing
 * is rolled back before the final commit.
 */
module SqliteLoader {
  import opened Wrappers
  import opened Strings
  import opened Frames
  import opened Tables

  // ---------------------------------------------------------------------
  // The measures of a fact and their constraints
  // ---------------------------------------------------------------------

  /** The eight measure columns of fact_employment, in table order. */
  datatype Measures = Measures(empOverall: Cell, empFtPerm: Cell, basicMean: Cell, basicMedian: Cell,
                               grossMean: Cell, grossMedian: Cell, p25: Cell, p75: Cell)

  /** `vals`, read with `row.get`: a column the frame lacks gives NULL. */
  function MeasuresOf(columns: seq<string>, row: Cells): Measures {
    Measures(Lookup(columns, row, "employment_rate_overall"), Lookup(columns, row, "employment_rate_ft_perm"),
             Lookup(columns, row, "basic_monthly_mean"), Lookup(columns, row, "basic_monthly_median"),
             Lookup(columns, row, "gross_monthly_mean"), Lookup(columns, row, "gross_monthly_median"),
             Lookup(columns, row, "gross_mthly_25_percentile"), Lookup(columns, row, "gross_mthly_75_percentile"))
  }

  /** `pd.notna(bm_med) and pd.notna(gm_med) and float(gm_med) < float(bm_med)` */
  predicate GrossBelowBasic(m: Measures) {
    NotNa(m.basicMedian) && NotNa(m.grossMedian) && LessBy(m.grossMedian, 0.0, m.basicMedian)
  }

  /** `gm_med = bm_med` for a row whose gross median is below its basic median. */
  function Clamp(m: Measures): Measures {
    if GrossBelowBasic(m) then m.(grossMedian := m.basicMedian) else m
  }

  /** After clamping the gross median is not below the basic median; only
      an audited row changes, and only in its gross median. */
  lemma ClampFacts(m: Measures)
    ensures !GrossBelowBasic(Clamp(m))
    ensures Clamp(m) == m <==> !GrossBelowBasic(m)
    ensures Clamp(m).(grossMedian := m.grossMedian) == m
    ensures GrossBelowBasic(m) ==> Clamp(m).grossMedian == m.basicMedian
  {
    if GrossBelowBasic(m) {
      assert Clamp(m).grossMedian == m.basicMedian != m.grossMedian;
    }
  }

  /** `CHECK (x BETWEEN 0 AND 100)`: NULL passes, and sqlite3 stores NaN as NULL. */
  predicate RateCheck(c: Cell) {
    c.Missing? || Between(c, 0.0, 100.0)
  }

  /** `CHECK (x >= 0)` */
  predicate NonNegativeCheck(c: Cell) {
    c.Missing? || Ge(c, 0.0)
  }

  /** The CHECK constraints of fact_employment. */
  predicate FactChecks(m: Measures) {
    && RateCheck(m.empOverall) && RateCheck(m.empFtPerm)
    && NonNegativeCheck(m.basicMean) && NonNegativeCheck(m.basicMedian)
    && NonNegativeCheck(m.grossMean) && NonNegativeCheck(m.grossMedian)
  }

  /** Clamping never makes a row fail the constraints, and rescues a row
      whose only fault is a negative gross median below a valid basic one. */
  lemma ClampKeepsChecks(m: Measures)
    ensures FactChecks(m) ==> FactChecks(Clamp(m))
    ensures FactChecks(m.(grossMedian := Missing)) && GrossBelowBasic(m) ==> FactChecks(Clamp(m))
  {
  }

  /** A gross median of -5 under a basic median of 3000 fails `CHECK
      (gross_monthly_median >= 0)` as read, and is written once clamped. */
  lemma ClampRescuesNegativeGross()
    ensures var m := Measures(Missing, Missing, Missing, Num(3000.0), Missing, Num(-5.0), Missing, Missing);
      !FactChecks(m) && FactChecks(Clamp(m))
  {
    var m := Measures(Missing, Missing, Missing, Num(3000.0), Missing, Num(-5.0), Missing, Missing);
    assert GrossBelowBasic(m);
  }

  // ---------------------------------------------------------------------
  // Reading a row
  // ---------------------------------------------------------------------

  /** What the loop body reads from a frame row before writing. */
  datatype DbRow = DbRow(university: string, school: string, degree: string, year: int, measures: Measures)

  /** Lines 197-200: `row[name]` raises on a column the frame lacks, and
      `int(row["year"])` raises on a missing, infinite or unreadable year. */
  function ReadRow(columns: seq<string>, row: Cells): Option<DbRow> {
    if "university" !in columns || "school" !in columns || "degree" !in columns || "year" !in columns then None
    else
      match IntOf(Lookup(columns, row, "year"))
      case None => None
      case Some(y) =>
        Some(DbRow(Strip(CellText(Lookup(columns, row, "university"))),
                   Strip(CellText(Lookup(columns, row, "school"))),
                   Strip(CellText(Lookup(columns, row, "degree"))),
                   y, MeasuresOf(columns, row)))
  }

  /** The CHECK of survey_year. */
  predicate YearAllowed(y: int) {
    2000 <= y <= 2100
  }

  /** A read row whose fact is written: its year passes the survey_year
      CHECK and its clamped measures pass the fact CHECKs. */
  predicate Writes(r: DbRow) {
    YearAllowed(r.year) && FactChecks(Clamp(r.measures))
  }

  /** A frame row that is counted in `inserted`. */
  predicate RowWrites(columns: seq<string>, row: Cells) {
    ReadRow(columns, row).Some? && Writes(ReadRow(columns, row).value)
  }

  function RowWritesMask(columns: seq<string>): Cells -> bool {
    (row: Cells) => RowWrites(columns, row)
  }

  /** A row of the audit file: the row's names and year, and its medians as read. */
  datatype AuditEntry = AuditEntry(university: string, school: string, degree: string, year: int,
                                   basicMedian: Cell, grossMedian: Cell)

  /** The audit entry of a read row: appended once its year has an id and
      before its fact is written, so also for a row whose write then fails. */
  function AuditOf(r: DbRow): Option<AuditEntry> {
    if YearAllowed(r.year) && GrossBelowBasic(r.measures) then
      Some(AuditEntry(r.university, r.school, r.degree, r.year, r.measures.basicMedian, r.measures.grossMedian))
    else None
  }

  function RowAudit(columns: seq<string>, row: Cells): Option<AuditEntry> {
    match ReadRow(columns, row)
    case None => None
    case Some(r) => AuditOf(r)
  }

  /** A row with an overall employment rate of 120 and a gross median below
      its basic median is audited, yet its fact is never written. */
  lemma AuditedButNotWritten()
    ensures var r := DbRow("NUS", "Computing", "CS", 2020,
                           Measures(Num(120.0), Missing, Missing, Num(3000.0), Missing, Num(2500.0), Missing, Missing));
      AuditOf(r).Some? && !Writes(r)
  {
    var m := Measures(Num(120.0), Missing, Missing, Num(3000.0), Missing, Num(2500.0), Missing, Missing);
    assert GrossBelowBasic(m);
  }

  // ---------------------------------------------------------------------
  // The tables
  // ---------------------------------------------------------------------

  /** The five tables of the schema. */
  datatype Db = Db(universities: KeyedTable<string>, schools: KeyedTable<(nat, string)>,
                   degrees: KeyedTable<(nat, string)>, years: KeyedTable<int>, facts: FactTable<Measures>)

  /** UNIQUE constraints and autoincrement ids of the five tables, and the
      survey_year CHECK on every stored year. */
  ghost predicate DbValid(db: Db) {
    && Tables.Valid(db.universities) && Tables.Valid(db.schools) && Tables.Valid(db.degrees)
    && Tables.Valid(db.years) && ValidFacts(db.facts)
    && (forall y :: y in db.years.ids ==> YearAllowed(y))
  }

  /** Every dimension table of `db'` extends that of `db`. */
  ghost predicate DimsExtend(db: Db, db': Db) {
    && Extends(db.universities, db'.universities) && Extends(db.schools, db'.schools)
    && Extends(db.degrees, db'.degrees) && Extends(db.years, db'.years)
  }

  /** The natural key of a fact: university, school, degree and year. */
  type NaturalKey = (string, string, string, int)

  function KeyOf(r: DbRow): NaturalKey {
    (r.university, r.school, r.degree, r.year)
  }

  /** `nk` resolves through the four dimension tables to fact key `fk`. */
  ghost predicate Resolves(db: Db, nk: NaturalKey, fk: FactKey) {
    && nk.0 in db.universities.ids
    && (db.universities.ids[nk.0], nk.1) in db.schools.ids
    && (db.schools.ids[(db.universities.ids[nk.0], nk.1)], nk.2) in db.degrees.ids
    && nk.3 in db.years.ids
    && fk == (db.degrees.ids[(db.schools.ids[(db.universities.ids[nk.0], nk.1)], nk.2)], db.years.ids[nk.3])
  }

  /** The outcome of one row's writes: the tables afterwards, and whether
      its fact was written (and so counted). */
  datatype Written = Written(db: Db, inserted: bool)

  /** Lines 202-276 on one read row. The dimension rows are inserted one by
      one; the year insert fails its CHECK for a year out of range, and the
      fact insert fails its CHECKs, each leaving what came before. */
  function WriteRow(db: Db, r: DbRow): Written {
    var u := GetOrInsert(db.universities, r.university);
    var s := GetOrInsert(db.schools, (u.1, r.school));
    var d := GetOrInsert(db.degrees, (s.1, r.degree));
    if r.year !in db.years.ids && !YearAllowed(r.year) then
      Written(Db(u.0, s.0, d.0, db.years, db.facts), false)
    else
      var y := GetOrInsert(db.years, r.year);
      var m := Clamp(r.measures);
      if !FactChecks(m) then Written(Db(u.0, s.0, d.0, y.0, db.facts), false)
      else Written(Db(u.0, s.0, d.0, y.0, InsertOrReplace(db.facts, (d.1, y.1), m)), true)
  }

  /** One row keeps the tables valid and only adds dimension rows; its fact
      is written exactly when the row `Writes`, and otherwise the fact
      table is untouched. */
  lemma WriteRowValid(db: Db, r: DbRow)
    requires DbValid(db)
    ensures var w := WriteRow(db, r);
      && DbValid(w.db) && DimsExtend(db, w.db)
      && w.inserted == Writes(r)
      && (!w.inserted ==> w.db.facts == db.facts)
  {
    var u := GetOrInsert(db.universities, r.university);
    var s := GetOrInsert(db.schools, (u.1, r.school));
    var d := GetOrInsert(db.degrees, (s.1, r.degree));
    GetOrInsertFacts(db.universities, r.university);
    GetOrInsertFacts(db.schools, (u.1, r.school));
    GetOrInsertFacts(db.degrees, (s.1, r.degree));
    if YearAllowed(r.year) {
      var y := GetOrInsert(db.years, r.year);
      GetOrInsertFacts(db.years, r.year);
      if FactChecks(Clamp(r.measures)) {
        InsertOrReplaceFacts(db.facts, (d.1, y.1), Clamp(r.measures));
      }
    }
  }

  /** A written row's natural key resolves, in the new tables, to the fact
      key the row was written under, which now holds its clamped measures;
      every other fact key holds what it held. */
  lemma WriteRowResolves(db: Db, r: DbRow) returns (fk: FactKey)
    requires DbValid(db) && Writes(r)
    ensures var w := WriteRow(db, r);
      && Resolves(w.db, KeyOf(r), fk)
      && ValueAt(w.db.facts, fk) == Some(Clamp(r.measures))
      && (forall k :: k != fk ==> ValueAt(w.db.facts, k) == ValueAt(db.facts, k))
  {
    var u := GetOrInsert(db.universities, r.university);
    var s := GetOrInsert(db.schools, (u.1, r.school));
    var d := GetOrInsert(db.degrees, (s.1, r.degree));
    var y := GetOrInsert(db.years, r.year);
    fk := (d.1, y.1);
    InsertOrReplaceFacts(db.facts, fk, Clamp(r.measures));
  }

  // ---------------------------------------------------------------------
  // The load, as a function of the tables
  // ---------------------------------------------------------------------

  /** The tables after one frame row: a row that raises while being read
      changes nothing. */
  function LoadOne(db: Db, columns: seq<string>, row: Cells): Db {
    match ReadRow(columns, row)
    case None => db
    case Some(r) => WriteRow(db, r).db
  }

  /** The tables after every row, in order. */
  function LoadAll(db: Db, columns: seq<string>, rows: seq<Cells>): Db {
    if rows == [] then db
    else LoadOne(LoadAll(db, columns, rows[..|rows| - 1]), columns, rows[|rows| - 1])
  }

  /** `audit_rows`: one entry per audited row, in order. */
  function AuditAll(columns: seq<string>, rows: seq<Cells>): seq<AuditEntry> {
    if rows == [] then []
    else AuditAll(columns, rows[..|rows| - 1]) + OptionSeq(RowAudit(columns, rows[|rows| - 1]))
  }

  /** Loading one more row. */
  lemma LoadAllNext(db: Db, columns: seq<string>, rows: seq<Cells>, i: nat)
    requires i < |rows|
    ensures LoadAll(db, columns, rows[..i + 1]) == LoadOne(LoadAll(db, columns, rows[..i]), columns, rows[i])
    ensures AuditAll(columns, rows[..i + 1]) == AuditAll(columns, rows[..i]) + OptionSeq(RowAudit(columns, rows[i]))
    ensures Filter(rows[..i + 1], RowWritesMask(columns)) ==
      Filter(rows[..i], RowWritesMask(columns)) + if RowWrites(columns, rows[i]) then [rows[i]] else []
  {
    PrefixOfPrefix(rows, i);
    FilterAppend(rows[..i], rows[i], RowWritesMask(columns));
  }

  /** Loading keeps the tables valid and only adds dimension rows. */
  lemma {:induction false} LoadAllValid(db: Db, columns: seq<string>, rows: seq<Cells>)
    requires DbValid(db)
    ensures DbValid(LoadAll(db, columns, rows)) && DimsExtend(db, LoadAll(db, columns, rows))
  {
    if rows != [] {
      var prev := LoadAll(db, columns, rows[..|rows| - 1]);
      LoadAllValid(db, columns, rows[..|rows| - 1]);
      var r := ReadRow(columns, rows[|rows| - 1]);
      if r.Some? {
        WriteRowValid(prev, r.value);
      }
    }
  }

  /** Every audit entry records a row whose gross median, as read, was
      below its basic median, and there is one entry per such row. */
  lemma {:induction false} AuditAllFacts(columns: seq<string>, rows: seq<Cells>)
    ensures |AuditAll(columns, rows)| == |Filter(rows, (row: Cells) => RowAudit(columns, row).Some?)|
    ensures forall e :: e in AuditAll(columns, rows) ==>
      NotNa(e.basicMedian) && NotNa(e.grossMedian) && LessBy(e.grossMedian, 0.0, e.basicMedian) && YearAllowed(e.year)
  {
    if rows != [] {
      var n := |rows| - 1;
      AuditAllFacts(columns, rows[..n]);
      SplitLast(rows);
      FilterAppend(rows[..n], rows[n], (row: Cells) => RowAudit(columns, row).Some?);
    }
  }

  /** The measures the written rows leave, keyed by natural key, in order. */
  function Items(columns: seq<string>, rows: seq<Cells>): seq<(NaturalKey, Measures)> {
    if rows == [] then []
    else
      var n := |rows| - 1;
      Items(columns, rows[..n]) +
        if RowWrites(columns, rows[n]) then
          [(KeyOf(ReadRow(columns, rows[n]).value), Clamp(ReadRow(columns, rows[n]).value.measures))]
        else []
  }

  /** Distinct natural keys resolve to distinct fact keys, because every
      dimension table gives distinct keys distinct ids. */
  lemma ResolveInjective(db: Db, resolve: map<NaturalKey, FactKey>)
    requires DbValid(db)
    requires forall n :: n in resolve ==> Resolves(db, n, resolve[n])
    ensures Injective(resolve)
  {
    forall n, n' | n in resolve && n' in resolve && resolve[n] == resolve[n']
      ensures n == n'
    {
      assert Resolves(db, n, resolve[n]) && Resolves(db, n', resolve[n']);
      var u, u' := db.universities.ids[n.0], db.universities.ids[n'.0];
      var s, s' := db.schools.ids[(u, n.1)], db.schools.ids[(u', n'.1)];
      assert DistinctIds(db.degrees, (s, n.2), (s', n'.2));
      assert DistinctIds(db.schools, (u, n.1), (u', n'.1));
      assert DistinctIds(db.universities, n.0, n'.0);
      assert DistinctIds(db.years, n.3, n'.3);
    }
  }

  /** Growing the dimension tables keeps every resolution. */
  lemma ResolvesExtends(db: Db, db': Db, resolve: map<NaturalKey, FactKey>)
    requires DimsExtend(db, db')
    requires forall n :: n in resolve ==> Resolves(db, n, resolve[n])
    ensures forall n :: n in resolve ==> Resolves(db', n, resolve[n])
  {
    forall n | n in resolve
      ensures Resolves(db', n, resolve[n])
    {
      assert Resolves(db, n, resolve[n]);
    }
  }

  /** The last-wins property and the untouched facts after one more
      written row. */
  lemma WriteRowLastWins(db: Db, prev: Db, r: DbRow,
                         resolve: map<NaturalKey, FactKey>, items: seq<(NaturalKey, Measures)>)
    returns (resolve': map<NaturalKey, FactKey>)
    requires DbValid(prev) && Writes(r)
    requires forall n :: n in resolve ==> Resolves(prev, n, resolve[n])
    requires LastWins(prev.facts, resolve, items)
    requires forall k :: (forall n :: n in resolve ==> resolve[n] != k) ==> ValueAt(prev.facts, k) == ValueAt(db.facts, k)
    ensures var w := WriteRow(prev, r).db;
      && (forall n :: n in resolve' ==> Resolves(w, n, resolve'[n]))
      && LastWins(w.facts, resolve', items + [(KeyOf(r), Clamp(r.measures))])
      && (forall k :: (forall n :: n in resolve' ==> resolve'[n] != k) ==> ValueAt(w.facts, k) == ValueAt(db.facts, k))
  {
    var w := WriteRow(prev, r);
    WriteRowValid(prev, r);
    ResolvesExtends(prev, w.db, resolve);
    var fk := WriteRowResolves(prev, r);
    resolve' := resolve[KeyOf(r) := fk];
    assert forall n :: n in resolve' ==> Resolves(w.db, n, resolve'[n]);
    ResolveInjective(w.db, resolve');
    LastWinsStep(prev.facts, w.db.facts, resolve, resolve', items, KeyOf(r), Clamp(r.measures));
    forall k | (forall n :: n in resolve' ==> resolve'[n] != k)
      ensures ValueAt(w.db.facts, k) == ValueAt(db.facts, k)
    {
      assert resolve'[KeyOf(r)] != k;
    }
  }

  /** The last-wins property and the untouched facts after one more row. */
  lemma LoadOneLastWins(db: Db, prev: Db, columns: seq<string>, row: Cells,
                        resolve: map<NaturalKey, FactKey>, items: seq<(NaturalKey, Measures)>)
    returns (resolve': map<NaturalKey, FactKey>)
    requires DbValid(prev)
    requires forall n :: n in resolve ==> Resolves(prev, n, resolve[n])
    requires LastWins(prev.facts, resolve, items)
    requires forall k :: (forall n :: n in resolve ==> resolve[n] != k) ==> ValueAt(prev.facts, k) == ValueAt(db.facts, k)
    ensures var r := LoadOne(prev, columns, row);
      var items' := items + if RowWrites(columns, row) then
                              [(KeyOf(ReadRow(columns, row).value), Clamp(ReadRow(columns, row).value.measures))]
                            else [];
      && (forall n :: n in resolve' ==> Resolves(r, n, resolve'[n]))
      && LastWins(r.facts, resolve', items')
      && (forall k :: (forall n :: n in resolve' ==> resolve'[n] != k) ==> ValueAt(r.facts, k) == ValueAt(db.facts, k))
  {
    var rr := ReadRow(columns, row);
    if rr.Some? && Writes(rr.value) {
      resolve' := WriteRowLastWins(db, prev, rr.value, resolve, items);
    } else {
      resolve' := resolve;
      assert items + [] == items;
      if rr.Some? {
        WriteRowValid(prev, rr.value);
        ResolvesExtends(prev, WriteRow(prev, rr.value).db, resolve);
      }
    }
  }

  /** INSERT OR REPLACE: every written row's natural key resolves, in the
      final tables, to a fact holding the clamped measures of the last
      written row with that key; a fact no natural key resolves to keeps
      its initial values. */
  lemma {:induction false} LoadAllLastWins(db: Db, columns: seq<string>, rows: seq<Cells>)
    returns (resolve: map<NaturalKey, FactKey>)
    requires DbValid(db)
    ensures var r := LoadAll(db, columns, rows);
      && (forall n :: n in resolve ==> Resolves(r, n, resolve[n]))
      && LastWins(r.facts, resolve, Items(columns, rows))
      && (forall k :: (forall n :: n in resolve ==> resolve[n] != k) ==> ValueAt(r.facts, k) == ValueAt(db.facts, k))
  {
    if rows == [] {
      resolve := map[];
    } else {
      var n := |rows| - 1;
      resolve := LoadAllLastWins(db, columns, rows[..n]);
      LoadAllValid(db, columns, rows[..n]);
      resolve := LoadOneLastWins(db, LoadAll(db, columns, rows[..n]), columns, rows[n], resolve, Items(columns, rows[..n]));
    }
  }

  /** Every stored fact passes the CHECKs and has its gross median not
      below its basic median. */
  ghost predicate AllFactsOk(t: FactTable<Measures>) {
    forall k :: ValueAt(t, k).Some? ==> FactChecks(ValueAt(t, k).value) && !GrossBelowBasic(ValueAt(t, k).value)
  }

  /** The clamp keeps every stored fact's gross median at or above its
      basic median. */
  lemma {:induction false} LoadAllFactsOk(db: Db, columns: seq<string>, rows: seq<Cells>)
    requires DbValid(db) && AllFactsOk(db.facts)
    ensures AllFactsOk(LoadAll(db, columns, rows).facts)
  {
    if rows != [] {
      var n := |rows| - 1;
      var prev := LoadAll(db, columns, rows[..n]);
      LoadAllFactsOk(db, columns, rows[..n]);
      LoadAllValid(db, columns, rows[..n]);
      var rr := ReadRow(columns, rows[n]);
      if rr.Some? {
        var r := rr.value;
        var w := WriteRow(prev, r);
        WriteRowValid(prev, r);
        if Writes(r) {
          var fk := WriteRowResolves(prev, r);
          ClampFacts(r.measures);
          forall k | ValueAt(w.db.facts, k).Some?
            ensures FactChecks(ValueAt(w.db.facts, k).value) && !GrossBelowBasic(ValueAt(w.db.facts, k).value)
          {
            if k != fk {
              assert ValueAt(w.db.facts, k) == ValueAt(prev.facts, k);
            }
          }
        }
      }
    }
  }

  /** A row that is not counted leaves the fact table as it was. */
  lemma SkippedRowKeepsFacts(db: Db, columns: seq<string>, row: Cells)
    requires DbValid(db) && !RowWrites(columns, row)
    ensures LoadOne(db, columns, row).facts == db.facts
    ensures ReadRow(columns, row).None? ==> LoadOne(db, columns, row) == db
  {
    if ReadRow(columns, row).Some? {
      WriteRowValid(db, ReadRow(columns, row).value);
    }
  }

  // ---------------------------------------------------------------------
  // The connection
  // ---------------------------------------------------------------------

  /** The database behind the sqlite3 connection. */
  class Database {
    var universities: KeyedTable<string>
    var schools: KeyedTable<(nat, string)>
    var degrees: KeyedTable<(nat, string)>
    var years: KeyedTable<int>
    var facts: FactTable<Measures>

    function State(): Db
      reads this
    {
      Db(universities, schools, degrees, years, facts)
    }

    ghost predicate Valid()
      reads this
    {
      DbValid(State())
    }

    /** `create_schema`: five empty tables. */
    constructor()
      ensures Valid() && AllFactsOk(facts)
      ensures universities.ids == map[] && schools.ids == map[] && degrees.ids == map[] && years.ids == map[]
      ensures facts.rows == []
    {
      universities := EmptyTable();
      schools := EmptyTable();
      degrees := EmptyTable();
      years := EmptyTable();
      facts := EmptyFacts();
    }

    /** `get_or_insert(cur, "dim_university", "university_name", name)` */
    method GetOrInsertUniversity(name: string) returns (id: nat)
      requires Valid()
      modifies this
      ensures Valid()
      ensures (universities, id) == GetOrInsert(old(universities), name)
      ensures schools == old(schools) && degrees == old(degrees) && years == old(years) && facts == old(facts)
    {
      GetOrInsertFacts(universities, name);
      if name in universities.ids {
        return universities.ids[name];
      }
      id := universities.next;
      universities := KeyedTable(universities.ids[name := id], id + 1);
    }

    /** Lines 203-215: the school of a university, inserted when absent. */
    method ResolveSchool(uniId: nat, name: string) returns (id: nat)
      requires Valid()
      modifies this
      ensures Valid()
      ensures (schools, id) == GetOrInsert(old(schools), (uniId, name))
      ensures universities == old(universities) && degrees == old(degrees) && years == old(years) && facts == old(facts)
    {
      GetOrInsertFacts(schools, (uniId, name));
      if (uniId, name) in schools.ids {
        return schools.ids[(uniId, name)];
      }
      id := schools.next;
      schools := KeyedTable(schools.ids[(uniId, name) := id], id + 1);
    }

    /** Lines 217-229: the degree of a school, inserted when absent. */
    method ResolveDegree(schoolId: nat, name: string) returns (id: nat)
      requires Valid()
      modifies this
      ensures Valid()
      ensures (degrees, id) == GetOrInsert(old(degrees), (schoolId, name))
      ensures universities == old(universities) && schools == old(schools) && years == old(years) && facts == old(facts)
    {
      GetOrInsertFacts(degrees, (schoolId, name));
      if (schoolId, name) in degrees.ids {
        return degrees.ids[(schoolId, name)];
      }
      id := degrees.next;
      degrees := KeyedTable(degrees.ids[(schoolId, name) := id], id + 1);
    }

    /** Lines 231-237: the year's id; the insert of a year outside
        [2000, 2100] fails its CHECK, which raises. */
    method ResolveYear(year: int) returns (id: Option<nat>)
      requires Valid()
      modifies this
      ensures Valid()
      ensures id.None? <==> year !in old(years.ids) && !YearAllowed(year)
      ensures id.Some? ==> (years, id.value) == GetOrInsert(old(years), year)
      ensures id.None? ==> years == old(years)
      ensures universities == old(universities) && schools == old(schools) && degrees == old(degrees) && facts == old(facts)
    {
      if year in years.ids {
        return Some(years.ids[year]);
      }
      if !YearAllowed(year) {
        return None;
      }
      GetOrInsertFacts(years, year);
      id := Some(years.next);
      years := KeyedTable(years.ids[year := years.next], years.next + 1);
    }

    /** Lines 265-276: INSERT OR REPLACE, refused when a CHECK fails. */
    method InsertOrReplaceFact(key: FactKey, m: Measures) returns (ok: bool)
      requires Valid()
      modifies this
      ensures Valid()
      ensures ok == FactChecks(m)
      ensures facts == if ok then InsertOrReplace(old(facts), key, m) else old(facts)
      ensures universities == old(universities) && schools == old(schools) && degrees == old(degrees) && years == old(years)
    {
      if !FactChecks(m) {
        return false;
      }
      InsertOrReplaceFacts(facts, key, m);
      facts := InsertOrReplace(facts, key, m);
      ok := true;
    }

    /** The body of the `for` loop, lines 196-281, on one frame row: `ok`
        says whether `inserted` is incremented, `entry` is what is appended
        to `audit_rows`. */
    method LoadRow(columns: seq<string>, row: Cells) returns (ok: bool, entry: Option<AuditEntry>)
      requires Valid()
      modifies this
      ensures Valid()
      ensures State() == LoadOne(old(State()), columns, row)
      ensures ok == RowWrites(columns, row)
      ensures entry == RowAudit(columns, row)
    {
      var r := ReadRow(columns, row);
      if r.None? {
        return false, None;
      }
      ghost var before := State();
      WriteRowValid(before, r.value);
      var uId := GetOrInsertUniversity(r.value.university);
      var sId := ResolveSchool(uId, r.value.school);
      var dId := ResolveDegree(sId, r.value.degree);
      var yId := ResolveYear(r.value.year);
      if yId.None? {
        return false, None;
      }
      var m := r.value.measures;
      entry := None;
      if GrossBelowBasic(m) {
        entry := Some(AuditEntry(r.value.university, r.value.school, r.value.degree, r.value.year,
                                 m.basicMedian, m.grossMedian));
        m := m.(grossMedian := m.basicMedian);
      }
      ok := InsertOrReplaceFact((dId, yId.value), m);
    }

    /** `load_to_db`: every row through the loop body, counting the rows
        whose fact is written and collecting the audit. */
    method LoadToDb(df: Frame) returns (inserted: nat, audit: seq<AuditEntry>)
      requires Valid()
      modifies this
      ensures Valid()
      ensures State() == LoadAll(old(State()), df.columns, df.rows)
      ensures inserted == |Filter(df.rows, RowWritesMask(df.columns))|
      ensures audit == AuditAll(df.columns, df.rows)
    {
      ghost var db0 := State();
      inserted, audit := 0, [];
      for i := 0 to |df.rows|
        invariant Valid()
        invariant State() == LoadAll(db0, df.columns, df.rows[..i])
        invariant inserted == |Filter(df.rows[..i], RowWritesMask(df.columns))|
        invariant audit == AuditAll(df.columns, df.rows[..i])
      {
        LoadAllNext(db0, df.columns, df.rows, i);
        var ok, entry := LoadRow(df.columns, df.rows[i]);
        if ok {
          inserted := inserted + 1;
        }
        audit := audit + OptionSeq(entry);
      }
      assert df.rows[..|df.rows|] == df.rows;
    }
  }
}

/**
 * The `fact_employment` record: employment outcomes of one degree in one
 * survey year, its sanity checks, and the three read queries over the
 * table. A query is a selection over the table's rows; the database
 * session is the sequence of stored records.
 */
module EmploymentRecords {
  import opened Wrappers
  import opened Frames

  /** One row of `fact_employment`. A field the survey did not report is `None`. */
  datatype EmploymentRecord = EmploymentRecord(
    recordId: int,
    degreeId: int,
    yearId: int,
    employmentRateOverall: Option<real>,
    employmentRateFtPerm: Option<real>,
    basicMonthlyMean: Option<real>,
    basicMonthlyMedian: Option<real>,
    grossMonthlyMean: Option<real>,
    grossMonthlyMedian: Option<real>,
    grossMthly25Percentile: Option<real>,
    grossMthly75Percentile: Option<real>)

  /** A record with the given keys and every measure unknown. */
  function Blank(recordId: int, degreeId: int, yearId: int): EmploymentRecord {
    EmploymentRecord(recordId, degreeId, yearId, None, None, None, None, None, None, None, None)
  }

  // ---------------------------------------------------------------------
  // Sanity checks
  // ---------------------------------------------------------------------

  /** A rate is a percentage; an unknown rate is accepted. */
  predicate IsRateValid(rate: Option<real>) {
    rate.None? || 0.0 <= rate.value <= 100.0
  }

  /** A salary is never negative; an unknown salary is accepted. */
  predicate IsNonNegative(value: Option<real>) {
    value.None? || value.value >= 0.0
  }

  predicate HasValidEmploymentRates(r: EmploymentRecord) {
    IsRateValid(r.employmentRateOverall) && IsRateValid(r.employmentRateFtPerm)
  }

  /** The six salary measures, in the order they are checked. */
  function SalaryFields(r: EmploymentRecord): (s: seq<Option<real>>)
    ensures |s| == 6
  {
    [r.basicMonthlyMean, r.basicMonthlyMedian, r.grossMonthlyMean,
     r.grossMonthlyMedian, r.grossMthly25Percentile, r.grossMthly75Percentile]
  }

  /** `all(_is_non_negative(v) for v in salary_fields)` */
  predicate HasNonNegativeSalaries(r: EmploymentRecord)
    ensures HasNonNegativeSalaries(r) <==>
      && IsNonNegative(r.basicMonthlyMean) && IsNonNegative(r.basicMonthlyMedian)
      && IsNonNegative(r.grossMonthlyMean) && IsNonNegative(r.grossMonthlyMedian)
      && IsNonNegative(r.grossMthly25Percentile) && IsNonNegative(r.grossMthly75Percentile)
  {
    var s := SalaryFields(r);
    assert s[0] == r.basicMonthlyMean && s[1] == r.basicMonthlyMedian && s[2] == r.grossMonthlyMean;
    assert s[3] == r.grossMonthlyMedian && s[4] == r.grossMthly25Percentile && s[5] == r.grossMthly75Percentile;
    forall k :: 0 <= k < |s| ==> IsNonNegative(s[k])
  }

  /** p25 <= median <= p75, checked only when all three are known. */
  predicate HasValidPercentileOrder(r: EmploymentRecord) {
    var p25 := r.grossMthly25Percentile;
    var med := r.grossMonthlyMedian;
    var p75 := r.grossMthly75Percentile;
    p25.None? || med.None? || p75.None? || (p25.value <= med.value <= p75.value)
  }

  predicate IsSaneRecord(r: EmploymentRecord) {
    HasValidEmploymentRates(r) && HasNonNegativeSalaries(r) && HasValidPercentileOrder(r)
  }

  /** A record is sane exactly when every known rate lies in [0, 100], every
      known salary is at least 0, and, when all three are known, the gross
      quartiles are ordered around the median. */
  lemma SaneRecordFields(r: EmploymentRecord)
    ensures IsSaneRecord(r) <==>
      && (forall rate :: rate in [r.employmentRateOverall, r.employmentRateFtPerm] && rate.Some? ==>
            0.0 <= rate.value <= 100.0)
      && (forall v :: v in SalaryFields(r) && v.Some? ==> v.value >= 0.0)
      && (r.grossMthly25Percentile.Some? && r.grossMonthlyMedian.Some? && r.grossMthly75Percentile.Some? ==>
            r.grossMthly25Percentile.value <= r.grossMonthlyMedian.value <= r.grossMthly75Percentile.value)
  {
    var s := SalaryFields(r);
    if forall v :: v in s && v.Some? ==> v.value >= 0.0 {
      assert forall k :: 0 <= k < |s| ==> IsNonNegative(s[k]) by {
        forall k | 0 <= k < |s| ensures IsNonNegative(s[k]) {
          assert s[k] in s;
        }
      }
    }
  }

  /** Knowing nothing is sane. */
  lemma BlankIsSane(recordId: int, degreeId: int, yearId: int)
    ensures IsSaneRecord(Blank(recordId, degreeId, yearId))
  {
  }

  /** The unit-test cases: rates 50/60 pass, an overall rate of 120 or a
      full-time rate of -1 fails, unknown rates pass; salaries of 1 and 2 pass
      the salary check and a single gross median of -0.01 fails it; quartiles 2000/3000/4000 pass and
      3500/3000/4000 fail. */
  lemma ExampleRecords()
    ensures HasValidEmploymentRates(Blank(10, 1, 1).(employmentRateOverall := Some(50.0), employmentRateFtPerm := Some(60.0)))
    ensures !HasValidEmploymentRates(Blank(11, 1, 1).(employmentRateOverall := Some(120.0), employmentRateFtPerm := Some(60.0)))
    ensures !HasValidEmploymentRates(Blank(12, 1, 1).(employmentRateOverall := Some(60.0), employmentRateFtPerm := Some(-1.0)))
    ensures HasValidEmploymentRates(Blank(13, 1, 1))
    ensures HasNonNegativeSalaries(Blank(14, 1, 1).(basicMonthlyMean := Some(1.0), basicMonthlyMedian := Some(1.0),
              grossMonthlyMean := Some(1.0), grossMonthlyMedian := Some(1.0),
              grossMthly25Percentile := Some(1.0), grossMthly75Percentile := Some(2.0)))
    ensures !HasNonNegativeSalaries(Blank(15, 1, 1).(grossMonthlyMedian := Some(-0.01)))
    ensures HasValidPercentileOrder(Blank(16, 1, 1).(grossMthly25Percentile := Some(2000.0),
              grossMonthlyMedian := Some(3000.0), grossMthly75Percentile := Some(4000.0)))
    ensures !HasValidPercentileOrder(Blank(17, 1, 1).(grossMthly25Percentile := Some(3500.0),
              grossMonthlyMedian := Some(3000.0), grossMthly75Percentile := Some(4000.0)))
  {
  }

  // ---------------------------------------------------------------------
  // Queries
  // ---------------------------------------------------------------------

  /** The `ValueError` a query raises on an id that is not positive. */
  datatype QueryError = NonPositiveId(id: int)

  /** `select ... where year_id == yearId` over the stored records. */
  function GetByYear(table: seq<EmploymentRecord>, yearId: int): (r: Result<seq<EmploymentRecord>, QueryError>)
    ensures r.Failure? <==> yearId <= 0
    ensures r.Failure? ==> r.error == NonPositiveId(yearId)
    ensures r.Success? ==> forall x :: x in r.value <==> x in table && x.yearId == yearId
    ensures r.Success? ==> forall x :: multiset(r.value)[x] == if x.yearId == yearId then multiset(table)[x] else 0
  {
    if yearId <= 0 then Failure(NonPositiveId(yearId))
    else
      var p := (x: EmploymentRecord) => x.yearId == yearId;
      FilterMembers(table, p);
      FilterMultiset(table, p);
      Success(Filter(table, p))
  }

  /** `select ... where degree_id == degreeId` over the stored records. */
  function GetByDegree(table: seq<EmploymentRecord>, degreeId: int): (r: Result<seq<EmploymentRecord>, QueryError>)
    ensures r.Failure? <==> degreeId <= 0
    ensures r.Failure? ==> r.error == NonPositiveId(degreeId)
    ensures r.Success? ==> forall x :: x in r.value <==> x in table && x.degreeId == degreeId
    ensures r.Success? ==> forall x :: multiset(r.value)[x] == if x.degreeId == degreeId then multiset(table)[x] else 0
  {
    if degreeId <= 0 then Failure(NonPositiveId(degreeId))
    else
      var p := (x: EmploymentRecord) => x.degreeId == degreeId;
      FilterMembers(table, p);
      FilterMultiset(table, p);
      Success(Filter(table, p))
  }

  /** A record of `s` with the largest `year_id`; among equals, the first. */
  function LatestByYear(s: seq<EmploymentRecord>): (x: EmploymentRecord)
    requires s != []
    ensures x in s
    ensures forall y :: y in s ==> y.yearId <= x.yearId
  {
    if |s| == 1 then s[0]
    else
      var rest := LatestByYear(s[1..]);
      assert forall y :: y in s ==> y == s[0] || y in s[1..];
      if s[0].yearId >= rest.yearId then s[0] else rest
  }

  /** `select ... where degree_id == degreeId order by year_id desc`, first row. */
  function GetLatestForDegree(table: seq<EmploymentRecord>, degreeId: int): (r: Result<Option<EmploymentRecord>, QueryError>)
    ensures r.Failure? <==> degreeId <= 0
    ensures r.Failure? ==> r.error == NonPositiveId(degreeId)
    ensures r.Success? && r.value.None? <==> degreeId > 0 && forall y :: y in table ==> y.degreeId != degreeId
    ensures r.Success? && r.value.Some? ==>
      && r.value.value in table && r.value.value.degreeId == degreeId
      && forall y :: y in table && y.degreeId == degreeId ==> y.yearId <= r.value.value.yearId
  {
    if degreeId <= 0 then Failure(NonPositiveId(degreeId))
    else
      var p := (x: EmploymentRecord) => x.degreeId == degreeId;
      var matching := Filter(table, p);
      FilterMembers(table, p);
      if matching == [] then Success(None) else Success(Some(LatestByYear(matching)))
  }

  /** Latest for a degree is one of the records selected by degree. */
  lemma LatestIsAmongDegree(table: seq<EmploymentRecord>, degreeId: int)
    requires GetLatestForDegree(table, degreeId).Success? && GetLatestForDegree(table, degreeId).value.Some?
    ensures GetByDegree(table, degreeId).Success?
    ensures GetLatestForDegree(table, degreeId).value.value in GetByDegree(table, degreeId).value
  {
  }

  /** The seeded table of the database tests (measures omitted). */
  function SeededTable(): seq<EmploymentRecord> {
    [Blank(1, 100, 1), Blank(2, 100, 2), Blank(3, 200, 2)]
  }

  /** Year 2 selects records 2 and 3; year 0 is refused. */
  lemma ExampleByYear()
    ensures GetByYear(SeededTable(), 2) == Success([SeededTable()[1], SeededTable()[2]])
    ensures GetByYear(SeededTable(), 0).Failure?
  {
    var t := SeededTable();
    var p := (x: EmploymentRecord) => x.yearId == 2;
    assert t[1..] == [t[1], t[2]] && t[1..][1..] == [t[2]] && [t[2]][1..] == [];
    assert Filter([t[2]], p) == [t[2]];
    assert Filter([t[1], t[2]], p) == [t[1], t[2]];
  }

  /** Degree 100 selects records 1 and 2, and its latest record is record 2. */
  lemma ExampleByDegree()
    ensures GetByDegree(SeededTable(), 100) == Success([SeededTable()[0], SeededTable()[1]])
    ensures GetLatestForDegree(SeededTable(), 100) == Success(Some(SeededTable()[1]))
  {
    var t := SeededTable();
    var p := (x: EmploymentRecord) => x.degreeId == 100;
    assert t[1..] == [t[1], t[2]] && t[1..][1..] == [t[2]] && [t[2]][1..] == [];
    assert Filter([t[2]], p) == [];
    assert Filter([t[1], t[2]], p) == [t[1]];
    assert Filter(t, p) == [t[0], t[1]];
    assert [t[0], t[1]][1..] == [t[1]];
  }
}

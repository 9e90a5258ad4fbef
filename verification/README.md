# Graduate Employment Survey loaders, in Dafny

This project models the data-handling core of a coursework repository. The
repository cleans the Graduate Employment Survey CSV (one row per university,
degree and year) and loads it into SQLite. The model covers:

- **`EmploymentRecords`** (`src/coursework2/employment_record.py`): the
  `fact_employment` record, its sanity checks (rates in [0, 100], salaries
  non-negative, p25 ≤ median ≤ p75, with `None` always acceptable) and its
  three queries. Each query refuses a non-positive id.
- **`OrmLoader`** (`src/coursework1/2.1.py`):
  - `_as_float`, `_clean_year` and `parse_dataframe`;
  - the `get_or_create_*` functions and `upsert_result`;
  - the load loop with its three memo dictionaries;
  - `audit_and_fix_gross_basic`;
  - the schema's CHECK constraints, as a `Session` class over the four tables.
- **`SqliteClean`** (`src/coursework1/db.py`): `clean_numeric`, the
  column-name normalisation and rename of `load_csv`, the numeric cleaning,
  and `validate_dataframe`.
- **`SqliteLoader`** (`src/coursework1/db.py`):
  - `get_or_insert`, and the per-row look-up-or-insert of school, degree and year;
  - the gross-below-basic audit and clamp;
  - `INSERT OR REPLACE` into `fact_employment` under its CHECKs, as a `Database` class;
  - `load_to_db`'s loop, where a failing row is logged and skipped.
- **`Prepare`** (`src/coursework1/2.2.py`):
  - `read_and_prepare`: column normalisation, coercion, screening, and the EPS
    audit with its clamp or drop strategy;
  - `upsert_dim_tables` and `load_fact_table`, both `INSERT OR IGNORE`, as a
    `SurveyDb` class.
- **`EdaClean`** (`src/coursework1/1.2.py`): `clean_base`, `latest_year` and
  `ensure_not_empty`.

Shared modules:

- `Frames` models pandas cells and frames. A cell is missing, a finite number,
  an infinity or text. A comparison with a missing value is false.
  `pd.to_numeric(errors="coerce")` is `ToNumeric`. A frame is a list of column
  names and positional rows.
- `Tables` models a SQLite table with a UNIQUE natural key and autoincrement
  ids (`KeyedTable`). It also models a fact table keyed by (dimension id,
  year id), with the three write disciplines the scripts use: ORM upsert,
  `INSERT OR REPLACE` and `INSERT OR IGNORE`.
- `Strings` models `str.strip`, `lower`, `replace` and decimal parsing.

The main properties proved:

- Each pipeline's final tables are given exactly:
  - `db.py` and `2.1.py`: the last row for a natural key wins;
  - `2.2.py`: the first row that passes the CHECKs wins.
- A stored result always passes the constraints.
- The audits list exactly the offending rows, and a clamp removes every
  offence without touching anything else.
- The memo dictionaries of `2.1.py` always agree with the tables.
- Every cleaning step has its exact effect on rows and columns.

Two consequences of the code are shown concretely:

- In `2.2.py` a row whose gross median lies less than EPS below its basic
  median is neither clamped nor stored, because `INSERT OR IGNORE` silently
  skips it (`Prepare.NearMissNotStored`).
- In `db.py` a row audited for gross below basic can still fail a rate CHECK
  and be skipped (`SqliteLoader.AuditedButNotWritten`).

## Model

| member | source | states |
|---|---|---|
| EmploymentRecords.SalaryFields | src/coursework2/employment_record.py:114-121 | the salary list has the six salary metrics |
| EmploymentRecords.HasNonNegativeSalaries | src/coursework2/employment_record.py:110-122 | true exactly when each of the six salary metrics is absent or non-negative |
| EmploymentRecords.IsRateValid | src/coursework2/employment_record.py:81-88 | `_is_rate_valid` as a definition: an unknown rate passes, a known one passes exactly when it lies in [0, 100] |
| EmploymentRecords.IsNonNegative | src/coursework2/employment_record.py:90-98 | `_is_non_negative` as a definition: an unknown salary passes, a known one passes exactly when it is at least 0 |
| EmploymentRecords.HasValidEmploymentRates | src/coursework2/employment_record.py:100-107 | both the overall and the full-time permanent rate pass `IsRateValid` |
| EmploymentRecords.HasValidPercentileOrder | src/coursework2/employment_record.py:123-137 | p25 ≤ median ≤ p75, and the check passes whenever any of the three is unknown |
| EmploymentRecords.IsSaneRecord | src/coursework2/employment_record.py:139-148 | the conjunction of the rate, salary and quartile checks; SaneRecordFields spells it out field by field |
| EmploymentRecords.SaneRecordFields | src/coursework2/employment_record.py:81-148 | a record is sane exactly when every present rate is in [0, 100], every present salary is ≥ 0, and p25 ≤ median ≤ p75 whenever all three are present |
| EmploymentRecords.BlankIsSane | src/coursework2/employment_record.py:24-34 | a record with every metric unknown is sane |
| EmploymentRecords.ExampleRecords | tests/test_employment_record_logic.py:10-108 | each of the eight unit-test records gets the verdict its test expects |
| EmploymentRecords.GetByYear | src/coursework2/employment_record.py:40-48 | fails exactly on a non-positive id, naming it; otherwise returns exactly the stored records of that year, each as often as stored |
| EmploymentRecords.GetByDegree | src/coursework2/employment_record.py:50-58 | the same for a degree id |
| EmploymentRecords.LatestByYear | src/coursework2/employment_record.py:70-75 | the first record after ordering by year id descending is a stored record with no larger year id |
| EmploymentRecords.GetLatestForDegree | src/coursework2/employment_record.py:60-75 | fails exactly on a non-positive id; `None` exactly when the degree has no record; otherwise a record of that degree with the largest year id |
| EmploymentRecords.LatestIsAmongDegree | src/coursework2/employment_record.py:50-75 | the latest record of a degree is among that degree's records |
| EmploymentRecords.ExampleByYear | tests/test_employment_record_db.py:12-37 | on the seeded table, year 2 returns records 2 and 3, and year 0 is refused |
| EmploymentRecords.ExampleByDegree | tests/test_employment_record_db.py:19-31 | on the seeded table, degree 100 returns records 1 and 2, and its latest is record 2 |
| OrmLoader.AsFloat | src/coursework1/2.1.py:202-211 | `_as_float`: a number is kept, text is stripped and parsed as a decimal, anything else is `None`; AsFloatIsToNumeric ties it to numeric coercion |
| OrmLoader.AsFloatIsToNumeric | src/coursework1/2.1.py:202-211 | on text whose only whitespace is ASCII, `_as_float` yields a value exactly when numeric coercion gives a finite number, and yields that number |
| OrmLoader.AsFloatDisagreesOnNoBreakSpace | src/coursework1/2.1.py:202-211 | on "12" followed by a no-break space, `float()` reads 12 while `to_numeric` gives missing |
| OrmLoader.AsFloatText | src/coursework1/2.1.py:202-211 | a whole number written in decimal, padded with whitespace, reads back as itself |
| OrmLoader.CleanYear | src/coursework1/2.1.py:214-221 | a cleaned year always lies in [2000, 2100] |
| OrmLoader.CleanYearIntegral | src/coursework1/2.1.py:214-221 | a whole-number year is kept exactly when it is in range, and kept unchanged |
| OrmLoader.CleanYearText | src/coursework1/2.1.py:214-221 | a year written as text is kept exactly when it is in range, and read back exactly |
| OrmLoader.CleanYearTruncates | src/coursework1/2.1.py:214-221 | `int()` truncates: 2020.9 is year 2020 and 1999.5 is refused |
| OrmLoader.RenameColumns | src/coursework1/2.1.py:231-243 | the rename keeps the number and order of the columns |
| OrmLoader.ParseRow | src/coursework1/2.1.py:255-269 | a row parses exactly when its year cleans; the parsed year is the cleaned year and the names are stripped |
| OrmLoader.ParseRows | src/coursework1/2.1.py:254-270 | at most one survey row per frame row; every survey row has an in-range year and stripped names |
| OrmLoader.ParseRowsCount | src/coursework1/2.1.py:254-270 | exactly the rows whose year cleans produce a survey row |
| OrmLoader.MissingRequiredMembers | src/coursework1/2.1.py:245-250 | the missing list holds exactly the required columns the renamed frame lacks |
| OrmLoader.ParseRowsNext | src/coursework1/2.1.py:254-270 | parsing one more frame row appends that row's survey row, if it has one |
| OrmLoader.ParseDataframe | src/coursework1/2.1.py:224-270 | fails exactly when a required column is missing after the rename, naming the missing columns; otherwise returns the parsed rows in order |
| OrmLoader.ChecksMakeSaneRecord | src/coursework1/2.1.py:151-175 | measures passing the `survey_result` CHECKs form a sane employment record |
| OrmLoader.Clamp | src/coursework1/2.1.py:353-363 | the clamp keeps id and key, leaves gross ≥ basic, leaves a non-violating result untouched, and replaces only the gross median by the basic median |
| OrmLoader.ClampAll | src/coursework1/2.1.py:353-363 | every result is clamped, in place and in order |
| OrmLoader.AuditOfLists | src/coursework1/2.1.py:341-361 | the audit has one line per result with both medians known and gross < basic; each such result is listed with its original medians, and every line comes from one |
| OrmLoader.ClampAllValid | src/coursework1/2.1.py:353-363 | clamping keeps the fact table's keys unique |
| OrmLoader.AuditEmptyUnderChecks | src/coursework1/2.1.py:341-351 | when every stored result satisfies gross ≥ basic, the audit is empty |
| OrmLoader.AuditAfterClampEmpty | src/coursework1/2.1.py:336-366 | a second audit after the clamp finds nothing |
| OrmLoader.ClampRestoresChecks | src/coursework1/2.1.py:151-175 | a result passing every CHECK except `ck_gross_ge_basic` passes all of them once clamped |
| OrmLoader.UniversityNames | src/coursework1/2.1.py:444-452 | every row's university is among the names |
| OrmLoader.SurveyYears | src/coursework1/2.1.py:462-467 | every row's year is among the years |
| OrmLoader.Items | src/coursework1/2.1.py:444-470 | item k is row k's natural key with its measures |
| OrmLoader.ItemsSplitLast | src/coursework1/2.1.py:444-470 | the items of the rows are those of all rows but the last, followed by the last row's item |
| OrmLoader.ResolveInjective | src/coursework1/2.1.py:99-120 | because the three dimension tables are UNIQUE, distinct natural keys resolve to distinct fact keys |
| OrmLoader.ResolvesExtends | src/coursework1/2.1.py:276-307 | growing the dimension tables keeps every resolution |
| OrmLoader.UpsertKeepsAllPass | src/coursework1/2.1.py:310-330 | upserting values that pass the CHECKs keeps every stored result passing |
| OrmLoader.AllPassWithoutGross | src/coursework1/2.1.py:151-175 | results passing every CHECK pass those without `ck_gross_ge_basic` |
| OrmLoader.LoadStep | src/coursework1/2.1.py:444-470 | one upsert of the loop keeps every key resolved, the last value for each natural key stored, and unresolved keys unchanged |
| OrmLoader.Cached | src/coursework1/2.1.py:446-452 | a memo hit does not touch the table |
| OrmLoader.CachedFacts | src/coursework1/2.1.py:446-467 | a memo lookup yields the key's id in a grown valid table; the memo gains exactly that key and still agrees with the table |
| OrmLoader.StepRow | src/coursework1/2.1.py:444-470 | one pass of the load loop: memoised get-or-create of university, programme and year, then the result upsert, or `None` when a CHECK refuses the row; StepRowAdmissible states when |
| OrmLoader.StepRowAdmissible | src/coursework1/2.1.py:444-470 | with agreeing memos, a row is written exactly when its year passes `ck_year_range` and its measures pass the result CHECKs |
| OrmLoader.StepRowCaches | src/coursework1/2.1.py:444-470 | a written row leaves agreeing memos over grown tables; each memo grows by one exactly on a miss; the row's key resolves to the fact key upserted with its measures |
| OrmLoader.LoadRows | src/coursework1/2.1.py:437-470 | a refused load is refused at one of the rows |
| OrmLoader.LoadRowsCaches | src/coursework1/2.1.py:437-470 | after a successful load the memos agree with the tables and hold exactly the rows' universities and years; the counters equal the memo sizes; no dimension id changed |
| OrmLoader.FirstInadmissible | src/coursework1/2.1.py:444-470 | the position found is a row position |
| OrmLoader.FirstInadmissibleIsFirst | src/coursework1/2.1.py:444-470 | it is the least position of an inadmissible row, and there is none exactly when every row is admissible |
| OrmLoader.LoadRowsRefused | src/coursework1/2.1.py:437-470 | the load is refused exactly when some row is inadmissible, and at the first such row |
| OrmLoader.LoadRowsNext | src/coursework1/2.1.py:444-470 | an admissible row extends a successful load by one step |
| OrmLoader.LoadRowsStop | src/coursework1/2.1.py:444-470 | an inadmissible row after a successful prefix ends the load there |
| OrmLoader.LoadRowsRefusedPrefix | src/coursework1/2.1.py:437-470 | a load refused on a prefix is refused at the same row on all the rows |
| OrmLoader.LoadRowsLastWins | src/coursework1/2.1.py:437-470 | after a successful load each natural key resolves, its fact holds the last measures given for it, and every other result is unchanged |
| OrmLoader.LoadRowsAllPass | src/coursework1/2.1.py:437-470 | a load keeps every stored result passing the CHECKs it enforces |
| OrmLoader.Reported | src/coursework1/2.1.py:437-470 | the report is an error exactly when the load was refused |
| OrmLoader.Session.constructor | src/coursework1/2.1.py:428-430 | a fresh schema: four empty tables whose results pass every CHECK |
| OrmLoader.Session.GetOrCreateUniversity | src/coursework1/2.1.py:276-283 | returns the university's existing id, or inserts it under the next id; the other tables are unchanged |
| OrmLoader.Session.GetOrCreateProgramme | src/coursework1/2.1.py:286-297 | the same, keyed by (university id, programme name) |
| OrmLoader.Session.GetOrCreateYear | src/coursework1/2.1.py:300-307 | the same for a year; fails exactly when the year is outside [2000, 2100], leaving the table unchanged |
| OrmLoader.Session.UpsertResult | src/coursework1/2.1.py:310-330 | succeeds exactly when the values pass the CHECKs; it then overwrites or adds the (programme, year) result, and otherwise changes nothing |
| OrmLoader.Session.ResolveUniversity | src/coursework1/2.1.py:446-452 | the memo lookup for a university |
| OrmLoader.Session.ResolveProgramme | src/coursework1/2.1.py:455-460 | the memo lookup for a programme |
| OrmLoader.Session.ResolveYear | src/coursework1/2.1.py:463-467 | the memo lookup for a year; fails exactly on a memo miss for a year outside the range |
| OrmLoader.Session.LoadRow | src/coursework1/2.1.py:444-470 | one loop iteration performs `StepRow` on the session's tables |
| OrmLoader.Session.LoadNext | src/coursework1/2.1.py:444-470 | one iteration either extends the successful load by the row or ends it, refused at that row |
| OrmLoader.Session.Load | src/coursework1/2.1.py:437-470 | the whole loop: reports `LoadRows` and, on success, leaves its tables |
| OrmLoader.Session.AuditAndFixGrossBasic | src/coursework1/2.1.py:336-366 | replaces every result by its clamp and returns the audit of the old results with its length; the dimensions are unchanged |
| OrmLoader.Session.Run | src/coursework1/2.1.py:433-474 | as written: fails exactly when some row violates a CHECK, including `ck_gross_ge_basic`, leaving the tables as they were; on success the tables are exactly those the row-by-row load produces and the report is that load's; a successful run always audits zero rows |
| OrmLoader.Session.RunDeferringGrossCheck | src/coursework1/2.1.py:336-366 | with `ck_gross_ge_basic` left to the audit: fails exactly when a row fails one of the other CHECKs, leaving the database as it was; on success the report is the load's, the university, programme and year tables are the loaded ones, the audit lists exactly the loaded results with gross below basic and the count is its length, the results are the loaded ones with gross raised to basic, and every stored result has gross ≥ basic |
| OrmLoader.ExampleRunAborts | src/coursework1/2.1.py:170-175 | as written, loading one row with gross 2500 below basic 3000 fails |
| OrmLoader.ExampleDeferredRunSucceeds | src/coursework1/2.1.py:336-366 | with the check deferred, the same load succeeds and the audit counts that one result |
| SqliteClean.CleanNumeric | src/coursework1/db.py:101-109 | text loses every `,` and `%` and is stripped before coercion; the result is never text and a non-text cell is unchanged |
| SqliteClean.UnseparatedIgnoresSeparator | src/coursework1/db.py:104-106 | removing `,` and `%` makes a separator anywhere irrelevant |
| SqliteClean.CleanNumericIgnoresSeparator | src/coursework1/db.py:101-109 | a `,` or `%` anywhere in the text does not change the cleaned number |
| SqliteClean.CleanNumericNatText | src/coursework1/db.py:101-109 | a whole number in decimal cleans to itself |
| SqliteClean.CleanNumericPercent | src/coursework1/db.py:101-109 | "n%" cleans to n |
| SqliteClean.NormaliseNameShape | src/coursework1/db.py:148 | a normalised name is stripped, lower-case and space-free, with the length of the stripped name |
| SqliteClean.NormalNameFixed | src/coursework1/db.py:148 | an already normal name normalises to itself |
| SqliteClean.NormaliseNameIdempotent | src/coursework1/db.py:148 | normalising twice is normalising once |
| SqliteClean.NormaliseColumns | src/coursework1/db.py:148-154 | one name per column |
| SqliteClean.NormaliseColumnsAt | src/coursework1/db.py:148-154 | column k is column k's normalised and renamed name |
| SqliteClean.RenameTargetsNormal | src/coursework1/db.py:149-153 | the rename targets are normal names that are not themselves renamed |
| SqliteClean.RenameColumnNormal | src/coursework1/db.py:149-154 | renaming a normal name gives a normal name that is not a rename key, and a second pass fixes it |
| SqliteClean.NormaliseColumnsShape | src/coursework1/db.py:148-154 | every loaded column name is normal and not a rename key |
| SqliteClean.LoadedNameIdempotent | src/coursework1/db.py:148-154 | normalising and renaming a loaded name changes nothing |
| SqliteClean.NormaliseColumnsIdempotent | src/coursework1/db.py:148-154 | normalising a loaded header again changes nothing |
| SqliteClean.AddColumn | src/coursework1/db.py:118-119 | adds the column at the end and keeps the row count |
| SqliteClean.FillDefaults | src/coursework1/db.py:114-119 | appends the missing columns and keeps the row count |
| SqliteClean.FillDefaultsLookup | src/coursework1/db.py:114-119 | a filled column reads its default (`"UNKNOWN"`, or 2020 for year); every other column reads as before |
| SqliteClean.FillDefaultsWellFormed | src/coursework1/db.py:114-119 | filling keeps every row as wide as the header |
| SqliteClean.KeptYear | src/coursework1/db.py:121-124 | a kept year lies in [2000, 2100] |
| SqliteClean.KeepYears | src/coursework1/db.py:121-124 | the year filter never adds rows |
| SqliteClean.AnyInfiniteYearExists | src/coursework1/db.py:121-123 | the cast fails exactly when some coerced year is infinite |
| SqliteClean.ValidateDataframe | src/coursework1/db.py:112-135 | returns `Validated`: missing key columns filled with defaults, years coerced, rows without an in-range year dropped, or failure on an infinite year |
| SqliteClean.KeepYearsInRange | src/coursework1/db.py:121-124 | every kept row's year is a whole number in [2000, 2100] |
| SqliteClean.KeepYearsSelects | src/coursework1/db.py:121-124 | the kept rows are exactly the rows whose year truncates into range, in order, with only the year cell changed |
| SqliteClean.Validated | src/coursework1/db.py:112-135 | `validate_dataframe` as a value: fill absent required columns, fail on an infinite year, keep the rows whose year is in range; ValidatedRows and ValidatedFails state the result |
| SqliteClean.ValidatedRows | src/coursework1/db.py:112-135 | on success every required column is present, the missing ones appended; the rows are exactly the in-range ones; every year is a whole number in [2000, 2100] |
| SqliteClean.ValidatedFails | src/coursework1/db.py:121-123 | validation fails exactly when some coerced year is infinite |
| SqliteClean.ValidatedDefaultYear | src/coursework1/db.py:114-124 | with no year column every row gets year 2020 and is kept |
| SqliteClean.ValidatedDefaultText | src/coursework1/db.py:114-119 | a missing text key column reads `"UNKNOWN"` in every row |
| SqliteClean.CleanColumns | src/coursework1/db.py:166-168 | cleaning keeps the header and the row count |
| SqliteClean.CleanColumnsNumeric | src/coursework1/db.py:166-168 | a cleaned numeric column holds no text |
| SqliteClean.LoadCsv | src/coursework1/db.py:138-172 | the loaded frame is the normalised, renamed, numerically cleaned frame, validated |
| SqliteClean.ValidatedCellFrom | src/coursework1/db.py:112-135 | every non-year cell of a validated row comes from some input row |
| SqliteClean.LoadCsvNumeric | src/coursework1/db.py:156-172 | after loading, no numeric column holds text |
| SqliteLoader.ClampFacts | src/coursework1/db.py:239-253 | after the clamp gross is not below basic; a row is changed exactly when it was flagged; only the gross median changes, and it becomes the basic median |
| SqliteLoader.ClampKeepsChecks | src/coursework1/db.py:239-253 | the clamp keeps the `fact_employment` CHECKs; a flagged row whose only CHECK failure is its gross median passes once clamped |
| SqliteLoader.ClampRescuesNegativeGross | src/coursework1/db.py:239-253 | basic 3000 with gross -5 fails the CHECKs and passes once clamped |
| SqliteLoader.AuditedButNotWritten | src/coursework1/db.py:239-281 | a row with rate 120 and gross below basic is audited but its insert fails |
| SqliteLoader.WriteRow | src/coursework1/db.py:196-281 | one row of `load_to_db`: get-or-insert of university, school, degree and year, clamp, then INSERT OR REPLACE of the fact when the CHECKs pass; WriteRowValid and WriteRowResolves state its effect |
| SqliteLoader.WriteRowValid | src/coursework1/db.py:196-281 | one row keeps the tables valid and only grows the dimensions; it inserts a fact exactly when the row passes the year and fact CHECKs, and otherwise leaves the facts alone |
| SqliteLoader.WriteRowResolves | src/coursework1/db.py:202-276 | a written row's key resolves to a fact holding its clamped measures, and every other fact is unchanged |
| SqliteLoader.LoadAllNext | src/coursework1/db.py:195-281 | one more row extends the load, the audit and the inserted rows by that row's contribution |
| SqliteLoader.LoadAllValid | src/coursework1/db.py:195-281 | the load keeps the tables valid and only grows the dimensions |
| SqliteLoader.AuditAllFacts | src/coursework1/db.py:239-252 | the audit has one entry per flagged, readable row with an allowed year; each entry has both medians known and gross below basic |
| SqliteLoader.ResolveInjective | src/coursework1/db.py:34-61 | because the dimension tables are UNIQUE, distinct natural keys resolve to distinct fact keys |
| SqliteLoader.ResolvesExtends | src/coursework1/db.py:202-237 | growing the dimensions keeps every resolution |
| SqliteLoader.WriteRowLastWins | src/coursework1/db.py:255-276 | one written row keeps every key resolved, the last value per key stored, and unresolved keys unchanged |
| SqliteLoader.LoadOneLastWins | src/coursework1/db.py:195-281 | the same for any row: a skipped row adds no item |
| SqliteLoader.LoadAll | src/coursework1/db.py:187-281 | `load_to_db` as a fold of one row at a time over the frame; LoadAllValid, LoadAllLastWins and LoadAllFactsOk state the result |
| SqliteLoader.LoadAllLastWins | src/coursework1/db.py:187-281 | after the load each written row's key resolves, its fact holds the clamped measures of the last row written for it, and every other fact is unchanged |
| SqliteLoader.LoadAllFactsOk | src/coursework1/db.py:63-72 | the load keeps every stored fact passing the CHECKs |
| SqliteLoader.SkippedRowKeepsFacts | src/coursework1/db.py:196-281 | a failing row leaves the facts unchanged; a row failing before any insert leaves the whole database unchanged |
| SqliteLoader.Database.constructor | src/coursework1/db.py:17-86 | a fresh schema: five empty tables |
| SqliteLoader.Database.GetOrInsertUniversity | src/coursework1/db.py:178-184 | returns the existing rowid or inserts under the next id; nothing else changes |
| SqliteLoader.Database.ResolveSchool | src/coursework1/db.py:203-215 | the same, keyed by (university id, school name) |
| SqliteLoader.Database.ResolveDegree | src/coursework1/db.py:217-229 | the same, keyed by (school id, degree name) |
| SqliteLoader.Database.ResolveYear | src/coursework1/db.py:231-237 | the same for a year; fails exactly for a new year outside [2000, 2100], leaving the table unchanged |
| SqliteLoader.Database.InsertOrReplaceFact | src/coursework1/db.py:265-276 | succeeds exactly when the measures pass the CHECKs, and then replaces any fact with that key by a new last row |
| SqliteLoader.Database.LoadRow | src/coursework1/db.py:196-281 | one iteration performs `LoadOne`; it counts the row exactly when the row is written, and returns the row's audit entry |
| SqliteLoader.Database.LoadToDb | src/coursework1/db.py:187-290 | the tables become `LoadAll` of the rows; the count is the number of written rows and the audit is `AuditAll` |
| Prepare.PrepColumns | src/coursework1/2.2.py:108 | one name per column |
| Prepare.PrepColumnsAt | src/coursework1/2.2.py:108 | column k is column k stripped and lower-cased |
| Prepare.PrepNameShape | src/coursework1/2.2.py:108 | a prepared name is stripped and lower-case, and preparing it again changes nothing |
| Prepare.PrepColumnsShape | src/coursework1/2.2.py:108 | every prepared column name is stripped and lower-case |
| Prepare.StrCell | src/coursework1/2.2.py:111-113 | `astype(str).str.strip()` always yields stripped text |
| Prepare.ReadRecords | src/coursework1/2.2.py:111-143 | one record per row |
| Prepare.ClampRecordFacts | src/coursework1/2.2.py:178-184 | the clamp removes both flags and keeps admissibility; an unflagged record is unchanged; a flagged gross becomes its basic; nothing else changes |
| Prepare.NoBadNoChange | src/coursework1/2.2.py:171-187 | with no flagged row every strategy returns the rows unchanged |
| Prepare.ReadAndPrepare | src/coursework1/2.2.py:106-188 | `read_and_prepare` on an already-read frame: refuse a missing column, otherwise screen the rows, apply the strategy and keep the audit; ReadAndPrepareFails, AuditExact and PreparedAdmissible state the result |
| Prepare.ReadAndPrepareFails | src/coursework1/2.2.py:141-170 | fails exactly when one of the seven key and salary columns is missing after normalisation |
| Prepare.ScreenedFacts | src/coursework1/2.2.py:141-157 | every screened record is admissible with a year in [2000, 2100], and the screened records keep their order |
| Prepare.ReadRecordsTrimmed | src/coursework1/2.2.py:111-113 | every record's university and degree are stripped text |
| Prepare.AuditExact | src/coursework1/2.2.py:159-177 | the audit holds exactly the flagged screened records, in order |
| Prepare.ClampStrategyFacts | src/coursework1/2.2.py:178-184 | under "clamp" the records are the screened ones, each clamped; none stays flagged and all stay admissible |
| Prepare.DropStrategyFacts | src/coursework1/2.2.py:185-186 | under "drop" the records are exactly the unflagged screened ones, in order; kept plus audited equals screened |
| Prepare.PreparedAdmissible | src/coursework1/2.2.py:145-188 | every prepared record is admissible, under any strategy |
| Prepare.MissingUniversityRecord | src/coursework1/2.2.py:111-113 | a missing university reads as the text "nan" |
| Prepare.MissingUniversityKept | src/coursework1/2.2.py:106-188 | as written, a row with no university survives preparation as university "nan" |
| Prepare.NanRowSurvives | src/coursework1/2.2.py:145-187 | that record is admissible, unflagged, and kept by every strategy |
| Prepare.SingleRowPrepared | src/coursework1/2.2.py:106-188 | a one-row frame whose record is admissible and unflagged prepares to that record alone |
| Prepare.FixedDropsMissingKeys | src/coursework1/2.2.py:141-143 | corrected: a row missing its university or degree contributes nothing, whatever the other rows are (a row missing its year is dropped already as written) |
| Prepare.FixedAgreesOnCompleteRows | src/coursework1/2.2.py:106-188 | corrected and as-written preparation agree when every row has its keys |
| Prepare.UniversityNamesMembers | src/coursework1/2.2.py:195 | the university list holds exactly the non-missing university names |
| Prepare.SurveyYearsMembers | src/coursework1/2.2.py:201-204 | the year list holds exactly the truncated years in [2000, 2100]; `INSERT OR IGNORE` skips the others |
| Prepare.UpsertDims | src/coursework1/2.2.py:191-216 | `upsert_dim_tables`: INSERT OR IGNORE of the universities, then of the (university, programme) pairs, then of the years; UpsertDimsFacts and UpsertDimsIdempotent state the result |
| Prepare.UpsertDimsFacts | src/coursework1/2.2.py:191-216 | the dimensions stay valid and only grow; afterwards they hold exactly the old names and years plus those of the records |
| Prepare.UpsertDimsIdempotent | src/coursework1/2.2.py:191-216 | a second upsert of the same records changes nothing |
| Prepare.UnresolvedSkipped | src/coursework1/2.2.py:234-240 | a record whose programme or year is not found adds no fact row |
| Prepare.LoadFacts | src/coursework1/2.2.py:219-265 | `load_fact_table`: INSERT OR IGNORE of each resolved record that passes the CHECKs; LoadFactsFirstWins states the result |
| Prepare.LoadFactsFirstWins | src/coursework1/2.2.py:219-265 | the table stays valid; an existing fact is kept; otherwise the first resolved record passing the CHECKs wins; every new fact passes the CHECKs |
| Prepare.NearMissNotStored | src/coursework1/2.2.py:160-170 | basic 3000 with gross 2999.9999995 is admissible and not flagged, yet fails `ck_salary_logic` |
| Prepare.PreparedYearsFinite | src/coursework1/2.2.py:146 | every prepared record has a finite year |
| Prepare.SurveyDb.constructor | src/coursework1/2.2.py:101-103 | a fresh schema: four empty tables |
| Prepare.SurveyDb.UpsertDimTables | src/coursework1/2.2.py:191-216 | the dimensions become `UpsertDims` of the records; the results are unchanged |
| Prepare.SurveyDb.LoadFactTable | src/coursework1/2.2.py:219-265 | the results become `LoadFacts` of the records; the dimensions are unchanged |
| EdaClean.Coerce | src/coursework1/1.2.py:33-44 | coercion keeps the header and the row count |
| EdaClean.CoerceFacts | src/coursework1/1.2.py:33-44 | a listed column present in the frame holds no text afterwards; every other column is unchanged |
| EdaClean.DedupAfterFacts | src/coursework1/1.2.py:47 | keeps exactly the unseen elements, once each, in order |
| EdaClean.DedupFacts | src/coursework1/1.2.py:47 | `drop_duplicates` keeps every distinct row exactly once and nothing else, as a subsequence of the input |
| EdaClean.DedupAfterSnoc | src/coursework1/1.2.py:47 | one more row leaves the earlier result alone and is appended only when it has not been seen |
| EdaClean.DedupSnoc | src/coursework1/1.2.py:47 | `drop_duplicates` keeps the first copy: no rows give no rows, and a row is appended exactly when no earlier row equals it |
| EdaClean.DedupKeepsFirstExample | src/coursework1/1.2.py:47 | on [1, 2, 1] the result is [1, 2], not [2, 1] |
| EdaClean.FilterDistinct | src/coursework1/1.2.py:49-68 | filtering keeps rows distinct |
| EdaClean.CleanBase | src/coursework1/1.2.py:29-70 | the header is unchanged |
| EdaClean.CleanBaseFacts | src/coursework1/1.2.py:29-70 | the cleaned rows are distinct and plausible; they are exactly the coerced plausible rows, in first-occurrence order |
| EdaClean.CleanBaseNumeric | src/coursework1/1.2.py:33-44 | a cleaned numeric column holds no text |
| EdaClean.MissingRateDropped | src/coursework1/1.2.py:50-54 | a row with a missing overall rate is dropped, because the comparison with NaN is false |
| EdaClean.MaxFacts | src/coursework1/1.2.py:79 | the maximum is a member and bounds every member |
| EdaClean.InRangeYearsMembers | src/coursework1/1.2.py:77-78 | the candidate years are exactly the truncated in-range years of the rows |
| EdaClean.InRangeYearsFrom | src/coursework1/1.2.py:77-78 | every candidate year is the truncated in-range year of some row |
| EdaClean.InRangeYearsHave | src/coursework1/1.2.py:77-78 | every row's truncated in-range year is a candidate |
| EdaClean.InRangeYearsEmpty | src/coursework1/1.2.py:77-79 | there is no candidate exactly when no row has an in-range year |
| EdaClean.LatestYear | src/coursework1/1.2.py:73-79 | `latest_year`: `None` without a year column, failure on an infinite year, otherwise the largest in-range year or `None`; LatestYearNone and LatestYearMax state the result |
| EdaClean.LatestYearNone | src/coursework1/1.2.py:73-79 | fails exactly when some year is infinite; `None` exactly when there is no year column, or no year is infinite and none is in range |
| EdaClean.LatestYearMax | src/coursework1/1.2.py:73-79 | a returned year is in [2000, 2100], is some row's truncated year, and is at least every in-range year |
| EdaClean.EnsureNotEmpty | src/coursework1/1.2.py:82-84 | fails exactly on no frame or an empty frame, naming the selection |
| Frames.ToNumeric | src/coursework1/1.2.py:25-26 | coercion never leaves text and leaves non-text cells unchanged; text is trimmed of ASCII whitespace only before it is read |
| Frames.ToNumericIdempotent | src/coursework1/1.2.py:25-26 | coercing twice is coercing once |
| Frames.Trunc | src/coursework1/db.py:123 | `astype(int)` truncates toward zero |
| Frames.MapColumn | src/coursework1/1.2.py:42-44 | replacing a column applies the map to that column and changes no other |
| Tables.GetOrInsert | src/coursework1/db.py:178-184 | the key is present afterwards with the returned id; a present key leaves the table unchanged |
| Tables.GetOrInsertFacts | src/coursework1/db.py:178-184 | the table stays valid and only grows; a new key gets the next id, which then advances |
| Tables.GetOrInsertIdempotent | src/coursework1/2.1.py:276-283 | a second get-or-create of the same key returns the same id and changes nothing |
| Tables.InsertAllOrIgnore | src/coursework1/2.2.py:196-198 | afterwards the keys are the old keys plus the given ones |
| Tables.InsertAllOrIgnoreValid | src/coursework1/2.2.py:196-198 | the table stays valid and existing ids do not change |
| Tables.InsertAllOrIgnorePresent | src/coursework1/2.2.py:196-198 | inserting keys that are all present changes nothing |
| Tables.InsertAllOrIgnoreIdempotent | src/coursework1/2.2.py:196-198 | a second insert of the same keys changes nothing |
| Tables.ExactlyOneRow | src/coursework1/2.1.py:152 | UNIQUE(programme_id, year_id): a stored key occupies exactly one row |
| Tables.UpsertFacts | src/coursework1/2.1.py:310-330 | the key then holds the new values and no other key changes; an existing row keeps its id, and a new one is appended with the next id |
| Tables.RemoveValues | src/coursework1/db.py:267 | the replace step's delete removes the key's row and changes no other key |
| Tables.InsertOrReplaceFacts | src/coursework1/db.py:265-276 | `INSERT OR REPLACE`: the key holds the new values in a new last row with the next id; no other key changes |
| Tables.InsertOrIgnoreFacts | src/coursework1/2.2.py:254-264 | `INSERT OR IGNORE`: an existing key keeps its values, a new one gets the given values; no other key changes |
| Tables.InsertAllOrIgnoreFactsValid | src/coursework1/2.2.py:254-264 | inserting many rows keeps the keys unique |
| Tables.FirstValueIn | src/coursework1/2.2.py:254-264 | the first value for a key is one of the items |
| Tables.FirstWins | src/coursework1/2.2.py:254-264 | after `executemany` an existing key keeps its value; otherwise it holds the first item given for it |
| Tables.LastWinsStep | src/coursework1/2.1.py:310-330 | writing a key's value keeps the last value of every natural key stored, with the new item last |
| Strings.Strip | src/coursework1/2.1.py:261-262 | the result has no surrounding whitespace, for the whole of Python's `str.isspace` set, and is no longer than the input |
| Strings.StripRemovesOnlySpace | src/coursework1/2.1.py:261-262 | strip removes only leading and trailing whitespace |
| Strings.StripIdempotent | src/coursework1/2.1.py:261-262 | stripping twice is stripping once |
| Strings.StripAscii | src/coursework1/1.2.py:25-26 | the trim `to_numeric` applies: no ASCII whitespace remains at either end, and the text got no longer |
| Strings.StripAsciiIsStrip | src/coursework1/db.py:101-109 | on text whose only whitespace is ASCII, the ASCII trim and `str.strip` agree |
| Strings.StripAsciiAfterStrip | src/coursework1/db.py:101-109 | after `str.strip`, as `clean_numeric` does it, the ASCII trim changes nothing |
| Strings.StripAsciiKeepsNoBreakSpace | src/coursework1/1.2.py:25-26 | the ASCII trim keeps a trailing no-break space that `str.strip` removes |
| Strings.Lower | src/coursework1/db.py:148 | lower-cases each ASCII letter, keeps every other character and keeps the length |
| Strings.Replace | src/coursework1/db.py:148 | replaces exactly the given character, position by position |
| Strings.RemoveAll | src/coursework1/db.py:105-106 | the character is gone and the text got no longer |
| Strings.ParseDecimalNatText | src/coursework1/db.py:103-109 | a whole number in decimal parses to itself |
| Strings.ParseIntegerIntText | src/coursework1/2.1.py:216 | `int()` of an integer's decimal text gives the integer |

## Left out

- I/O is not modelled: CSV reading, audit-file writing, logging, `print`, the Mermaid ERD exports and `argparse`. The audits are returned as values instead of being written.
- The `main()` scripts are not modelled: engine set-up, `PRAGMA foreign_keys`, the `v_result` view and the row counts. Neither is `detect_csv`.
- Foreign-key integrity and `ON DELETE CASCADE` are not modelled. The model only writes ids that it has just looked up.
- `create_schema`'s drop and recreate is modelled only as the constructors' empty tables.
- Floating point is modelled as exact reals. `Num(v)` is a finite float, `Inf` an infinity and `Missing` a NaN or None. `Prepare.Eps` is exactly 10⁻⁶, so float rounding near EPS is not captured.
- `Frames.CellText`: `str()` of a float is modelled by its integer part, not by Python's shortest repr.
- `Strings.Lower` lower-cases ASCII letters only. Python's `str.lower` also maps non-ASCII capitals (accented Latin, Greek, Cyrillic), and a few of them change length. The university, school and degree keys and the normalised column names are therefore only modelled for text whose capitals are ASCII.
- `OrmLoader.AsFloatIsToNumeric` is stated only for text whose only whitespace is ASCII. `float()` strips all of Python's whitespace and `to_numeric` only the ASCII kind, so on other text the two disagree, as `AsFloatDisagreesOnNoBreakSpace` shows.
- `Strings.ParseInteger` and `Strings.ParseDecimal` refuse `_` digit separators and non-ASCII decimal digits, which Python's `int()` and `float()` accept.
- `Strings.ParseDecimal` does not accept exponents or the words inf/nan. Such text coerces to missing rather than to a number.
- Text in a numeric column that survives coercion is not modelled. Every numeric comparison treats it as false.
- With duplicate column names, pandas keeps both; the model reads the first.
- `validate_dataframe` iterates a Python set, so the missing columns are added in unspecified order. The model appends them in a fixed order, so only the column order differs.
- `validate_dataframe`'s p25 > p75 warning is only a log line and is not modelled.
- `upsert_dim_tables` inserts universities and years in sorted order. The model inserts them in first-appearance order, so only the autoincrement ids differ.
- `upsert_dim_tables`' `drop_duplicates` is not modelled, because `INSERT OR IGNORE` makes repeated pairs no-ops. `load_fact_table`'s `prog_map` string key `"id||name"` is modelled as the pair (id, name), which is injective.
- `Prepare.ReadAndPrepareFails` says the error names every missing column. The source raises one `KeyError` at the first step that touches a missing column: the `dropna` at line 141 names the missing ones among university, degree and year; otherwise the first missing salary column read at lines 161-170 is named alone.
- `Prepare.ReadAndPrepare` returns records, not the projected frame. A record holds exactly the nine needed columns, which is all the later steps read.
- `Prepare.SurveyDb.UpsertDimTables`: requires that no record has an infinite year. The source raises at `astype(int)` there, and prepared records never hold one (`Prepare.PreparedYearsFinite`).
- `Prepare.SurveyDb.LoadFactTable`: requires every record's year to be finite. The source's `int()` raises otherwise, and prepared records satisfy this.
- `SqliteLoader`: a CHECK failure aborts only the failing statement. The dimension rows that row inserted earlier stay, and the model keeps them too. A row failing before its first insert leaves the database unchanged.
- `SqliteLoader`: the single `conn.commit()` at the end is not modelled separately. The model's tables are the committed state.
- In `2.1.py`, the `inserted_*` counters add `1 if sess.get(...)`. That is always true after a flush, so the counters are modelled as memo-miss counts.
- The q1–q4 preparation and plotting functions of `1.2.py` and its summary statistics are not modelled.
- `src/coursework1/1.1.py` (exploratory analysis) is not part of this model.
- `EmploymentRecords` queries run over a table modelled as a sequence. The SQLModel session and the `ORDER BY` tie-break among records with equal year ids are not modelled. `LatestByYear` returns one record with the maximal year id.
- `EmploymentRecords.SeededTable`: the seeded test records carry only their ids. Their metrics play no part in the queries.

## Findings

| source | as written | input that shows it | evidently intended | confidence | as-written member | corrected member |
|---|---|---|---|---|---|---|
| src/coursework1/2.1.py:170-175 | `ck_gross_ge_basic` is in force while the load loop runs, and autoflush writes each pending result before the next query. A result with gross below basic therefore raises `IntegrityError`, the whole session rolls back, and `audit_and_fix_gross_basic` can only ever return 0 | one CSV row with `basic_monthly_median` 3000 and `gross_monthly_median` 2500 | the docstring at lines 18 and 338: such rows are loaded, written to the audit file, then clamped so that gross equals basic | not executed | OrmLoader.ExampleRunAborts | OrmLoader.Session.RunDeferringGrossCheck |
| src/coursework1/2.2.py:111-113 | `astype(str)` turns a missing university or degree into the text "nan" before the `dropna` at lines 141-143. The row is never dropped and is loaded under a university called "nan" | one CSV row with an empty `university` field and complete other fields | rows lacking a university, degree or year are dropped | not executed | Prepare.MissingUniversityKept | Prepare.FixedDropsMissingKeys |

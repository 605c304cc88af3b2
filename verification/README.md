# PyVoteview decision logic in Dafny

PyVoteview fetches United States congressional roll-call voting records from
Voteview. It offers four accessors: by Congress number, by a range of Congress
numbers, by year, and by a range of years. This project models the pure logic
around the data fetching and proves properties of it:

- `Utilities` converts a calendar year to a Congress number with
  `floor((year - 1789) / 2) + 1`. The 1st Congress began in 1789 and each
  Congress covers two calendar years, so the January at the tail of a Congress
  counts towards the next one.
- `Validators` holds the two input checks: a Congress number in `[1, current]`
  and a chamber named exactly `"House"` or `"Senate"`. The bound `current` is a
  parameter; the library derives it from today's date.
- `Core` holds the accessors.
  - `GetRecordsByCongress` validates the request before it reads any table.
  - `GetRecordsByCongressRange` refuses bounds unless `start < end`, then submits
    one call per integer of `[start, end]`. It collects the results in the pool's
    completion order, concatenates them and sorts them by Congress number.
  - `GetRecordsByYear` and `GetRecordsByYearRange` convert years to Congress
    numbers, delegate, and keep the rows dated within the requested years.
- `Rows` provides the sort by Congress number and the year filter. `Seqs` holds
  generic sequence facts (flattening, permutations). `Types` and `Wrappers` hold
  the data model: `Chamber`, `Row`, `Error` and `Result`/`Outcome`.

Three things are parameters:

- Reading the votes, members and roll-call tables of one Congress and chamber,
  and joining them, is `load: (int, Chamber) -> Result<seq<Row<T>>, Error>`.
  A `Row` keeps the Congress number, the year of its roll-call date, and every
  other column as an opaque `payload`.
- The thread pool's completion order is `completion`, any arrangement of the
  submitted numbers (`IsCompletionOrder`).
- The current Congress number is `current`.

Every accessor returns a `Response` with two parts: the outcome, and `loaded`,
the Congress numbers whose tables were read. A call that fails validation reads
nothing. All submitted calls of a range run to completion, even when one of
them fails, because leaving the pool's `with` block waits for them. So `loaded`
is the same whatever the outcome.

Some properties assume that the provider's tables for Congress `n` hold only
rows of Congress `n` (`IsTagged`). Those lemmas say so in their `requires`.

A behaviour of the library worth knowing: a year range is refused whenever both
years fall in one Congress. For example, `get_records_by_year_range(2011, 2012)`
fails, because both years map to the 112th Congress and the range check demands
`start < end` (`YearRangeRefusalExample`).

## Model

| member | source | states |
|---|---|---|
| Utilities.ConvertYearToCongressNumber | pyvoteview/_utilities.py:6-18 | total on all integers; the result `n` is the Congress whose two-year span `[1789 + 2(n-1), 1789 + 2(n-1) + 1]` contains the year |
| Utilities.CongressOfYearUnique | pyvoteview/_utilities.py:18 | the span property pins the number down: any Congress whose span holds the year is the converted one |
| Utilities.ConvertMonotone | pyvoteview/_utilities.py:18 | a later year never maps to an earlier Congress |
| Utilities.ConvertTwoYearPeriod | pyvoteview/_utilities.py:18 | two years later is exactly one Congress later, for every integer year |
| Utilities.OddYearOpensCongress | pyvoteview/_utilities.py:14-18 | an odd year opens a new Congress; an even year stays in the Congress of the year before, so January of an odd year counts towards the new Congress |
| Utilities.OddEvenShareCongress | pyvoteview/_utilities.py:14-18 | an odd year and the following even year share a Congress, and the year after that starts the next one |
| Utilities.ConvertRoundTrip | pyvoteview/_utilities.py:18 | both calendar years of Congress `n` convert back to `n` |
| Utilities.ConvertLowerBound | pyvoteview/_utilities.py:18 | 1789 is the 1st Congress; a year gives a positive number exactly when it is 1789 or later |
| Utilities.DistinctCongresses | pyvoteview/_utilities.py:18 | two years map to increasing Congress numbers exactly when the later year is at least two years on, or is odd and one year on |
| Utilities.ConvertExamples | pyvoteview/tests/test_core.py:120-147 | the years the tests use, 2005 → 109th, 2010 → 111th and 2012 → 112th, and 2011 → 112th from the refusal example below |
| Validators.ValidateCongressNumber | pyvoteview/tests/test__validators.py:14-41 | passes exactly for `1 <= n <= current`; below 1 reports the before-1789 error, above `current` reports the after-current error naming the bound |
| Validators.ValidateChamber | pyvoteview/tests/test__validators.py:45-65 | accepts exactly `"House"` and `"Senate"` (case-sensitive), returns the chamber so named, and otherwise reports the offending input |
| Validators.ValidateChamberRoundTrip | pyvoteview/tests/test__validators.py:53-56 | each chamber's own name is accepted and yields that chamber |
| Validators.ValidateChamberRejects | pyvoteview/tests/test__validators.py:58-65 | lower-case `"house"` and `"Supreme Court"` are rejected |
| Rows.Insert | pyvoteview/core.py:115 | inserting into a Congress-sorted record set keeps it sorted and adds exactly that row |
| Rows.SortByCongress | pyvoteview/core.py:115 | the result is sorted ascending by Congress number and is a permutation of the input |
| Rows.SortedArrangementsAgreeOnKeys | pyvoteview/core.py:115 | any two sorted arrangements of the same rows have the same `congress` column |
| Rows.KeepYears | pyvoteview/core.py:168-171 | every kept row is dated in `[lo, hi]`; a row is kept exactly when present and in range; nothing is added |
| Rows.KeepYearsCounts | pyvoteview/core.py:168-171 | a row in range is kept as many times as it occurs, and a row out of range is dropped |
| Rows.KeepYearsMultiset | pyvoteview/core.py:168-171 | every row in range is kept exactly as many times as the input holds it, and every other row is dropped |
| Rows.KeepYearsConcat | pyvoteview/core.py:136 | filtering distributes over concatenation, so it keeps the rows' relative order |
| Rows.KeepYearsAllInRange | pyvoteview/core.py:168-171 | a record set whose rows are all in range is returned unchanged |
| Rows.KeepYearsSorted | pyvoteview/core.py:168-171 | filtering a Congress-sorted record set leaves it sorted |
| Rows.KeptSpans | pyvoteview/core.py:168-171 | filtering a sorted record set bounded by `[lo, hi]` starts at `lo` and ends at `hi` when rows of Congresses `lo` and `hi` are in range |
| Core.GetRecordsByCongress | pyvoteview/core.py:49-66 | tables are read (`loaded == [n]`) exactly for a valid request; a bad number gives the lower- or upper-bound error and a bad chamber the chamber error, in that order; a valid request returns the loader's result |
| Core.InvalidRequestIgnoresLoader | pyvoteview/core.py:49-54 | an invalid request fails with the same response whatever the provider would return |
| Core.Submitted | pyvoteview/core.py:100-103 | the submitted numbers are `end - start + 1` strictly increasing integers, all within `[start, end]`, covering every integer of it |
| Core.SubmittedLoads | pyvoteview/core.py:100-103 | the calls submitted for `[start, end]` read exactly its valid numbers, each once and listed in submission order, and all of them when both bounds are valid |
| Core.CompletionCovers | pyvoteview/core.py:105-113 | a completion order finishes exactly the numbers of `[start, end]` |
| Core.LoadedBy | pyvoteview/core.py:100-103 | a batch of calls reads exactly its valid numbers |
| Core.LoadedByAscending | pyvoteview/core.py:100-103 | each valid number of an ascending submission is read once; `loaded` lists the reads in submission order, so it is ascending |
| Core.LoadedByAllValid | pyvoteview/core.py:100-103 | when every submitted request is valid, every submitted number is read |
| Core.Collect | pyvoteview/core.py:105-113 | succeeds exactly when every call succeeds, with one record set per call in completion order; otherwise raises the first failure met in completion order |
| Core.CollectedParts | pyvoteview/core.py:105-113 | a successful collection holds, position by position, the record set of each call in completion order |
| Core.CollectedIsPermutation | pyvoteview/core.py:113-115 | the collected rows are, as a multiset, the rows of the calls in submission order |
| Core.GetRecordsByCongressRange | pyvoteview/core.py:88-115 | `start >= end` fails naming both bounds and reads nothing; otherwise it succeeds exactly when every call of `[start, end]` does, any failure is one of those calls' failures, and a success is sorted by Congress number and a permutation of the calls' rows |
| Core.RangeLoaded | pyvoteview/core.py:97-103 | a range reads each valid number of `[start, end]` once (`loaded` lists them in submission order, which is ascending), nothing when refused, and all `end - start + 1` numbers when both bounds are valid |
| Core.CollectCoversRange | pyvoteview/core.py:105-113 | collecting in any completion order succeeds exactly when every number of the range succeeds, and an error is some number's error |
| Core.RangeIndependentOfCompletionOrder | pyvoteview/core.py:97-115 | two completion orders give the same reads, the same success or failure, the same rows as a multiset and the same `congress` column |
| Core.RangeResultShape | pyvoteview/core.py:113-115 | when every call of the range succeeds, the range returns a range result: sorted by Congress number and a permutation of all calls' rows |
| Core.ResultHoldsCallRows | pyvoteview/core.py:113-115 | a range result holds every row that any call of the range returned |
| Core.ResultRowOrigin | pyvoteview/core.py:113-115 | every row of a range result was returned by some call of the range |
| Core.RangeContainsFetchedRows | pyvoteview/core.py:113-115 | when every call of the range succeeds, every row returned by a call of the range appears in the range's result |
| Core.TaggedResultRow | pyvoteview/core.py:100-115 | with tagged tables, every row of a successful range result has a Congress number in `[start, end]` |
| Core.TaggedResultFirstRow | pyvoteview/core.py:100-115 | with tagged tables, the first row of call `n` is in the result and carries number `n` |
| Core.TaggedResultSpans | pyvoteview/core.py:100-115 | with tagged, non-empty tables at both ends, a successful range result starts at Congress `start` and ends at Congress `end` |
| Core.GetRecordsByYear | pyvoteview/core.py:132-136 | reads only Congress `conv(year)`; fails exactly when that call fails (always before 1789), with its error; a success is the order-preserving filter (`KeepYears`) of that Congress's rows to `year`: every row dated in `year` kept as often as it occurs, every other row dropped |
| Core.YearRowsOfOneCongress | pyvoteview/tests/test_core.py:120-138 | with tagged tables, every row of a year's result belongs to that year's Congress |
| Core.GetRecordsByYearRange | pyvoteview/core.py:158-171 | refuses without reading when `conv(startYear) >= conv(endYear)`; otherwise it reads and fails as the Congress range does, and a success is the order-preserving filter (`KeepYears`) of the range's rows to `[startYear, endYear]`: each such row kept as often as it occurs, sorted by Congress number |
| Core.YearRangeRefusedWithinOneCongress | pyvoteview/core.py:158-166 | a year range whose years share a Congress (not at least two years apart, and not ending on the odd year that opens the next Congress) is refused with the range error, reading nothing |
| Core.YearRangeRefusalExample | pyvoteview/core.py:158-166 | `2011..2012` is refused with the range error naming 112 and 112 |
| Core.TaggedRecord | pyvoteview/core.py:100-103 | with tagged tables, a row returned by call `n` carries Congress number `n` |
| Core.FilteredResultSpans | pyvoteview/core.py:168-171 | with tagged tables, filtering a range result by years keeps its span when both end Congresses hold a row of those years |
| Core.YearRangeSpans | pyvoteview/tests/test_core.py:142-166 | with tagged tables and all calls succeeding, when the Congresses of both years hold a row dated in `[startYear, endYear]`, the year range's result is non-empty, starts at `conv(startYear)` and ends at `conv(endYear)` |
| Core.RangeReportsLoadFailure | pyvoteview/core.py:105-113 | for any provider and chamber, when only the call for Congress `m` of the range fails, the range fails with that call's error in every completion order |
| Core.FailAtReportsLoadFailure | pyvoteview/core.py:105-113 | the instance for a provider that cannot read Congress `m`: a valid House range containing `m` fails with `LoadFailed(m, House)` |
| Core.YearRangeComplete | pyvoteview/core.py:158-171 | when every call of the converted range succeeds, a provider row of Congress `n`, dated in a year of Congress `n` within `[startYear, endYear]`, is in the year range's result |

## Left out

- Reading the CSV tables over HTTP, the `"N/A"` null handling and `_cast_columns` (pyvoteview/core.py:56-62) are done by the dataframe library, so they are folded into the `load` parameter.
- The two joins on `(congress, chamber, icpsr)` and `(congress, chamber, rollnumber)` and the `nominate_log_likelihood` rename (pyvoteview/core.py:58-66) are dataframe-library semantics. They are part of `load`. Columns other than the Congress number and the date's year are an opaque payload, because several are floating point.
- `_format_url` and the `_validators` module are not part of this model. The validators are modelled from their tests, and the URL layout is not modelled.
- The current Congress number is the parameter `current`. Deriving it from the wall clock is left out.
- Thread-pool sizing (`min(32, cpu_count() + 4)`, pyvoteview/core.py:97-99) and real concurrency are left out. The only trace of the pool is the arbitrary completion order.
- The tqdm progress display and the `display_tqdm` flag (pyvoteview/core.py:105-112) are left out, because they do not change the result.
- `CAST_CODE_MAP` and `PARTY_CODE_MAP` (imported from `._utilities` by pyvoteview/__init__.py:1) and `rename_columns` (imported from `pyvoteview._utilities` by pyvoteview/tests/test__utilities.py:3) are not part of this model: the modelled `_utilities.py` defines only the year conversion, so their definitions are not available.
- Utilities.ConvertYearToCongressNumber: computes with exact integers. The library divides in floating point first, and that differs only for years beyond 2^53 in magnitude.
- Rows.SortByCongress: the model's sort happens to be stable, but its contract promises only that the result is sorted and a permutation of the input. That matches a sort that does not maintain order, which is the dataframe library's default. So the order among rows of equal Congress number is unspecified.
- Core.GetRecordsByCongressRange: does not model the failure of `concat(records, how="vertical")` (pyvoteview/core.py:115) when the per-Congress tables' column names or types differ. The model's rows all share one type, so every collected set of record sets concatenates.
- Core.GetRecordsByYear: a row whose date is null has no year and is dropped by the filter (pyvoteview/core.py:136). `Row.year` is an integer, so such rows are not represented.
- Core.GetRecordsByYearRange: rows whose date is null are dropped by the filter (pyvoteview/core.py:168-171). As for a single year, such rows are not represented.
- Core.GetRecordsByCongressRange: states that an error is the error of some call in the range. `Core.Collect` states the sharper fact, that it is the first failure in completion order.

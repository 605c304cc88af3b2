/** The record accessors: one Congress, a range of Congresses, one year and a
    range of years. Reading and joining the provider's tables is the `load`
    parameter; the thread pool's completion order is the `completion` parameter. */
module Core {
  import opened Wrappers
  import opened Types
  import opened Seqs
  import opened Utilities
  import opened Validators
  import opened Rows

  /** Reads the votes, members and roll-call tables of one Congress and chamber
      and joins them into one record set, or reports why it could not. */
  type Loader<T> = (int, Chamber) -> Result<seq<Row<T>>, Error>

  /** A call's outcome together with the Congress numbers whose tables it read,
      in submission order. */
  datatype Response<T> = Response(result: Result<seq<Row<T>>, Error>, loaded: seq<int>)

  /** The inputs `get_records_by_congress` accepts: a number in `[1, current]`
      and an exact chamber name. */
  predicate IsValidRequest(n: int, chamber: string, current: int)
  {
    ValidateCongressNumber(n, current).Pass? && ValidateChamber(chamber).Ok?
  }

  /** Records of one Congress: the number and then the chamber are checked
      before any table is read. */
  function GetRecordsByCongress<T>(n: int, chamber: string, current: int, load: Loader<T>): (r: Response<T>)
    ensures r.loaded == if IsValidRequest(n, chamber, current) then [n] else []
    ensures n < 1 ==> r.result == Err(CongressBeforeFirst(n))
    ensures 1 <= n && current < n ==> r.result == Err(CongressAfterCurrent(n, current))
    ensures 1 <= n <= current && ValidateChamber(chamber).Err? ==> r.result == Err(UnknownChamber(chamber))
    ensures IsValidRequest(n, chamber, current) ==> r.result == load(n, ValidateChamber(chamber).value)
  {
    match ValidateCongressNumber(n, current)
    case Fail(e) => Response(Err(e), [])
    case Pass =>
      match ValidateChamber(chamber)
      case Err(e) => Response(Err(e), [])
      case Ok(c) => Response(load(n, c), [n])
  }

  /** An invalid request never consults the loader: its response is the same
      whatever the provider would have returned. */
  lemma InvalidRequestIgnoresLoader<T>(n: int, chamber: string, current: int, load1: Loader<T>, load2: Loader<T>)
    requires !IsValidRequest(n, chamber, current)
    ensures GetRecordsByCongress(n, chamber, current, load1) == GetRecordsByCongress(n, chamber, current, load2)
    ensures GetRecordsByCongress(n, chamber, current, load1).result.Err?
  {
  }

  /** The Congress numbers submitted to the pool, in submission order: every
      integer of `[start, end]` once. */
  function Submitted(start: int, end: int): (ns: seq<int>)
    decreases end - start + 1
    ensures |ns| == if start <= end then end - start + 1 else 0
    ensures forall i :: 0 <= i < |ns| ==> start <= ns[i] <= end
    ensures StrictlyIncreasing(ns)
    ensures forall k :: start <= k <= end ==> k in ns
  {
    if start > end then [] else [start] + Submitted(start + 1, end)
  }

  /** `completion` is an order in which the submitted calls may finish: each
      submitted number exactly once. */
  predicate IsCompletionOrder(completion: seq<int>, start: int, end: int)
  {
    multiset(completion) == multiset(Submitted(start, end))
  }

  /** A completion order finishes exactly the numbers of `[start, end]`. */
  lemma CompletionCovers(completion: seq<int>, start: int, end: int, n: int)
    requires IsCompletionOrder(completion, start, end)
    ensures n in completion <==> start <= n <= end
  {
    assert n in completion <==> n in multiset(completion);
    assert n in Submitted(start, end) <==> n in multiset(Submitted(start, end));
  }

  /** The rows the call for Congress `n` contributes when it succeeds. */
  function Records<T>(n: int, chamber: string, current: int, load: Loader<T>): seq<Row<T>>
  {
    match GetRecordsByCongress(n, chamber, current, load).result
    case Ok(rows) => rows
    case Err(_) => []
  }

  /** `Records` as a function of the Congress number. */
  function RecordsOf<T>(chamber: string, current: int, load: Loader<T>): int -> seq<Row<T>>
  {
    (n: int) => Records(n, chamber, current, load)
  }

  /** The Congress numbers whose tables a batch of calls reads, in submission
      order. Every submitted call runs, even after another has failed. */
  function LoadedBy<T>(ns: seq<int>, chamber: string, current: int, load: Loader<T>): (r: seq<int>)
    ensures forall k :: k in r <==> k in ns && IsValidRequest(k, chamber, current)
  {
    if ns == [] then []
    else GetRecordsByCongress(ns[0], chamber, current, load).loaded + LoadedBy(ns[1..], chamber, current, load)
  }

  /** Each submitted number is read at most once, and `loaded` lists the reads in
      submission order, so ascending submissions give an ascending `loaded`. */
  lemma {:induction false} LoadedByAscending<T>(ns: seq<int>, chamber: string, current: int, load: Loader<T>)
    requires StrictlyIncreasing(ns)
    ensures StrictlyIncreasing(LoadedBy(ns, chamber, current, load))
  {
    if ns != [] {
      var rest := LoadedBy(ns[1..], chamber, current, load);
      LoadedByAscending(ns[1..], chamber, current, load);
      if IsValidRequest(ns[0], chamber, current) {
        assert forall k :: k in rest ==> k in ns[1..];
        assert forall k :: k in ns[1..] ==> ns[0] < k;
        PrependIncreasing(ns[0], rest);
        assert LoadedBy(ns, chamber, current, load) == [ns[0]] + rest;
      } else {
        assert LoadedBy(ns, chamber, current, load) == [] + rest;
      }
    }
  }

  /** When every submitted request is valid, every one of them is read. */
  lemma {:induction false} LoadedByAllValid<T>(ns: seq<int>, chamber: string, current: int, load: Loader<T>)
    requires forall i :: 0 <= i < |ns| ==> IsValidRequest(ns[i], chamber, current)
    ensures LoadedBy(ns, chamber, current, load) == ns
  {
    if ns != [] {
      LoadedByAllValid(ns[1..], chamber, current, load);
    }
  }

  /** Waits for the calls in completion order, keeping one record set per call;
      the first failure met in that order is raised. */
  function Collect<T>(completion: seq<int>, chamber: string, current: int, load: Loader<T>)
    : (r: Result<seq<seq<Row<T>>>, Error>)
    ensures r.Ok? <==>
              forall i :: 0 <= i < |completion| ==> GetRecordsByCongress(completion[i], chamber, current, load).result.Ok?
    ensures r.Ok? ==> |r.value| == |completion|
    ensures r.Ok? ==> forall i :: 0 <= i < |completion| ==>
              GetRecordsByCongress(completion[i], chamber, current, load).result == Ok(r.value[i])
    ensures r.Err? ==>
              exists i :: 0 <= i < |completion| &&
                GetRecordsByCongress(completion[i], chamber, current, load).result == Err(r.error) &&
                forall j :: 0 <= j < i ==> GetRecordsByCongress(completion[j], chamber, current, load).result.Ok?
  {
    if completion == [] then Ok([])
    else
      match GetRecordsByCongress(completion[0], chamber, current, load).result
      case Err(e) => Err(e)
      case Ok(rows) =>
        match Collect(completion[1..], chamber, current, load)
        case Err(e) => Err(e)
        case Ok(rest) => Ok([rows] + rest)
  }

  /** On success, the collected record sets are the calls' record sets in
      completion order. */
  lemma CollectedParts<T>(completion: seq<int>, chamber: string, current: int, load: Loader<T>)
    requires Collect(completion, chamber, current, load).Ok?
    ensures Collect(completion, chamber, current, load).value == Map(RecordsOf(chamber, current, load), completion)
  {
    var parts := Collect(completion, chamber, current, load).value;
    var f := RecordsOf(chamber, current, load);
    forall i | 0 <= i < |parts|
      ensures parts[i] == Map(f, completion)[i]
    {
      assert GetRecordsByCongress(completion[i], chamber, current, load).result == Ok(parts[i]);
    }
  }

  /** The collected record sets are the submitted calls' record sets in
      another order. */
  lemma CollectedIsPermutation<T>(completion: seq<int>, start: int, end: int, chamber: string, current: int,
                                  load: Loader<T>)
    requires IsCompletionOrder(completion, start, end)
    requires Collect(completion, chamber, current, load).Ok?
    ensures multiset(Flatten(Collect(completion, chamber, current, load).value))
         == multiset(Flatten(Map(RecordsOf(chamber, current, load), Submitted(start, end))))
  {
    var parts := Collect(completion, chamber, current, load).value;
    var f := RecordsOf(chamber, current, load);
    CollectedParts(completion, chamber, current, load);
    MapPermutation(f, completion, Submitted(start, end));
    FlattenPermutation(parts, Map(f, Submitted(start, end)));
  }

  /** Records of every Congress in `[start, end]`: rejected unless
      `start < end`, then one call per number, collected in completion order,
      concatenated and sorted by Congress number. */
  function GetRecordsByCongressRange<T>(start: int, end: int, chamber: string, current: int, load: Loader<T>,
                                        completion: seq<int>): (r: Response<T>)
    requires start < end ==> IsCompletionOrder(completion, start, end)
    ensures start >= end ==> r == Response(Err(RangeNotIncreasing(start, end)), [])
    ensures start < end ==> r.loaded == LoadedBy(Submitted(start, end), chamber, current, load)
    ensures r.result.Ok? <==>
              start < end && forall n :: start <= n <= end ==> GetRecordsByCongress(n, chamber, current, load).result.Ok?
    ensures r.result.Err? && start < end ==>
              exists n :: start <= n <= end && GetRecordsByCongress(n, chamber, current, load).result == Err(r.result.error)
    ensures r.result.Ok? ==> SortedByCongress(r.result.value)
    ensures r.result.Ok? ==>
              multiset(r.result.value) == multiset(Flatten(Map(RecordsOf(chamber, current, load), Submitted(start, end))))
  {
    if start >= end then Response(Err(RangeNotIncreasing(start, end)), [])
    else
      var loaded := LoadedBy(Submitted(start, end), chamber, current, load);
      var collected := Collect(completion, chamber, current, load);
      CollectCoversRange(completion, start, end, chamber, current, load);
      match collected
      case Err(e) => Response(Err(e), loaded)
      case Ok(parts) =>
        CollectedIsPermutation(completion, start, end, chamber, current, load);
        Response(Ok(SortByCongress(Flatten(parts))), loaded)
  }

  /** The numbers a range reads: none when the bounds are refused, otherwise
      the valid ones of `[start, end]`, each once and listed in submission order, and all
      `end - start + 1` of them when both bounds are valid. */
  lemma RangeLoaded<T>(start: int, end: int, chamber: string, current: int, load: Loader<T>, completion: seq<int>)
    requires start < end ==> IsCompletionOrder(completion, start, end)
    ensures var r := GetRecordsByCongressRange(start, end, chamber, current, load, completion);
            && (forall k :: k in r.loaded <==> start < end && start <= k <= end && IsValidRequest(k, chamber, current))
            && StrictlyIncreasing(r.loaded)
            && (start < end && IsValidRequest(start, chamber, current) && IsValidRequest(end, chamber, current) ==>
                  r.loaded == Submitted(start, end) && |r.loaded| == end - start + 1)
  {
    if start < end {
      SubmittedLoads(start, end, chamber, current, load);
    }
  }

  /** What the calls submitted for `[start, end]` read. */
  lemma SubmittedLoads<T>(start: int, end: int, chamber: string, current: int, load: Loader<T>)
    ensures var r := LoadedBy(Submitted(start, end), chamber, current, load);
            && (forall k :: k in r <==> start <= k <= end && IsValidRequest(k, chamber, current))
            && StrictlyIncreasing(r)
            && (IsValidRequest(start, chamber, current) && IsValidRequest(end, chamber, current) ==>
                  r == Submitted(start, end))
  {
    var ns := Submitted(start, end);
    assert forall k :: k in ns <==> start <= k <= end;
    LoadedByAscending(ns, chamber, current, load);
    if IsValidRequest(start, chamber, current) && IsValidRequest(end, chamber, current) {
      LoadedByAllValid(ns, chamber, current, load);
    }
  }

  /** Collecting in a completion order succeeds exactly when every number of
      the range succeeds, and a failure is some number's failure. */
  lemma CollectCoversRange<T>(completion: seq<int>, start: int, end: int, chamber: string, current: int,
                              load: Loader<T>)
    requires IsCompletionOrder(completion, start, end)
    ensures Collect(completion, chamber, current, load).Ok? <==>
              forall n :: start <= n <= end ==> GetRecordsByCongress(n, chamber, current, load).result.Ok?
    ensures var r := Collect(completion, chamber, current, load);
            r.Err? ==> exists n :: start <= n <= end && GetRecordsByCongress(n, chamber, current, load).result == Err(r.error)
  {
    var r := Collect(completion, chamber, current, load);
    forall n {
      CompletionCovers(completion, start, end, n);
    }
    if r.Ok? {
      forall n | start <= n <= end
        ensures GetRecordsByCongress(n, chamber, current, load).result.Ok?
      {
        assert n in completion;
        var i :| 0 <= i < |completion| && completion[i] == n;
      }
    } else {
      var i :| 0 <= i < |completion| && GetRecordsByCongress(completion[i], chamber, current, load).result == Err(r.error);
      assert completion[i] in completion;
    }
  }

  /** The outcome and the `congress` column of a range do not depend on the
      order in which the calls complete; only rows of equal Congress number
      may be arranged differently. */
  lemma {:induction false} RangeIndependentOfCompletionOrder<T>(start: int, end: int, chamber: string, current: int,
                                                                load: Loader<T>, c1: seq<int>, c2: seq<int>)
    requires start < end ==> IsCompletionOrder(c1, start, end) && IsCompletionOrder(c2, start, end)
    ensures var r1 := GetRecordsByCongressRange(start, end, chamber, current, load, c1);
            var r2 := GetRecordsByCongressRange(start, end, chamber, current, load, c2);
            && r1.loaded == r2.loaded
            && (r1.result.Ok? <==> r2.result.Ok?)
            && (r1.result.Ok? ==> multiset(r1.result.value) == multiset(r2.result.value))
            && (r1.result.Ok? ==> Keys(r1.result.value) == Keys(r2.result.value))
  {
    var r1 := GetRecordsByCongressRange(start, end, chamber, current, load, c1);
    var r2 := GetRecordsByCongressRange(start, end, chamber, current, load, c2);
    if r1.result.Ok? {
      SortedArrangementsAgreeOnKeys(r1.result.value, r2.result.value);
    }
  }

  /** Every call of `[start, end]` succeeds. */
  predicate AllCallsSucceed<T>(start: int, end: int, chamber: string, current: int, load: Loader<T>)
  {
    forall n :: start <= n <= end ==> GetRecordsByCongress(n, chamber, current, load).result.Ok?
  }

  /** What a successful range call returns: the rows of every call of
      `[start, end]`, each of which succeeded, sorted by Congress number. */
  ghost predicate IsRangeResult<T>(rows: seq<Row<T>>, start: int, end: int, chamber: string, current: int, load: Loader<T>)
  {
    && SortedByCongress(rows)
    && multiset(rows) == multiset(Flatten(Map(RecordsOf(chamber, current, load), Submitted(start, end))))
    && AllCallsSucceed(start, end, chamber, current, load)
  }

  /** A successful range call returns a range result. */
  lemma RangeResultShape<T>(start: int, end: int, chamber: string, current: int, load: Loader<T>,
                            completion: seq<int>)
    requires start < end && IsCompletionOrder(completion, start, end)
    requires AllCallsSucceed(start, end, chamber, current, load)
    ensures IsRangeResult(GetRecordsByCongressRange(start, end, chamber, current, load, completion).result.value,
                          start, end, chamber, current, load)
  {
  }

  /** A range result holds every row of every call of the range. */
  lemma ResultHoldsCallRows<T>(rows: seq<Row<T>>, start: int, end: int, chamber: string, current: int,
                               load: Loader<T>, n: int, x: Row<T>)
    requires IsRangeResult(rows, start, end, chamber, current, load)
    requires start <= n <= end && x in Records(n, chamber, current, load)
    ensures x in rows
  {
    var ns := Submitted(start, end);
    var parts := Map(RecordsOf(chamber, current, load), ns);
    assert n in ns;
    var i :| 0 <= i < |ns| && ns[i] == n;
    assert x in parts[i];
    FlattenMembership(parts, x);
    assert x in multiset(Flatten(parts));
    assert x in multiset(rows);
  }

  /** Every row of a range result came from some call of the range. */
  lemma ResultRowOrigin<T>(rows: seq<Row<T>>, start: int, end: int, chamber: string, current: int,
                           load: Loader<T>, x: Row<T>)
    requires IsRangeResult(rows, start, end, chamber, current, load)
    requires x in rows
    ensures exists n :: start <= n <= end && x in Records(n, chamber, current, load)
  {
    var ns := Submitted(start, end);
    var parts := Map(RecordsOf(chamber, current, load), ns);
    assert x in multiset(rows);
    assert x in multiset(Flatten(parts));
    FlattenMembership(parts, x);
    var k :| 0 <= k < |parts| && x in parts[k];
    assert start <= ns[k] <= end;
  }

  /** The provider's tables for Congress `n` hold only rows of Congress `n`,
      for every `n` in `[lo, hi]`. */
  predicate IsTagged<T>(load: Loader<T>, lo: int, hi: int)
  {
    forall n, c, i {:trigger load(n, c).value[i]} :: lo <= n <= hi && load(n, c).Ok? && 0 <= i < |load(n, c).value| ==>
      load(n, c).value[i].congress == n
  }

  /** With tagged tables, a row of a range result lies in `[start, end]`. */
  lemma TaggedResultRow<T>(rows: seq<Row<T>>, start: int, end: int, chamber: string, current: int,
                           load: Loader<T>, x: Row<T>)
    requires IsRangeResult(rows, start, end, chamber, current, load)
    requires IsTagged(load, start, end)
    requires x in rows
    ensures start <= x.congress <= end
  {
    ResultRowOrigin(rows, start, end, chamber, current, load, x);
    var n :| start <= n <= end && x in Records(n, chamber, current, load);
    var c := ValidateChamber(chamber).value;
    assert GetRecordsByCongress(n, chamber, current, load).result.Ok?;
    var j :| 0 <= j < |load(n, c).value| && load(n, c).value[j] == x;
  }

  /** With tagged tables, the first row of call `n` is in the result and carries number `n`. */
  lemma TaggedResultFirstRow<T>(rows: seq<Row<T>>, start: int, end: int, chamber: string, current: int,
                                load: Loader<T>, n: int)
    requires IsRangeResult(rows, start, end, chamber, current, load)
    requires IsTagged(load, start, end)
    requires start <= n <= end && Records(n, chamber, current, load) != []
    ensures Records(n, chamber, current, load)[0] in rows
    ensures Records(n, chamber, current, load)[0].congress == n
  {
    var c := ValidateChamber(chamber).value;
    assert GetRecordsByCongress(n, chamber, current, load).result.Ok?;
    assert Records(n, chamber, current, load)[0] == load(n, c).value[0];
    ResultHoldsCallRows(rows, start, end, chamber, current, load, n, Records(n, chamber, current, load)[0]);
  }

  /** Every row a call of the range returned is in the range's result. */
  lemma RangeContainsFetchedRows<T>(start: int, end: int, chamber: string, current: int, load: Loader<T>,
                                    completion: seq<int>, n: int, x: Row<T>)
    requires start < end && IsCompletionOrder(completion, start, end)
    requires AllCallsSucceed(start, end, chamber, current, load)
    requires start <= n <= end
    requires x in Records(n, chamber, current, load)
    ensures x in GetRecordsByCongressRange(start, end, chamber, current, load, completion).result.value
  {
    RangeResultShape(start, end, chamber, current, load, completion);
    var rows := GetRecordsByCongressRange(start, end, chamber, current, load, completion).result.value;
    ResultHoldsCallRows(rows, start, end, chamber, current, load, n, x);
  }

  /** With tagged, non-empty tables at both ends, a range result runs from `start` to `end`. */
  lemma TaggedResultSpans<T>(rows: seq<Row<T>>, start: int, end: int, chamber: string, current: int,
                             load: Loader<T>)
    requires IsRangeResult(rows, start, end, chamber, current, load)
    requires IsTagged(load, start, end)
    requires start <= end
    requires Records(start, chamber, current, load) != [] && Records(end, chamber, current, load) != []
    ensures rows != [] && rows[0].congress == start && rows[|rows| - 1].congress == end
  {
    forall i | 0 <= i < |rows|
      ensures start <= rows[i].congress <= end
    {
      TaggedResultRow(rows, start, end, chamber, current, load, rows[i]);
    }
    TaggedResultFirstRow(rows, start, end, chamber, current, load, start);
    TaggedResultFirstRow(rows, start, end, chamber, current, load, end);
    SortedEnds(rows, start, end, Records(start, chamber, current, load)[0], Records(end, chamber, current, load)[0]);
  }

  /** Records of one year: the year's Congress is fetched and only the rows
      dated in that year are kept, in their order. */
  function GetRecordsByYear<T(!new)>(year: int, chamber: string, current: int, load: Loader<T>): (r: Response<T>)
    ensures var n := ConvertYearToCongressNumber(year);
            r.loaded == if IsValidRequest(n, chamber, current) then [n] else []
    ensures year < FirstCongressYear ==> r.result == Err(CongressBeforeFirst(ConvertYearToCongressNumber(year)))
    ensures var inner := GetRecordsByCongress(ConvertYearToCongressNumber(year), chamber, current, load).result;
            && (r.result.Ok? <==> inner.Ok?)
            && (r.result.Err? ==> r.result == inner)
            && (r.result.Ok? ==> forall x :: x in r.result.value <==> x in inner.value && x.year == year)
            && (r.result.Ok? ==> r.result.value == KeepYears(inner.value, year, year))
            && (r.result.Ok? ==>
                  forall x :: multiset(r.result.value)[x] == if x.year == year then multiset(inner.value)[x] else 0)
    ensures r.result.Ok? ==> forall i :: 0 <= i < |r.result.value| ==> r.result.value[i].year == year
  {
    ConvertLowerBound(year);
    var inner := GetRecordsByCongress(ConvertYearToCongressNumber(year), chamber, current, load);
    match inner.result
    case Err(e) => Response(Err(e), inner.loaded)
    case Ok(rows) =>
      KeepYearsMultiset(rows, year, year);
      Response(Ok(KeepYears(rows, year, year)), inner.loaded)
  }

  /** Records of a range of years: the years' Congresses are fetched as a
      range and only rows dated within `[startYear, endYear]` are kept. */
  function GetRecordsByYearRange<T(!new)>(startYear: int, endYear: int, chamber: string, current: int,
                                          load: Loader<T>, completion: seq<int>): (r: Response<T>)
    requires var lo := ConvertYearToCongressNumber(startYear);
             var hi := ConvertYearToCongressNumber(endYear);
             lo < hi ==> IsCompletionOrder(completion, lo, hi)
    ensures var lo := ConvertYearToCongressNumber(startYear);
            var hi := ConvertYearToCongressNumber(endYear);
            lo >= hi ==> r == Response(Err(RangeNotIncreasing(lo, hi)), [])
    ensures var inner := GetRecordsByCongressRange(ConvertYearToCongressNumber(startYear),
                                                   ConvertYearToCongressNumber(endYear),
                                                   chamber, current, load, completion);
            && r.loaded == inner.loaded
            && (r.result.Ok? <==> inner.result.Ok?)
            && (r.result.Err? ==> r.result == inner.result)
            && (r.result.Ok? ==> forall x :: x in r.result.value <==>
                                   x in inner.result.value && startYear <= x.year <= endYear)
            && (r.result.Ok? ==> r.result.value == KeepYears(inner.result.value, startYear, endYear))
            && (r.result.Ok? ==>
                  forall x :: multiset(r.result.value)[x] ==
                                if InYears(x, startYear, endYear) then multiset(inner.result.value)[x] else 0)
    ensures r.result.Ok? ==> forall i :: 0 <= i < |r.result.value| ==> startYear <= r.result.value[i].year <= endYear
    ensures r.result.Ok? ==> SortedByCongress(r.result.value)
  {
    var inner := GetRecordsByCongressRange(ConvertYearToCongressNumber(startYear),
                                           ConvertYearToCongressNumber(endYear),
                                           chamber, current, load, completion);
    match inner.result
    case Err(e) => Response(Err(e), inner.loaded)
    case Ok(rows) =>
      KeepYearsSorted(rows, startYear, endYear);
      KeepYearsMultiset(rows, startYear, endYear);
      Response(Ok(KeepYears(rows, startYear, endYear)), inner.loaded)
  }

  /** With tagged tables, a year's records all belong to the year's Congress. */
  lemma YearRowsOfOneCongress<T(!new)>(year: int, chamber: string, current: int, load: Loader<T>)
    requires IsTagged(load, ConvertYearToCongressNumber(year), ConvertYearToCongressNumber(year))
    requires GetRecordsByCongress(ConvertYearToCongressNumber(year), chamber, current, load).result.Ok?
    ensures var rows := GetRecordsByYear(year, chamber, current, load).result.value;
            forall i :: 0 <= i < |rows| ==> rows[i].congress == ConvertYearToCongressNumber(year)
  {
    var n := ConvertYearToCongressNumber(year);
    var rows := GetRecordsByYear(year, chamber, current, load).result.value;
    var c := ValidateChamber(chamber).value;
    forall i | 0 <= i < |rows|
      ensures rows[i].congress == n
    {
      assert rows[i] in rows;
      var j :| 0 <= j < |load(n, c).value| && load(n, c).value[j] == rows[i];
    }
  }

  /** A year range is refused, before anything is read, whenever both years
      fall in one Congress, for instance 2011 and 2012 (both the 112th). */
  lemma YearRangeRefusedWithinOneCongress<T(!new)>(startYear: int, endYear: int, chamber: string, current: int,
                                                   load: Loader<T>, completion: seq<int>)
    requires !(startYear < endYear && (endYear - startYear >= 2 || endYear % 2 == 1))
    ensures var lo := ConvertYearToCongressNumber(startYear);
            var hi := ConvertYearToCongressNumber(endYear);
            GetRecordsByYearRange(startYear, endYear, chamber, current, load, completion)
              == Response(Err(RangeNotIncreasing(lo, hi)), [])
  {
    DistinctCongresses(startYear, endYear);
  }

  lemma YearRangeRefusalExample<T(!new)>(chamber: string, current: int, load: Loader<T>, completion: seq<int>)
    ensures GetRecordsByYearRange(2011, 2012, chamber, current, load, completion)
         == Response(Err(RangeNotIncreasing(112, 112)), [])
  {
    YearRangeRefusedWithinOneCongress(2011, 2012, chamber, current, load, completion);
  }

  /** No row of the requested years is missed: a row the provider returns for
      Congress `n`, dated in a year of Congress `n` inside `[startYear, endYear]`,
      is in the result, because the Congresses of the years cover `n`. */
  lemma YearRangeComplete<T(!new)>(startYear: int, endYear: int, chamber: string, current: int,
                                   load: Loader<T>, completion: seq<int>, n: int, x: Row<T>)
    requires var lo := ConvertYearToCongressNumber(startYear);
             var hi := ConvertYearToCongressNumber(endYear);
             lo < hi && IsCompletionOrder(completion, lo, hi) && AllCallsSucceed(lo, hi, chamber, current, load)
    requires x in Records(n, chamber, current, load)
    requires ConvertYearToCongressNumber(x.year) == n
    requires startYear <= x.year <= endYear
    ensures x in GetRecordsByYearRange(startYear, endYear, chamber, current, load, completion).result.value
  {
    var lo := ConvertYearToCongressNumber(startYear);
    var hi := ConvertYearToCongressNumber(endYear);
    ConvertMonotone(startYear, x.year);
    ConvertMonotone(x.year, endYear);
    RangeContainsFetchedRows(lo, hi, chamber, current, load, completion, n, x);
  }

  /** With tagged tables, a row a call of `[lo, hi]` returned carries that call's number. */
  lemma TaggedRecord<T>(n: int, lo: int, hi: int, chamber: string, current: int, load: Loader<T>, x: Row<T>)
    requires IsTagged(load, lo, hi)
    requires lo <= n <= hi && x in Records(n, chamber, current, load)
    ensures x.congress == n
  {
    var c := ValidateChamber(chamber).value;
    assert GetRecordsByCongress(n, chamber, current, load).result.Ok?;
    var j :| 0 <= j < |load(n, c).value| && load(n, c).value[j] == x;
  }

  /** Filtering a range result of tagged tables by years, when both end
      Congresses contribute a row dated in those years, keeps the span: the
      filtered rows start at Congress `lo` and end at Congress `hi`. */
  lemma FilteredResultSpans<T(!new)>(rows: seq<Row<T>>, lo: int, hi: int, startYear: int, endYear: int,
                                     chamber: string, current: int, load: Loader<T>, first: Row<T>, last: Row<T>)
    requires IsRangeResult(rows, lo, hi, chamber, current, load)
    requires IsTagged(load, lo, hi)
    requires lo <= hi
    requires first in Records(lo, chamber, current, load) && InYears(first, startYear, endYear)
    requires last in Records(hi, chamber, current, load) && InYears(last, startYear, endYear)
    ensures var kept := KeepYears(rows, startYear, endYear);
            kept != [] && kept[0].congress == lo && kept[|kept| - 1].congress == hi
  {
    assert first in rows && last in rows by {
      ResultHoldsCallRows(rows, lo, hi, chamber, current, load, lo, first);
      ResultHoldsCallRows(rows, lo, hi, chamber, current, load, hi, last);
    }
    assert first.congress == lo && last.congress == hi by {
      TaggedRecord(lo, lo, hi, chamber, current, load, first);
      TaggedRecord(hi, lo, hi, chamber, current, load, last);
    }
    assert forall i :: 0 <= i < |rows| ==> lo <= rows[i].congress <= hi by {
      forall i | 0 <= i < |rows|
        ensures lo <= rows[i].congress <= hi
      {
        TaggedResultRow(rows, lo, hi, chamber, current, load, rows[i]);
      }
    }
    KeptSpans(rows, lo, hi, startYear, endYear, first, last);
  }

  /** A year range over tagged tables spans the years' Congresses: when the
      Congresses of both years hold a row dated in `[startYear, endYear]`, the
      result starts at `conv(startYear)` and ends at `conv(endYear)`. */
  lemma YearRangeSpans<T(!new)>(startYear: int, endYear: int, chamber: string, current: int,
                                load: Loader<T>, completion: seq<int>, first: Row<T>, last: Row<T>)
    requires var lo := ConvertYearToCongressNumber(startYear);
             var hi := ConvertYearToCongressNumber(endYear);
             lo < hi && IsCompletionOrder(completion, lo, hi) && AllCallsSucceed(lo, hi, chamber, current, load)
    requires IsTagged(load, ConvertYearToCongressNumber(startYear), ConvertYearToCongressNumber(endYear))
    requires first in Records(ConvertYearToCongressNumber(startYear), chamber, current, load)
    requires last in Records(ConvertYearToCongressNumber(endYear), chamber, current, load)
    requires startYear <= first.year <= endYear && startYear <= last.year <= endYear
    ensures var rows := GetRecordsByYearRange(startYear, endYear, chamber, current, load, completion).result.value;
            && rows != []
            && rows[0].congress == ConvertYearToCongressNumber(startYear)
            && rows[|rows| - 1].congress == ConvertYearToCongressNumber(endYear)
  {
    var lo := ConvertYearToCongressNumber(startYear);
    var hi := ConvertYearToCongressNumber(endYear);
    RangeResultShape(lo, hi, chamber, current, load, completion);
    var inner := GetRecordsByCongressRange(lo, hi, chamber, current, load, completion).result.value;
    FilteredResultSpans(inner, lo, hi, startYear, endYear, chamber, current, load, first, last);
  }

  /** A provider that cannot read Congress `m` and returns no rows for any other. */
  function FailAt(m: int): Loader<int>
  {
    (n: int, c: Chamber) => if n == m then Err(LoadFailed(n, c)) else Ok([])
  }

  /** A provider failure inside a range is what the range reports: when only
      Congress `m` of the range fails, the range fails with that call's error,
      in every completion order. */
  lemma RangeReportsLoadFailure<T>(start: int, end: int, m: int, chamber: string, current: int, load: Loader<T>,
                                   completion: seq<int>, e: Error)
    requires start < end && IsCompletionOrder(completion, start, end)
    requires start <= m <= end
    requires GetRecordsByCongress(m, chamber, current, load).result == Err(e)
    requires forall n :: start <= n <= end && n != m ==> GetRecordsByCongress(n, chamber, current, load).result.Ok?
    ensures GetRecordsByCongressRange(start, end, chamber, current, load, completion).result == Err(e)
  {
    var r := GetRecordsByCongressRange(start, end, chamber, current, load, completion).result;
    assert r.Err?;
    var n :| start <= n <= end && GetRecordsByCongress(n, chamber, current, load).result == Err(r.error);
  }

  /** The provider `FailAt(m)` on a valid House range: the range fails with
      `LoadFailed(m, House)` in every completion order. */
  lemma FailAtReportsLoadFailure(start: int, end: int, m: int, current: int, completion: seq<int>)
    requires 1 <= start <= m <= end <= current && start < end
    requires IsCompletionOrder(completion, start, end)
    ensures GetRecordsByCongressRange(start, end, "House", current, FailAt(m), completion).result
         == Err(LoadFailed(m, House))
  {
    RangeReportsLoadFailure(start, end, m, "House", current, FailAt(m), completion, LoadFailed(m, House));
  }
}

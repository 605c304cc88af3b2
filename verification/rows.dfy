/** Operations on record sets: sorting by Congress number and keeping the
    rows of a year range. */
module Rows {
  import opened Types
  import opened Seqs

  /** The `congress` column of a record set. */
  function Keys<T>(s: seq<Row<T>>): seq<int>
  {
    Map((x: Row<T>) => x.congress, s)
  }

  predicate SortedByCongress<T>(s: seq<Row<T>>)
  {
    forall i, j :: 0 <= i < j < |s| ==> s[i].congress <= s[j].congress
  }

  /** A row no later than the head of a sorted record set can go in front. */
  lemma PrependSorted<T>(y: Row<T>, t: seq<Row<T>>)
    requires SortedByCongress(t)
    requires t == [] || y.congress <= t[0].congress
    ensures SortedByCongress([y] + t)
  {
  }

  /** Places `x` into a record set already sorted by Congress number. */
  function Insert<T>(x: Row<T>, s: seq<Row<T>>): (r: seq<Row<T>>)
    requires SortedByCongress(s)
    ensures SortedByCongress(r)
    ensures multiset(r) == multiset(s) + multiset{x}
    ensures r[0] == x || (s != [] && r[0] == s[0])
  {
    if s == [] then [x]
    else if x.congress <= s[0].congress then
      PrependSorted(x, s);
      [x] + s
    else
      assert s == [s[0]] + s[1..];
      var tail := Insert(x, s[1..]);
      PrependSorted(s[0], tail);
      [s[0]] + tail
  }

  /** Sorts a record set ascending by Congress number. Only the order of the
      `congress` column is promised: rows with equal numbers may come in any
      order, as with a sort that does not maintain order. */
  function SortByCongress<T>(s: seq<Row<T>>): (r: seq<Row<T>>)
    ensures SortedByCongress(r)
    ensures multiset(r) == multiset(s)
  {
    if s == [] then []
    else
      assert s == [s[0]] + s[1..];
      Insert(s[0], SortByCongress(s[1..]))
  }

  /** A record set sorted by Congress has a non-decreasing `congress` column. */
  lemma SortedKeys<T>(s: seq<Row<T>>)
    requires SortedByCongress(s)
    ensures NonDecreasing(Keys(s))
  {
  }

  /** Any two sorted arrangements of the same rows have the same `congress`
      column: sorting makes the column independent of the input order. */
  lemma SortedArrangementsAgreeOnKeys<T>(a: seq<Row<T>>, b: seq<Row<T>>)
    requires SortedByCongress(a) && SortedByCongress(b)
    requires multiset(a) == multiset(b)
    ensures Keys(a) == Keys(b)
  {
    SortedKeys(a);
    SortedKeys(b);
    MapPermutation((x: Row<T>) => x.congress, a, b);
    SortedPermutationsEqual(Keys(a), Keys(b));
  }

  /** A sorted record set whose numbers lie in `[lo, hi]` and that holds a row
      of Congress `lo` and one of Congress `hi` starts at `lo` and ends at `hi`. */
  lemma SortedEnds<T>(s: seq<Row<T>>, lo: int, hi: int, first: Row<T>, last: Row<T>)
    requires SortedByCongress(s)
    requires forall i :: 0 <= i < |s| ==> lo <= s[i].congress <= hi
    requires first in s && first.congress == lo
    requires last in s && last.congress == hi
    ensures s != [] && s[0].congress == lo && s[|s| - 1].congress == hi
  {
  }

  predicate InYears<T>(x: Row<T>, lo: int, hi: int)
  {
    lo <= x.year <= hi
  }

  /** The rows whose year lies in `[lo, hi]`, in their original order. */
  function KeepYears<T(!new)>(s: seq<Row<T>>, lo: int, hi: int): (r: seq<Row<T>>)
    ensures forall i :: 0 <= i < |r| ==> InYears(r[i], lo, hi)
    ensures forall x :: x in r <==> x in s && InYears(x, lo, hi)
    ensures |r| <= |s|
  {
    if s == [] then []
    else
      assert s == [s[0]] + s[1..];
      var tail := KeepYears(s[1..], lo, hi);
      if InYears(s[0], lo, hi) then [s[0]] + tail else tail
  }

  /** Each row in range is kept as often as it occurs; rows out of range are dropped. */
  lemma {:induction false} KeepYearsCounts<T(!new)>(s: seq<Row<T>>, lo: int, hi: int, x: Row<T>)
    ensures multiset(KeepYears(s, lo, hi))[x] == if InYears(x, lo, hi) then multiset(s)[x] else 0
  {
    if s != [] {
      assert s == [s[0]] + s[1..];
      KeepYearsCounts(s[1..], lo, hi, x);
    }
  }

  /** `KeepYearsCounts` for every row at once. */
  lemma KeepYearsMultiset<T(!new)>(s: seq<Row<T>>, lo: int, hi: int)
    ensures forall x :: multiset(KeepYears(s, lo, hi))[x] == if InYears(x, lo, hi) then multiset(s)[x] else 0
  {
    forall x {
      KeepYearsCounts(s, lo, hi, x);
    }
  }

  /** Filtering keeps order: it distributes over concatenation. */
  lemma {:induction false} KeepYearsConcat<T(!new)>(a: seq<Row<T>>, b: seq<Row<T>>, lo: int, hi: int)
    ensures KeepYears(a + b, lo, hi) == KeepYears(a, lo, hi) + KeepYears(b, lo, hi)
  {
    if a == [] {
      assert a + b == b;
    } else {
      assert (a + b)[0] == a[0];
      assert (a + b)[1..] == a[1..] + b;
      KeepYearsConcat(a[1..], b, lo, hi);
    }
  }

  /** A record set whose rows are all in range is kept whole. */
  lemma {:induction false} KeepYearsAllInRange<T(!new)>(s: seq<Row<T>>, lo: int, hi: int)
    requires forall i :: 0 <= i < |s| ==> InYears(s[i], lo, hi)
    ensures KeepYears(s, lo, hi) == s
  {
    if s != [] {
      KeepYearsAllInRange(s[1..], lo, hi);
    }
  }

  /** Filtering a sorted record set leaves it sorted. */
  lemma {:induction false} KeepYearsSorted<T(!new)>(s: seq<Row<T>>, lo: int, hi: int)
    requires SortedByCongress(s)
    ensures SortedByCongress(KeepYears(s, lo, hi))
  {
    if s != [] {
      KeepYearsSorted(s[1..], lo, hi);
    }
  }

  /** In a sorted record set no row comes before the first one. */
  lemma SortedHead<T>(s: seq<Row<T>>, i: int)
    requires SortedByCongress(s)
    requires 0 <= i < |s|
    ensures s[0].congress <= s[i].congress
  {
  }

  /** In a sorted record set no row comes after the last one. */
  lemma SortedLast<T>(s: seq<Row<T>>, i: int)
    requires SortedByCongress(s)
    requires 0 <= i < |s|
    ensures s[i].congress <= s[|s| - 1].congress
  {
  }

  /** Where a row of the requested years sits in the filtered record set. */
  lemma KeptIndex<T(!new)>(s: seq<Row<T>>, startYear: int, endYear: int, x: Row<T>) returns (a: int)
    requires x in s && InYears(x, startYear, endYear)
    ensures 0 <= a < |KeepYears(s, startYear, endYear)| && KeepYears(s, startYear, endYear)[a] == x
  {
    var kept := KeepYears(s, startYear, endYear);
    assert x in kept;
    a :| 0 <= a < |kept| && kept[a] == x;
  }

  /** A filtered, sorted record set starts no later than any row it keeps. */
  lemma KeptStartsBy<T(!new)>(s: seq<Row<T>>, startYear: int, endYear: int, first: Row<T>)
    requires SortedByCongress(KeepYears(s, startYear, endYear))
    requires first in s && InYears(first, startYear, endYear)
    ensures var kept := KeepYears(s, startYear, endYear);
            kept != [] && kept[0].congress <= first.congress
  {
    var kept := KeepYears(s, startYear, endYear);
    var a := KeptIndex(s, startYear, endYear, first);
    SortedHead(kept, a);
  }

  /** A filtered, sorted record set ends no earlier than any row it keeps. */
  lemma KeptEndsBy<T(!new)>(s: seq<Row<T>>, startYear: int, endYear: int, last: Row<T>)
    requires SortedByCongress(KeepYears(s, startYear, endYear))
    requires last in s && InYears(last, startYear, endYear)
    ensures var kept := KeepYears(s, startYear, endYear);
            kept != [] && last.congress <= kept[|kept| - 1].congress
  {
    var kept := KeepYears(s, startYear, endYear);
    var b := KeptIndex(s, startYear, endYear, last);
    SortedLast(kept, b);
  }

  /** Filtering keeps the bounds of the `congress` column. */
  lemma KeptWithin<T(!new)>(s: seq<Row<T>>, lo: int, hi: int, startYear: int, endYear: int, k: int)
    requires forall i :: 0 <= i < |s| ==> lo <= s[i].congress <= hi
    requires 0 <= k < |KeepYears(s, startYear, endYear)|
    ensures lo <= KeepYears(s, startYear, endYear)[k].congress <= hi
  {
    assert KeepYears(s, startYear, endYear)[k] in s;
  }

  /** The ends of a non-empty filtered record set lie within the input's bounds. */
  lemma KeptEndsWithin<T(!new)>(s: seq<Row<T>>, lo: int, hi: int, startYear: int, endYear: int)
    requires forall i :: 0 <= i < |s| ==> lo <= s[i].congress <= hi
    requires KeepYears(s, startYear, endYear) != []
    ensures var kept := KeepYears(s, startYear, endYear);
            lo <= kept[0].congress && kept[|kept| - 1].congress <= hi
  {
    var n := |KeepYears(s, startYear, endYear)|;
    KeptWithin(s, lo, hi, startYear, endYear, 0);
    KeptWithin(s, lo, hi, startYear, endYear, n - 1);
  }

  /** Filtering a sorted record set whose numbers lie in `[lo, hi]` keeps its
      span when a row of Congress `lo` and one of Congress `hi` are in range. */
  lemma KeptSpans<T(!new)>(s: seq<Row<T>>, lo: int, hi: int, startYear: int, endYear: int,
                           first: Row<T>, last: Row<T>)
    requires SortedByCongress(s)
    requires forall i :: 0 <= i < |s| ==> lo <= s[i].congress <= hi
    requires first in s && first.congress == lo && InYears(first, startYear, endYear)
    requires last in s && last.congress == hi && InYears(last, startYear, endYear)
    ensures var kept := KeepYears(s, startYear, endYear);
            kept != [] && kept[0].congress == lo && kept[|kept| - 1].congress == hi
  {
    KeepYearsSorted(s, startYear, endYear);
    KeptStartsBy(s, startYear, endYear, first);
    KeptEndsBy(s, startYear, endYear, last);
    KeptEndsWithin(s, lo, hi, startYear, endYear);
  }
}

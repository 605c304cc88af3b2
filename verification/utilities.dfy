/** Calendar year to Congress number. */
module Utilities {

  /** The year the 1st Congress convened. */
  const FirstCongressYear: int := 1789

  /** The first (odd) calendar year attributed to Congress `n`; Congress `n`
      is attributed the two years `FirstYearOf(n)` and `FirstYearOf(n) + 1`. */
  function FirstYearOf(n: int): int
  {
    FirstCongressYear + 2 * (n - 1)
  }

  /** The Congress whose two-year span contains `year`. The January at the
      tail of a Congress counts as the next Congress, so the span is whole
      calendar years. Total: years before 1789 give numbers below 1. Dafny's
      `/` by a positive divisor is floor division, as `floor(x / 2)` is. */
  function ConvertYearToCongressNumber(year: int): (n: int)
    ensures FirstYearOf(n) <= year < FirstYearOf(n) + 2
  {
    (year - FirstCongressYear) / 2 + 1
  }

  /** The span property determines the number: no other Congress covers `year`. */
  lemma CongressOfYearUnique(year: int, n: int)
    requires FirstYearOf(n) <= year < FirstYearOf(n) + 2
    ensures ConvertYearToCongressNumber(year) == n
  {
    var m := ConvertYearToCongressNumber(year);
    assert FirstYearOf(m) <= year < FirstYearOf(m) + 2;
  }

  lemma ConvertMonotone(y1: int, y2: int)
    requires y1 <= y2
    ensures ConvertYearToCongressNumber(y1) <= ConvertYearToCongressNumber(y2)
  {
  }

  lemma ConvertTwoYearPeriod(year: int)
    ensures ConvertYearToCongressNumber(year + 2) == ConvertYearToCongressNumber(year) + 1
  {
    CongressOfYearUnique(year + 2, ConvertYearToCongressNumber(year) + 1);
  }

  /** Odd years open a new Congress; even years stay in the Congress of the
      odd year before them. */
  lemma OddYearOpensCongress(year: int)
    ensures year % 2 == 1 ==> ConvertYearToCongressNumber(year) == ConvertYearToCongressNumber(year - 1) + 1
    ensures year % 2 == 0 ==> ConvertYearToCongressNumber(year) == ConvertYearToCongressNumber(year - 1)
  {
  }

  /** An odd year and the even year after it share a Congress; two years on is the next one. */
  lemma OddEvenShareCongress(year: int)
    requires year % 2 == 1
    ensures ConvertYearToCongressNumber(year + 1) == ConvertYearToCongressNumber(year)
    ensures ConvertYearToCongressNumber(year + 2) == ConvertYearToCongressNumber(year) + 1
  {
    OddYearOpensCongress(year + 1);
    OddYearOpensCongress(year + 2);
  }

  /** Both years of Congress `n` convert back to `n`. */
  lemma ConvertRoundTrip(n: int)
    ensures ConvertYearToCongressNumber(FirstYearOf(n)) == n
    ensures ConvertYearToCongressNumber(FirstYearOf(n) + 1) == n
  {
    CongressOfYearUnique(FirstYearOf(n), n);
    CongressOfYearUnique(FirstYearOf(n) + 1, n);
  }

  /** From 1789 on, the number is a valid (positive) Congress number;
      before 1789 it is not. */
  lemma ConvertLowerBound(year: int)
    ensures ConvertYearToCongressNumber(FirstCongressYear) == 1
    ensures year >= FirstCongressYear <==> ConvertYearToCongressNumber(year) >= 1
  {
  }

  /** Two years fall in different Congresses exactly when the later one is at
      least two years on, or is the odd year that opens the next Congress. */
  lemma DistinctCongresses(startYear: int, endYear: int)
    ensures ConvertYearToCongressNumber(startYear) < ConvertYearToCongressNumber(endYear) <==>
            startYear < endYear && (endYear - startYear >= 2 || endYear % 2 == 1)
  {
    if startYear < endYear && endYear - startYear < 2 {
      OddYearOpensCongress(endYear);
    }
    if startYear < endYear && endYear - startYear >= 2 {
      ConvertMonotone(startYear + 2, endYear);
      ConvertTwoYearPeriod(startYear);
    }
    if endYear <= startYear {
      ConvertMonotone(endYear, startYear);
    }
  }

  /** The years the library's tests use (2005, 2010 and 2012), and 2011, which
      shares the 112th Congress with 2012. */
  lemma ConvertExamples()
    ensures ConvertYearToCongressNumber(2005) == 109
    ensures ConvertYearToCongressNumber(2010) == 111
    ensures ConvertYearToCongressNumber(2011) == 112
    ensures ConvertYearToCongressNumber(2012) == 112
  {
  }
}

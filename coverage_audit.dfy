/** The per-year missing-observation audit of the flux analysis script.

    The year column of the observation table is given directly as a
    sequence of integer years (one entry per row). For every calendar year
    between the smallest and the largest year present, the audit reports
    how many daily observations are missing: the expected number of days
    (366 in a year divisible by 4, 365 otherwise) minus the number of rows
    recorded for that year. The result is not clamped at zero.
 */
module CoverageAudit {

  // ---------------------------------------------------------------------
  // Specification functions
  // ---------------------------------------------------------------------

  /** Number of rows of `s` whose year is `y`. */
  function Count(s: seq<int>, y: int): nat
  {
    if |s| == 0 then 0
    else Count(s[..|s| - 1], y) + (if s[|s| - 1] == y then 1 else 0)
  }

  /** The script's leap-year rule: divisible by 4, with no century or
      400-year exception. */
  predicate IsLeap(y: int)
  {
    y % 4 == 0
  }

  /** Days expected in year `y` under the script's leap-year rule. */
  function ExpectedDays(y: int): (r: int)
    ensures r == 366 || r == 365
    ensures r == 366 <==> y % 4 == 0
  {
    if IsLeap(y) then 366 else 365
  }

  /** Smallest year of a non-empty column (numpy's min). */
  function Min(s: seq<int>): (r: int)
    requires |s| > 0
    ensures exists k :: 0 <= k < |s| && s[k] == r
    ensures forall k :: 0 <= k < |s| ==> r <= s[k]
  {
    if |s| == 1 then s[0]
    else
      var m := Min(s[..|s| - 1]);
      if s[|s| - 1] < m then s[|s| - 1] else m
  }

  /** Largest year of a non-empty column (numpy's max). */
  function Max(s: seq<int>): (r: int)
    requires |s| > 0
    ensures exists k :: 0 <= k < |s| && s[k] == r
    ensures forall k :: 0 <= k < |s| ==> s[k] <= r
  {
    if |s| == 1 then s[0]
    else
      var m := Max(s[..|s| - 1]);
      if s[|s| - 1] > m then s[|s| - 1] else m
  }

  /** Missing observations of year `y`: expected days minus recorded rows. */
  function Gap(s: seq<int>, y: int): int
  {
    ExpectedDays(y) - Count(s, y)
  }

  /** The gaps of the `n` consecutive years starting at `lo`, in order. */
  function Gaps(s: seq<int>, lo: int, n: nat): (r: seq<int>)
    ensures |r| == n
    ensures forall i :: 0 <= i < n ==> r[i] == Gap(s, lo + i)
  {
    if n == 0 then [] else Gaps(s, lo, n - 1) + [Gap(s, lo + n - 1)]
  }

  /** The audit's result: one gap per year of [Min(s) .. Max(s)]. */
  function Audit(s: seq<int>): seq<int>
    requires |s| > 0
  {
    Gaps(s, Min(s), Max(s) - Min(s) + 1)
  }

  /** Sum of a sequence of integers. */
  function Sum(s: seq<int>): int
  {
    if |s| == 0 then 0 else Sum(s[..|s| - 1]) + s[|s| - 1]
  }

  /** Observed rows summed over the `n` consecutive years starting at `lo`. */
  function RangeTotal(s: seq<int>, lo: int, n: nat): nat
  {
    if n == 0 then 0 else RangeTotal(s, lo, n - 1) + Count(s, lo + n - 1)
  }

  /** Expected days summed over the `n` consecutive years starting at `lo`. */
  function ExpectedTotal(lo: int, n: nat): int
  {
    if n == 0 then 0 else ExpectedTotal(lo, n - 1) + ExpectedDays(lo + n - 1)
  }

  // ---------------------------------------------------------------------
  // The audit as the script computes it
  // ---------------------------------------------------------------------

  /** Row indices whose year equals `y`, in increasing order (the index
      array that numpy's `where` yields for `years == y`). */
  method RowsOf(years: seq<int>, y: int) returns (days: seq<nat>)
    ensures |days| == Count(years, y)
    ensures forall k :: 0 <= k < |days| ==> days[k] < |years| && years[days[k]] == y
    ensures forall k, l :: 0 <= k < l < |days| ==> days[k] < days[l]
    ensures forall j :: 0 <= j < |years| && years[j] == y ==> j in days
  {
    days := [];
    var j := 0;
    while j < |years|
      invariant 0 <= j <= |years|
      invariant |days| == Count(years[..j], y)
      invariant forall k :: 0 <= k < |days| ==> days[k] < j && years[days[k]] == y
      invariant forall k, l :: 0 <= k < l < |days| ==> days[k] < days[l]
      invariant forall j' :: 0 <= j' < j && years[j'] == y ==> j' in days
    {
      assert years[..j + 1][..j] == years[..j];
      if years[j] == y {
        days := days + [j];
      }
      j := j + 1;
    }
    assert years[..j] == years;
  }

  /** Missing observations per year, for every year from the smallest to
      the largest year of the column. Entry `i` belongs to year
      `Min(years) + i` (see `AuditAt` for the length and each entry). */
  method MissingData(years: seq<int>) returns (missing: seq<int>)
    requires |years| > 0
    ensures missing == Audit(years)
  {
    var minyear := Min(years);
    var maxyear := Max(years);
    var n := maxyear - minyear + 1;

    // Years of the range divisible by 4.
    var leapYears: seq<int> := [];
    var i := 0;
    while i < n
      invariant 0 <= i <= n
      invariant forall y :: y in leapYears <==> minyear <= y < minyear + i && y % 4 == 0
    {
      var y := minyear + i;
      if y % 4 == 0 {
        leapYears := leapYears + [y];
      }
      i := i + 1;
    }

    // Rows recorded for each year of the range.
    var daysPerYear: seq<int> := [];
    i := 0;
    while i < n
      invariant 0 <= i <= n
      invariant |daysPerYear| == i
      invariant forall k :: 0 <= k < i ==> daysPerYear[k] == Count(years, minyear + k)
    {
      var y := minyear + i;
      if y in years {
        var days := RowsOf(years, y);
        daysPerYear := daysPerYear + [|days|];
      } else {
        AbsentCountsZero(years, y);
        daysPerYear := daysPerYear + [0];
      }
      i := i + 1;
    }

    // Expected minus recorded, year by year.
    missing := [];
    i := 0;
    while i < n
      invariant 0 <= i <= n
      invariant |missing| == i
      invariant forall k :: 0 <= k < i ==> missing[k] == Gap(years, minyear + k)
    {
      var y := minyear + i;
      var missingYearly: int;
      if y in leapYears {
        missingYearly := 366 - daysPerYear[i];
      } else {
        missingYearly := 365 - daysPerYear[i];
      }
      missing := missing + [missingYearly];
      i := i + 1;
    }
    GapsUnique(years, minyear, n, missing);
  }

  // ---------------------------------------------------------------------
  // Properties
  // ---------------------------------------------------------------------

  /** `Gaps` is the only sequence with its length and entries. */
  lemma {:induction false} GapsUnique(s: seq<int>, lo: int, n: nat, m: seq<int>)
    requires |m| == n
    requires forall k :: 0 <= k < n ==> m[k] == Gap(s, lo + k)
    ensures m == Gaps(s, lo, n)
  {
  }

  /** Appending a row adds one to the count of its own year only. */
  lemma {:induction false} CountSnoc(s: seq<int>, x: int, y: int)
    ensures Count(s + [x], y) == Count(s, y) + (if x == y then 1 else 0)
  {
    assert (s + [x])[..|s|] == s;
  }

  /** `Count` agrees with the multiplicity of the year in the column. */
  lemma {:induction false} CountIsMultiplicity(s: seq<int>, y: int)
    ensures Count(s, y) == multiset(s)[y]
  {
    if |s| > 0 {
      var t := s[..|s| - 1];
      CountIsMultiplicity(t, y);
      assert s == t + [s[|s| - 1]];
    }
  }

  /** A year has no rows exactly when it does not occur in the column. */
  lemma {:induction false} CountZeroIffAbsent(s: seq<int>, y: int)
    ensures Count(s, y) == 0 <==> y !in s
  {
    if |s| > 0 {
      var t := s[..|s| - 1];
      CountZeroIffAbsent(t, y);
      assert s == t + [s[|s| - 1]];
    }
  }

  lemma {:induction false} AbsentCountsZero(s: seq<int>, y: int)
    requires y !in s
    ensures Count(s, y) == 0
  {
    CountZeroIffAbsent(s, y);
  }

  /** Entry `y - Min` of the audit is the expected days of `y` under the
      divisible-by-4 rule minus the rows of `y`, for every year in range. */
  lemma {:induction false} AuditAt(s: seq<int>, y: int)
    requires |s| > 0
    requires Min(s) <= y <= Max(s)
    ensures |Audit(s)| == Max(s) - Min(s) + 1
    ensures Audit(s)[y - Min(s)] == (if y % 4 == 0 then 366 else 365) - Count(s, y)
  {
  }

  /** A year of the range with no rows is reported fully missing. */
  lemma {:induction false} AbsentYearFullyMissing(s: seq<int>, y: int)
    requires |s| > 0
    requires Min(s) <= y <= Max(s)
    requires y !in s
    ensures Audit(s)[y - Min(s)] == ExpectedDays(y)
  {
    AuditAt(s, y);
    CountZeroIffAbsent(s, y);
  }

  /** A year that does occur has fewer missing days than expected. */
  lemma {:induction false} PresentYearPartlyObserved(s: seq<int>, y: int)
    requires |s| > 0
    requires y in s
    ensures Min(s) <= y <= Max(s)
    ensures Audit(s)[y - Min(s)] < ExpectedDays(y)
  {
    AuditAt(s, y);
    CountZeroIffAbsent(s, y);
  }

  /** Appending a row adds one to the range total when its year is in range. */
  lemma {:induction false} RangeTotalAppend(s: seq<int>, x: int, lo: int, n: nat)
    ensures RangeTotal(s + [x], lo, n) == RangeTotal(s, lo, n) + (if lo <= x < lo + n then 1 else 0)
  {
    assert (s + [x])[..|s|] == s;
    if n > 0 {
      RangeTotalAppend(s, x, lo, n - 1);
    }
  }

  /** When every row's year lies in [lo, lo + n), the per-year counts over
      that range add up to the number of rows. */
  lemma {:induction false} RangeTotalCoversAll(s: seq<int>, lo: int, n: nat)
    requires forall k :: 0 <= k < |s| ==> lo <= s[k] < lo + n
    ensures RangeTotal(s, lo, n) == |s|
  {
    if |s| == 0 {
      if n > 0 {
        RangeTotalCoversAll(s, lo, n - 1);
      }
    } else {
      var t := s[..|s| - 1];
      RangeTotalCoversAll(t, lo, n);
      RangeTotalAppend(t, s[|s| - 1], lo, n);
      assert t + [s[|s| - 1]] == s;
    }
  }

  /** The gaps of a range sum to its expected days minus its observed rows. */
  lemma {:induction false} SumGaps(s: seq<int>, lo: int, n: nat)
    ensures Sum(Gaps(s, lo, n)) == ExpectedTotal(lo, n) - RangeTotal(s, lo, n)
  {
    if n > 0 {
      SumGaps(s, lo, n - 1);
      var g := Gaps(s, lo, n);
      assert g[..n - 1] == Gaps(s, lo, n - 1);
    }
  }

  /** Conservation: every row is counted in exactly one year of the range,
      so the observed counts sum to the number of rows and the audit sums
      to the expected days of the range minus the number of rows. */
  lemma {:induction false} Conservation(s: seq<int>)
    requires |s| > 0
    ensures RangeTotal(s, Min(s), Max(s) - Min(s) + 1) == |s|
    ensures Sum(Audit(s)) == ExpectedTotal(Min(s), Max(s) - Min(s) + 1) - |s|
  {
    ConservationIn(s, Min(s), Max(s) - Min(s) + 1);
  }

  /** Conservation over any range [lo, lo + n) holding every row's year. */
  lemma {:induction false} ConservationIn(s: seq<int>, lo: int, n: nat)
    requires forall k :: 0 <= k < |s| ==> lo <= s[k] < lo + n
    ensures RangeTotal(s, lo, n) == |s|
    ensures Sum(Gaps(s, lo, n)) == ExpectedTotal(lo, n) - |s|
  {
    RangeTotalCoversAll(s, lo, n);
    SumGaps(s, lo, n);
  }

  /** A column whose rows all carry year `y` counts every row for `y`. */
  lemma {:induction false} CountUniform(s: seq<int>, y: int)
    requires forall k :: 0 <= k < |s| ==> s[k] == y
    ensures Count(s, y) == |s|
  {
    if |s| > 0 {
      CountUniform(s[..|s| - 1], y);
    }
  }

  /** The result is not clamped: a year with more rows than days has a
      negative entry. With 367 rows all in 2001 the audit is [-2]. */
  lemma {:induction false} OverfullYearNegative(s: seq<int>)
    requires |s| == 367
    requires forall k :: 0 <= k < |s| ==> s[k] == 2001
    ensures Audit(s) == [-2]
  {
    CountUniform(s, 2001);
    assert s[0] in s;
  }

  /** Three rows in leap year 2000, none in 2001 and one in 2002. */
  lemma {:induction false} ScenarioLeapAndEmptyYear()
    ensures Audit([2000, 2000, 2002, 2000]) == [363, 365, 364]
  {
    var s := [2000, 2000, 2002, 2000];
    ScenarioCounts();
    assert Min(s) == 2000 && Max(s) == 2002;
    assert Audit(s)[0] == Gap(s, 2000 + 0);
    assert Audit(s)[1] == Gap(s, 2000 + 1);
    assert Audit(s)[2] == Gap(s, 2000 + 2);
  }

  lemma {:induction false} ScenarioCounts()
    ensures Count([2000, 2000, 2002, 2000], 2000) == 3
    ensures Count([2000, 2000, 2002, 2000], 2001) == 0
    ensures Count([2000, 2000, 2002, 2000], 2002) == 1
  {
    var s3 := [2000, 2000, 2002];
    assert [2000, 2000, 2002, 2000] == s3 + [2000];
    CountSnoc(s3, 2000, 2000);
    CountSnoc([2000, 2000], 2002, 2000);
    CountSnoc([2000], 2000, 2000);
    CountSnoc([], 2000, 2000);
    AbsentCountsZero(s3 + [2000], 2001);
    CountSnoc(s3, 2000, 2002);
    CountSnoc([2000, 2000], 2002, 2002);
    AbsentCountsZero([2000, 2000], 2002);
  }

  /** Every century year of the range, 1900 and 2100 included, is audited
      against 366 days: the rule has no century exception. */
  lemma {:induction false} CenturyYearsAreLeap(s: seq<int>, y: int)
    requires |s| > 0
    requires Min(s) <= y <= Max(s) && y % 100 == 0
    ensures Audit(s)[y - Min(s)] == 366 - Count(s, y)
  {
    AuditAt(s, y);
    assert y % 4 == 0;
  }

  /** The result is not clamped: any year of the range with more rows than
      expected days has a negative entry. */
  lemma {:induction false} OverfullEntryNegative(s: seq<int>, y: int)
    requires |s| > 0
    requires Min(s) <= y <= Max(s)
    requires Count(s, y) > ExpectedDays(y)
    ensures Audit(s)[y - Min(s)] < 0
  {
    AuditAt(s, y);
  }
}

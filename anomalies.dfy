/**
 * The anomaly detector (`detect_anomalies`): for each of the last 7 dates
 * and each category of the watch list, compare the day's count with the
 * category's baseline over the table's last 90 dates, report the counts
 * whose z-score exceeds the threshold, and order the reports by z-score,
 * highest first.
 *
 * Two numeric primitives are parameters, bundled in `Numerics`: the square
 * root that `statistics.stdev` takes, and Python's `round(x, ndigits)`,
 * which the source applies to the three real fields of a report.
 */
module Anomalies {
  import opened Wrappers
  import opened Dates
  import opened Aggregate
  import opened Baseline

  /** `ARREST_CATEGORIES`: the watch list, in scan order. */
  const ArrestCategories: seq<string> := [
    "Drug Offense",
    "Warrant",
    "Assault",
    "Robbery",
    "Burglary",
    "Motor Vehicle Theft",
    "Weapons Offense",
    "Disorderly Conduct",
    "Prostitution",
    "Suspicious Occ"
  ]

  /** Fewer dates than this and nothing is reported. */
  const MinHistory: nat := 100
  /** How many of the latest dates are scanned. */
  const RecentDays: nat := 7
  /** How many of the latest dates the baseline covers. */
  const BaselineDays: nat := 90
  /** The default `threshold_sigma`. */
  const DefaultThreshold: real := 2.0

  /** The square root and the rounding function the computation uses. */
  datatype Numerics = Numerics(sqrt: real -> real, round: (real, nat) -> real)

  /** One reported surge: the dictionary appended to `anomalies`. */
  datatype Anomaly = Anomaly(
    date: string,
    category: string,
    count: nat,
    baselineMean: real,
    zScore: real,
    percentAbove: real)

  /** `dates[-7:]` for the sorted dates of `t`. */
  function RecentDates(t: Table): (w: seq<string>)
    ensures forall d :: d in w ==> d in t
  {
    WindowDates(t, RecentDays)
  }

  /** The 90-date baseline of `category`, which does not depend on the date under test. */
  function BaselineOf(t: Table, category: string, num: Numerics): Stats
  {
    CalculateBaseline(t, category, BaselineDays, num.sqrt)
  }

  /** Each of the last 7 dates is among the last 90, so the baseline sees the day under test. */
  lemma RecentWithinBaseline(t: Table)
    ensures forall d :: d in RecentDates(t) ==> d in WindowDates(t, BaselineDays)
  {
    SuffixWithin(SortedKeys(t.Keys), -(RecentDays as int), -(BaselineDays as int));
  }

  /**
   * A day with a positive count for `category` that lies in the baseline
   * window gives the category a positive baseline mean, so the
   * `percent_above` division never divides by zero.
   */
  lemma BaselineMeanPositive(t: Table, category: string, num: Numerics, date: string)
    requires date in WindowDates(t, BaselineDays)
    requires Get(t[date], category) > 0
    ensures BaselineOf(t, category, num).mean > 0.0
  {
    var w := WindowDates(t, BaselineDays);
    var xs := Samples(t, category, BaselineDays);
    var k :| 0 <= k < |w| && w[k] == date;
    assert xs[k] > 0;
    MeanPositive(xs, k);
  }

  /** `(count - mean) / stdev`. */
  function ZScore(count: nat, mean: real, stdev: real): (z: real)
    requires stdev != 0.0
    ensures z * stdev == count as real - mean
  {
    (count as real - mean) / stdev
  }

  /** `(count - mean) / mean * 100`. */
  function PercentAbove(count: nat, mean: real): (p: real)
    requires mean != 0.0
    ensures p * mean == (count as real - mean) * 100.0
  {
    (count as real - mean) / mean * 100.0
  }

  /**
   * The body of the inner loop for one (date, category): `None` where the
   * source `continue`s or does not append, the report where it appends.
   */
  function Inspect(t: Table, thresholdSigma: real, num: Numerics, date: string, category: string): (o: Option<Anomaly>)
    requires date in WindowDates(t, BaselineDays)
    ensures Get(t[date], category) == 0 ==> o == None
    ensures BaselineOf(t, category, num).stdev <= 0.0 ==> o == None
    ensures o.Some? ==> o.value.date == date && o.value.category == category &&
                        o.value.count == Get(t[date], category) > 0
  {
    var count := Get(t[date], category);
    if count == 0 then None
    else
      var b := BaselineOf(t, category, num);
      if b.stdev > 0.0 then
        var zScore := ZScore(count, b.mean, b.stdev);
        if zScore > thresholdSigma then
          BaselineMeanPositive(t, category, num, date);
          Some(Anomaly(date, category, count,
                       num.round(b.mean, 1),
                       num.round(zScore, 2),
                       num.round(PercentAbove(count, b.mean), 1)))
        else None
      else None
  }

  /** The optional report as a list of at most one element. */
  function Found(o: Option<Anomaly>): (r: seq<Anomaly>)
    ensures o.None? ==> r == []
    ensures o.Some? ==> r == [o.value]
  {
    match o
    case None => []
    case Some(a) => [a]
  }

  /** The verdicts for `date`, one per watch-list category, in scan order. */
  function DayVerdicts(t: Table, thresholdSigma: real, num: Numerics, date: string): (row: seq<Option<Anomaly>>)
    requires date in WindowDates(t, BaselineDays)
    ensures |row| == |ArrestCategories|
  {
    seq(|ArrestCategories|, j requires 0 <= j < |ArrestCategories| => Inspect(t, thresholdSigma, num, date, ArrestCategories[j]))
  }

  /**
   * The verdicts of the nested loops: row `i` for the `i`-th of the last 7
   * dates, column `j` for the `j`-th watch-list category.
   */
  function Verdicts(t: Table, thresholdSigma: real, num: Numerics): (grid: seq<seq<Option<Anomaly>>>)
    ensures |grid| == |RecentDates(t)|
  {
    var recent := RecentDates(t);
    RecentWithinBaseline(t);
    seq(|recent|, i requires 0 <= i < |recent| => DayVerdicts(t, thresholdSigma, num, recent[i]))
  }

  /** The reports of a row of verdicts, in order. */
  function Reported(row: seq<Option<Anomaly>>): seq<Anomaly>
  {
    if row == [] then [] else Reported(row[..|row| - 1]) + Found(row[|row| - 1])
  }

  /** The reports of the rows of `grid`, row after row. */
  function ReportedRows(grid: seq<seq<Option<Anomaly>>>): seq<Anomaly>
  {
    if grid == [] then [] else ReportedRows(grid[..|grid| - 1]) + Reported(grid[|grid| - 1])
  }

  /** The reports in the order the loops append them, before sorting. */
  function Candidates(t: Table, thresholdSigma: real, num: Numerics): (r: seq<Anomaly>)
    ensures |t.Keys| < MinHistory ==> r == []
  {
    if |t.Keys| < MinHistory then [] else ReportedRows(Verdicts(t, thresholdSigma, num))
  }

  // ---------------------------------------------------------------------
  // Sorting by z-score, highest first, keeping ties in order
  // ---------------------------------------------------------------------

  /** Every report's z-score is at least that of every later report. */
  predicate DescendingZ(s: seq<Anomaly>)
  {
    forall i, j :: 0 <= i < j < |s| ==> s[i].zScore >= s[j].zScore
  }

  /** Inserts `a` before the first element whose z-score is not above its own. */
  function InsertByZ(a: Anomaly, s: seq<Anomaly>): (r: seq<Anomaly>)
    ensures multiset(r) == multiset(s) + multiset{a}
  {
    if s == [] || s[0].zScore <= a.zScore then [a] + s
    else
      assert s == [s[0]] + s[1..];
      [s[0]] + InsertByZ(a, s[1..])
  }

  /** Every element of the insertion result is `a` or an element of `s`. */
  lemma InsertMembers(a: Anomaly, s: seq<Anomaly>)
    ensures forall x :: x in InsertByZ(a, s) ==> x == a || x in s
  {
    forall x | x in InsertByZ(a, s)
      ensures x == a || x in s
    {
      assert x in multiset(InsertByZ(a, s));
    }
  }

  /** In a descending list, the head's z-score bounds every later one. */
  lemma HeadBoundsTail(s: seq<Anomaly>)
    requires s != [] && DescendingZ(s)
    ensures forall x :: x in s[1..] ==> x.zScore <= s[0].zScore
  {
    forall x | x in s[1..]
      ensures x.zScore <= s[0].zScore
    {
      var k :| 0 <= k < |s[1..]| && s[1..][k] == x;
      assert s[k + 1] == x;
    }
  }

  /** A list in descending z-score whose head bounds its tail, with a head added, stays descending. */
  lemma ConsDescending(h: Anomaly, rest: seq<Anomaly>)
    requires DescendingZ(rest)
    requires forall x :: x in rest ==> x.zScore <= h.zScore
    ensures DescendingZ([h] + rest)
  {
    var r := [h] + rest;
    forall i, j | 0 <= i < j < |r|
      ensures r[i].zScore >= r[j].zScore
    {
      if i == 0 { assert r[j] in rest; } else { assert r[i] == rest[i - 1] && r[j] == rest[j - 1]; }
    }
  }

  lemma {:induction false} InsertKeepsDescending(a: Anomaly, s: seq<Anomaly>)
    requires DescendingZ(s)
    ensures DescendingZ(InsertByZ(a, s))
  {
    if s == [] || s[0].zScore <= a.zScore {
      if s != [] { HeadBoundsTail(s); }
      assert forall x :: x in s ==> x.zScore <= a.zScore by {
        forall x | x in s ensures x.zScore <= a.zScore {
          if x != s[0] { assert x in s[1..] by { var k :| 0 <= k < |s| && s[k] == x; assert s[1..][k - 1] == x; } }
        }
      }
      ConsDescending(a, s);
    } else {
      var rest := InsertByZ(a, s[1..]);
      assert DescendingZ(s[1..]) by {
        forall i, j | 0 <= i < j < |s[1..]| ensures s[1..][i].zScore >= s[1..][j].zScore {
          assert s[1..][i] == s[i + 1] && s[1..][j] == s[j + 1];
        }
      }
      InsertKeepsDescending(a, s[1..]);
      InsertMembers(a, s[1..]);
      HeadBoundsTail(s);
      ConsDescending(s[0], rest);
    }
  }

  /** `sorted(anomalies, key=lambda x: -x['z_score'])`: a permutation in descending z-score. */
  function SortByZDesc(s: seq<Anomaly>): (r: seq<Anomaly>)
    ensures multiset(r) == multiset(s)
    ensures DescendingZ(r)
  {
    if s == [] then []
    else
      assert s == [s[0]] + s[1..];
      InsertKeepsDescending(s[0], SortByZDesc(s[1..]));
      InsertByZ(s[0], SortByZDesc(s[1..]))
  }

  // ---------------------------------------------------------------------
  // The loops
  // ---------------------------------------------------------------------

  /**
   * The inner loop of `detect_anomalies` for one date: the reports for that
   * date, in watch-list order.
   */
  method ScanCategories(dailyCounts: Table, thresholdSigma: real, num: Numerics, date: string) returns (found: seq<Anomaly>)
    requires date in WindowDates(dailyCounts, BaselineDays)
    ensures found == Reported(DayVerdicts(dailyCounts, thresholdSigma, num, date))
  {
    found := [];
    var dayData := dailyCounts[date];
    ghost var row := DayVerdicts(dailyCounts, thresholdSigma, num, date);
    for j := 0 to |ArrestCategories|
      invariant found == Reported(row[..j])
    {
      var category := ArrestCategories[j];
      assert row[..j + 1][..j] == row[..j];
      assert Reported(row[..j + 1]) == found + Found(row[j]);
      var count := Get(dayData, category);
      if count == 0 {
        assert row[j] == None;
        continue;
      }
      var stats := CalculateBaseline(dailyCounts, category, BaselineDays, num.sqrt);
      var mean, stdev := stats.mean, stats.stdev;
      if stdev > 0.0 {
        var zScore := ZScore(count, mean, stdev);
        if zScore > thresholdSigma {
          BaselineMeanPositive(dailyCounts, category, num, date);
          var anomaly := Anomaly(date, category, count,
                                 num.round(mean, 1),
                                 num.round(zScore, 2),
                                 num.round(PercentAbove(count, mean), 1));
          assert row[j] == Some(anomaly);
          found := found + [anomaly];
        } else {
          assert row[j] == None;
        }
      } else {
        assert row[j] == None;
      }
    }
    assert row[..|ArrestCategories|] == row;
  }

  /** The outer loop of `detect_anomalies`: the reports of the last 7 dates, date by date. */
  method ScanRecentDates(dailyCounts: Table, thresholdSigma: real, num: Numerics) returns (anomalies: seq<Anomaly>)
    ensures anomalies == ReportedRows(Verdicts(dailyCounts, thresholdSigma, num))
  {
    anomalies := [];
    var recentDates := RecentDates(dailyCounts);
    ghost var grid := Verdicts(dailyCounts, thresholdSigma, num);
    for i := 0 to |recentDates|
      invariant anomalies == ReportedRows(grid[..i])
    {
      var date := recentDates[i];
      VerdictsRow(dailyCounts, thresholdSigma, num, i);
      var found := ScanCategories(dailyCounts, thresholdSigma, num, date);
      ReportedRowsStep(grid, i);
      anomalies := anomalies + found;
    }
    assert grid[..|recentDates|] == grid;
  }

  /** Row `i` of the verdicts is the verdicts on the `i`-th recent date. */
  lemma VerdictsRow(t: Table, thresholdSigma: real, num: Numerics, i: int)
    requires 0 <= i < |RecentDates(t)|
    ensures RecentDates(t)[i] in WindowDates(t, BaselineDays)
    ensures Verdicts(t, thresholdSigma, num)[i] == DayVerdicts(t, thresholdSigma, num, RecentDates(t)[i])
  {
    RecentWithinBaseline(t);
  }

  /** Cell (i, j) of the verdicts inspects the `i`-th recent date and the `j`-th watched category. */
  lemma VerdictAt(t: Table, thresholdSigma: real, num: Numerics, i: int, j: int)
    requires 0 <= i < |RecentDates(t)| && 0 <= j < |ArrestCategories|
    ensures RecentDates(t)[i] in WindowDates(t, BaselineDays)
    ensures Verdicts(t, thresholdSigma, num)[i][j] == Inspect(t, thresholdSigma, num, RecentDates(t)[i], ArrestCategories[j])
  {
    VerdictsRow(t, thresholdSigma, num, i);
  }

  /** Flattening one more row appends that row's reports. */
  lemma ReportedRowsStep(grid: seq<seq<Option<Anomaly>>>, i: int)
    requires 0 <= i < |grid|
    ensures ReportedRows(grid[..i + 1]) == ReportedRows(grid[..i]) + Reported(grid[i])
  {
    assert grid[..i + 1][..i] == grid[..i];
  }

  /**
   * `detect_anomalies(daily_counts, threshold_sigma)`: nothing with fewer
   * than 100 dates, otherwise the scan of the last 7 dates by the watch
   * list, sorted by descending z-score.
   */
  method DetectAnomalies(dailyCounts: Table, thresholdSigma: real, num: Numerics) returns (anomalies: seq<Anomaly>)
    ensures anomalies == SortByZDesc(Candidates(dailyCounts, thresholdSigma, num))
    ensures |dailyCounts.Keys| < MinHistory ==> anomalies == []
  {
    anomalies := [];
    var dates := SortedKeys(dailyCounts.Keys);
    if |dates| < MinHistory {
      return;
    }
    anomalies := ScanRecentDates(dailyCounts, thresholdSigma, num);
    anomalies := SortByZDesc(anomalies);
  }

  // ---------------------------------------------------------------------
  // Which pairs are reported
  // ---------------------------------------------------------------------

  /** What the scan of a row of verdicts reports: exactly the `Some` verdicts. */
  lemma {:induction false} ReportedMembers(row: seq<Option<Anomaly>>)
    ensures forall a :: a in Reported(row) <==> exists j :: 0 <= j < |row| && row[j] == Some(a)
  {
    if row != [] {
      var init := row[..|row| - 1];
      ReportedMembers(init);
      forall a
        ensures a in Reported(row) <==> exists j :: 0 <= j < |row| && row[j] == Some(a)
      {
        if exists j :: 0 <= j < |row| && row[j] == Some(a) {
          var j :| 0 <= j < |row| && row[j] == Some(a);
          if j < |row| - 1 {
            assert init[j] == Some(a);
          }
        }
        if a in Reported(init) {
          var j :| 0 <= j < |init| && init[j] == Some(a);
          assert row[j] == Some(a);
        }
      }
    }
  }

  /** What the scan of a grid of verdicts reports: exactly the `Some` verdicts of its rows. */
  lemma {:induction false} ReportedRowsMembers(grid: seq<seq<Option<Anomaly>>>)
    ensures forall a :: a in ReportedRows(grid) <==>
              exists i, j :: 0 <= i < |grid| && 0 <= j < |grid[i]| && grid[i][j] == Some(a)
  {
    if grid != [] {
      var init := grid[..|grid| - 1];
      var last := grid[|grid| - 1];
      ReportedRowsMembers(init);
      ReportedMembers(last);
      forall a
        ensures a in ReportedRows(grid) <==>
                exists i, j :: 0 <= i < |grid| && 0 <= j < |grid[i]| && grid[i][j] == Some(a)
      {
        if exists i, j :: 0 <= i < |grid| && 0 <= j < |grid[i]| && grid[i][j] == Some(a) {
          var i, j :| 0 <= i < |grid| && 0 <= j < |grid[i]| && grid[i][j] == Some(a);
          if i < |grid| - 1 {
            assert init[i][j] == Some(a);
          } else {
            assert last[j] == Some(a);
          }
        }
        if a in ReportedRows(init) {
          var i, j :| 0 <= i < |init| && 0 <= j < |init[i]| && init[i][j] == Some(a);
          assert grid[i][j] == Some(a);
        }
      }
    }
  }

  /** The verdict for one pair: reported exactly when the count, the spread and the z-score pass. */
  lemma InspectSpec(t: Table, thresholdSigma: real, num: Numerics, date: string, category: string)
    requires date in WindowDates(t, BaselineDays)
    ensures var count := Get(t[date], category);
            var b := BaselineOf(t, category, num);
            Inspect(t, thresholdSigma, num, date, category).Some? <==>
              count > 0 && b.stdev > 0.0 && ZScore(count, b.mean, b.stdev) > thresholdSigma
    ensures var count := Get(t[date], category);
            var b := BaselineOf(t, category, num);
            var o := Inspect(t, thresholdSigma, num, date, category);
            o.Some? ==>
              b.mean > 0.0 &&
              o.value == Anomaly(date, category, count,
                                 num.round(b.mean, 1),
                                 num.round(ZScore(count, b.mean, b.stdev), 2),
                                 num.round(PercentAbove(count, b.mean), 1))
  {
    if Get(t[date], category) > 0 {
      BaselineMeanPositive(t, category, num, date);
    }
  }

  /**
   * The source's conditions for reporting `category` on `date`: at least
   * 100 dates, `date` among the last 7, a watched category, a positive count,
   * a positive baseline stdev and a z-score above the threshold.
   */
  predicate Flagged(t: Table, thresholdSigma: real, num: Numerics, date: string, category: string)
  {
    |t.Keys| >= MinHistory && date in RecentDates(t) && category in ArrestCategories &&
    var count := Get(t[date], category);
    var b := BaselineOf(t, category, num);
    count > 0 && b.stdev > 0.0 && ZScore(count, b.mean, b.stdev) > thresholdSigma
  }

  /**
   * The report of a flagged pair: that day's count, and the baseline mean,
   * z-score and percentage excess, each rounded as the source rounds it.
   */
  predicate ReportOf(t: Table, num: Numerics, a: Anomaly)
    requires a.date in t
  {
    var b := BaselineOf(t, a.category, num);
    a.count == Get(t[a.date], a.category) &&
    b.stdev > 0.0 && b.mean > 0.0 &&
    a.baselineMean == num.round(b.mean, 1) &&
    a.zScore == num.round(ZScore(a.count, b.mean, b.stdev), 2) &&
    a.percentAbove == num.round(PercentAbove(a.count, b.mean), 1)
  }

  /** Every report the scan appends is for a flagged pair and carries its figures. */
  lemma CandidateFlagged(t: Table, thresholdSigma: real, num: Numerics, a: Anomaly)
    requires a in Candidates(t, thresholdSigma, num)
    ensures Flagged(t, thresholdSigma, num, a.date, a.category) && ReportOf(t, num, a)
  {
    var recent := RecentDates(t);
    var grid := Verdicts(t, thresholdSigma, num);
    RecentWithinBaseline(t);
    ReportedRowsMembers(grid);
    var i, j :| 0 <= i < |grid| && 0 <= j < |grid[i]| && grid[i][j] == Some(a);
    assert grid[i][j] == Inspect(t, thresholdSigma, num, recent[i], ArrestCategories[j]);
    InspectSpec(t, thresholdSigma, num, recent[i], ArrestCategories[j]);
  }

  /** The scan appends the report of every flagged pair. */
  lemma FlaggedCandidate(t: Table, thresholdSigma: real, num: Numerics, a: Anomaly)
    requires Flagged(t, thresholdSigma, num, a.date, a.category) && ReportOf(t, num, a)
    ensures a in Candidates(t, thresholdSigma, num)
  {
    var recent := RecentDates(t);
    var grid := Verdicts(t, thresholdSigma, num);
    var i :| 0 <= i < |recent| && recent[i] == a.date;
    var j :| 0 <= j < |ArrestCategories| && ArrestCategories[j] == a.category;
    VerdictAt(t, thresholdSigma, num, i, j);
    InspectSpec(t, thresholdSigma, num, a.date, a.category);
    assert grid[i][j] == Some(a);
    ReportedRowsMembers(grid);
  }

  /**
   * `detect_anomalies` returns a report exactly for each flagged pair, and
   * each report carries the pair's figures; with fewer than 100 dates it
   * returns nothing.
   */
  lemma DetectedIffFlagged(t: Table, thresholdSigma: real, num: Numerics, a: Anomaly)
    ensures a in SortByZDesc(Candidates(t, thresholdSigma, num)) <==>
              Flagged(t, thresholdSigma, num, a.date, a.category) && ReportOf(t, num, a)
  {
    var c := Candidates(t, thresholdSigma, num);
    assert a in SortByZDesc(c) <==> a in multiset(SortByZDesc(c));
    assert a in c <==> a in multiset(c);
    if a in c {
      CandidateFlagged(t, thresholdSigma, num, a);
    }
    if Flagged(t, thresholdSigma, num, a.date, a.category) && ReportOf(t, num, a) {
      FlaggedCandidate(t, thresholdSigma, num, a);
    }
  }

  /** A pair is reported, under whatever figures, exactly when it is flagged. */
  lemma PairReportedIffFlagged(t: Table, thresholdSigma: real, num: Numerics, date: string, category: string)
    ensures (exists a :: a in SortByZDesc(Candidates(t, thresholdSigma, num)) && a.date == date && a.category == category)
            <==> Flagged(t, thresholdSigma, num, date, category)
  {
    if exists a :: a in SortByZDesc(Candidates(t, thresholdSigma, num)) && a.date == date && a.category == category {
      var a :| a in SortByZDesc(Candidates(t, thresholdSigma, num)) && a.date == date && a.category == category;
      DetectedIffFlagged(t, thresholdSigma, num, a);
    }
    if Flagged(t, thresholdSigma, num, date, category) {
      var count := Get(t[date], category);
      var b := BaselineOf(t, category, num);
      RecentWithinBaseline(t);
      BaselineMeanPositive(t, category, num, date);
      var a := Anomaly(date, category, count,
                       num.round(b.mean, 1),
                       num.round(ZScore(count, b.mean, b.stdev), 2),
                       num.round(PercentAbove(count, b.mean), 1));
      DetectedIffFlagged(t, thresholdSigma, num, a);
    }
  }

  // ---------------------------------------------------------------------
  // The z-test without square roots
  // ---------------------------------------------------------------------

  /** Dividing by a positive stdev: z exceeds the threshold exactly when the excess exceeds threshold * stdev. */
  lemma ZScoreAbove(count: nat, mean: real, stdev: real, thresholdSigma: real)
    requires stdev > 0.0
    ensures ZScore(count, mean, stdev) > thresholdSigma <==> count as real - mean > thresholdSigma * stdev
  {
    var diff := count as real - mean;
    var z := ZScore(count, mean, stdev);
    assert diff == z * stdev;
    if z > thresholdSigma {
      assert z * stdev > thresholdSigma * stdev;
    } else {
      assert z * stdev <= thresholdSigma * stdev;
    }
  }

  /**
   * With a non-negative threshold, the z-test on a true square root is the
   * test `count > mean` and `(count - mean)^2 > threshold^2 * variance`.
   */
  lemma ZScoreWithoutRoot(count: nat, mean: real, stdev: real, variance: real, thresholdSigma: real)
    requires stdev > 0.0 && IsSqrt(stdev, variance) && thresholdSigma >= 0.0
    ensures ZScore(count, mean, stdev) > thresholdSigma <==>
              count as real > mean &&
              (count as real - mean) * (count as real - mean) > thresholdSigma * thresholdSigma * variance
  {
    var diff := count as real - mean;
    ZScoreAbove(count, mean, stdev, thresholdSigma);
    ProductNonnegative(thresholdSigma, stdev, thresholdSigma * stdev);
    if diff > 0.0 {
      SquareMonotone(diff, thresholdSigma * stdev);
      assert (thresholdSigma * stdev) * (thresholdSigma * stdev) == thresholdSigma * thresholdSigma * variance;
    }
  }

  /** `count` exceeds `mean`, and the squared excess exceeds threshold^2 times `variance`. */
  predicate ExcessAbove(count: nat, mean: real, variance: real, thresholdSigma: real)
  {
    count as real > mean &&
    (count as real - mean) * (count as real - mean) > thresholdSigma * thresholdSigma * variance
  }

  /** `Flagged` stated on the sample variance of the baseline counts, with no square root. */
  predicate FlaggedByVariance(t: Table, thresholdSigma: real, date: string, category: string)
  {
    |t.Keys| >= MinHistory && date in RecentDates(t) && category in ArrestCategories &&
    var count := Get(t[date], category);
    var xs := Samples(t, category, BaselineDays);
    count > 0 && |xs| >= 2 && SampleVariance(xs) > 0.0 &&
    ExcessAbove(count, Mean(xs), SampleVariance(xs), thresholdSigma)
  }

  /** The z-test on one count, with the spread given as a root of the variance. */
  lemma ZTestWithoutRoot(count: nat, mean: real, stdev: real, variance: real, thresholdSigma: real)
    requires IsSqrt(stdev, variance) && thresholdSigma >= 0.0
    ensures (stdev > 0.0 && ZScore(count, mean, stdev) > thresholdSigma) <==>
              variance > 0.0 && ExcessAbove(count, mean, variance, thresholdSigma)
  {
    SqrtPositiveIff(stdev, variance);
    if stdev > 0.0 {
      ZScoreWithoutRoot(count, mean, stdev, variance, thresholdSigma);
    }
  }

  /**
   * For a non-negative threshold and a true square root, a pair is flagged
   * exactly when its count is above the mean and its squared excess is
   * above threshold^2 times the sample variance.
   */
  lemma FlaggedWithoutRoot(t: Table, thresholdSigma: real, num: Numerics, date: string, category: string)
    requires IsSquareRoot(num.sqrt) && thresholdSigma >= 0.0
    ensures Flagged(t, thresholdSigma, num, date, category) <==> FlaggedByVariance(t, thresholdSigma, date, category)
  {
    if |t.Keys| >= MinHistory && date in RecentDates(t) && category in ArrestCategories {
      var count := Get(t[date], category);
      var xs := Samples(t, category, BaselineDays);
      var b := BaselineOf(t, category, num);
      if |xs| >= 2 {
        var v := SampleVariance(xs);
        VarianceZeroIffConstant(xs);
        assert b.mean == Mean(xs) && b.stdev == num.sqrt(v);
        ZTestWithoutRoot(count, b.mean, b.stdev, v, thresholdSigma);
        assert Flagged(t, thresholdSigma, num, date, category) <==>
               count > 0 && b.stdev > 0.0 && ZScore(count, b.mean, b.stdev) > thresholdSigma;
        assert FlaggedByVariance(t, thresholdSigma, date, category) <==>
               count > 0 && v > 0.0 && ExcessAbove(count, b.mean, v, thresholdSigma);
      } else {
        assert b.stdev == 0.0;
      }
    } else {
      assert !Flagged(t, thresholdSigma, num, date, category);
      assert !FlaggedByVariance(t, thresholdSigma, date, category);
    }
  }

  // ---------------------------------------------------------------------
  // Order of the reports
  // ---------------------------------------------------------------------

  /** The first position of `x` in `s`, or `|s|` when it does not occur. */
  function IndexOf(s: seq<string>, x: string): (i: nat)
    ensures i <= |s|
    ensures i < |s| ==> s[i] == x
    ensures forall j :: 0 <= j < i ==> s[j] != x
  {
    if s == [] then 0
    else if s[0] == x then 0
    else 1 + IndexOf(s[1..], x)
  }

  /** No category occurs twice in `watch`. */
  predicate Distinct(watch: seq<string>)
  {
    forall i, j :: 0 <= i < j < |watch| ==> watch[i] != watch[j]
  }

  /** The watch list names ten categories, none twice, so no pair is scanned twice on one date. */
  lemma WatchListDistinct()
    ensures |ArrestCategories| == 10 && Distinct(ArrestCategories)
    ensures "TOTAL" !in ArrestCategories && "Unknown" !in ArrestCategories
  {
  }

  /**
   * The scan reaches `a` before `b`: an earlier date, or the same date and a
   * category earlier in `watch`.
   */
  predicate Precedes(watch: seq<string>, a: Anomaly, b: Anomaly)
  {
    Below(a.date, b.date) || (a.date == b.date && IndexOf(watch, a.category) < IndexOf(watch, b.category))
  }

  /** Every report precedes every later report in scan order. */
  predicate InScanOrder(watch: seq<string>, s: seq<Anomaly>)
  {
    forall i, j :: 0 <= i < j < |s| ==> Precedes(watch, s[i], s[j])
  }

  /** Two lists in scan order, the first wholly ahead of the second, concatenate in scan order. */
  lemma ConcatInScanOrder(watch: seq<string>, p: seq<Anomaly>, q: seq<Anomaly>)
    requires InScanOrder(watch, p) && InScanOrder(watch, q)
    requires forall x, y :: x in p && y in q ==> Precedes(watch, x, y)
    ensures InScanOrder(watch, p + q)
  {
    var all := p + q;
    forall i, j | 0 <= i < j < |all|
      ensures Precedes(watch, all[i], all[j])
    {
      if j < |p| {
        assert all[i] == p[i] && all[j] == p[j];
      } else if i >= |p| {
        assert all[i] == q[i - |p|] && all[j] == q[j - |p|];
      } else {
        assert all[i] in p && all[j] in q;
      }
    }
  }

  /** Every report in `row` is for `date` and for the category in its column. */
  predicate RowLabelled(row: seq<Option<Anomaly>>, date: string, watch: seq<string>)
  {
    |row| <= |watch| &&
    forall j :: 0 <= j < |row| && row[j].Some? ==> row[j].value.date == date && row[j].value.category == watch[j]
  }

  /** A labelled row reports its date only, in watch-list order. */
  lemma {:induction false} ReportedOrdered(row: seq<Option<Anomaly>>, date: string, watch: seq<string>)
    requires RowLabelled(row, date, watch) && Distinct(watch)
    ensures forall a :: a in Reported(row) ==> a.date == date && IndexOf(watch, a.category) < |row|
    ensures InScanOrder(watch, Reported(row))
  {
    if row != [] {
      var init := row[..|row| - 1];
      var k := |row| - 1;
      assert RowLabelled(init, date, watch) by {
        forall j | 0 <= j < |init| ensures init[j] == row[j] { }
      }
      ReportedOrdered(init, date, watch);
      var prev := Reported(init);
      var all := Reported(row);
      if row[k].Some? {
        assert IndexOf(watch, row[k].value.category) == k;
      }
      forall i, j | 0 <= i < j < |all|
        ensures Precedes(watch, all[i], all[j])
      {
        if j < |prev| {
          assert all[i] == prev[i] && all[j] == prev[j];
        } else {
          assert all[i] in prev;
        }
      }
    }
  }

  /** Row `i` of `grid` is labelled with `ds[i]`. */
  predicate GridLabelled(grid: seq<seq<Option<Anomaly>>>, ds: seq<string>, watch: seq<string>)
  {
    |grid| <= |ds| && forall i :: 0 <= i < |grid| ==> RowLabelled(grid[i], ds[i], watch)
  }

  /** A labelled grid reports only the dates of its rows. */
  lemma {:induction false} ReportedRowsDates(grid: seq<seq<Option<Anomaly>>>, ds: seq<string>, watch: seq<string>)
    requires GridLabelled(grid, ds, watch) && Distinct(watch)
    ensures forall a :: a in ReportedRows(grid) ==> a.date in ds[..|grid|]
  {
    if grid != [] {
      var n := |grid|;
      var init := grid[..n - 1];
      assert GridLabelled(init, ds, watch) by {
        forall i | 0 <= i < |init| ensures init[i] == grid[i] { }
      }
      ReportedRowsDates(init, ds, watch);
      ReportedOrdered(grid[n - 1], ds[n - 1], watch);
      forall a | a in ReportedRows(grid)
        ensures a.date in ds[..n]
      {
        if a in ReportedRows(init) {
          var m :| 0 <= m < n - 1 && ds[..n - 1][m] == a.date;
          assert ds[..n][m] == a.date;
        } else {
          assert ds[..n][n - 1] == a.date;
        }
      }
    }
  }

  /** Reports of earlier rows precede the reports of a later row. */
  lemma EarlierRowsFirst(prev: seq<Anomaly>, day: seq<Anomaly>, ds: seq<string>, n: nat, watch: seq<string>)
    requires 0 < n <= |ds| && StrictlyIncreasing(ds)
    requires forall a :: a in prev ==> a.date in ds[..n - 1]
    requires forall a :: a in day ==> a.date == ds[n - 1]
    ensures forall x, y :: x in prev && y in day ==> Precedes(watch, x, y)
  {
    forall x, y | x in prev && y in day
      ensures Precedes(watch, x, y)
    {
      var m :| 0 <= m < n - 1 && ds[..n - 1][m] == x.date;
      assert ds[m] == x.date;
    }
  }

  /** A labelled grid over increasing dates reports in scan order. */
  lemma {:induction false} ReportedRowsOrdered(grid: seq<seq<Option<Anomaly>>>, ds: seq<string>, watch: seq<string>)
    requires GridLabelled(grid, ds, watch) && StrictlyIncreasing(ds) && Distinct(watch)
    ensures InScanOrder(watch, ReportedRows(grid))
  {
    if grid != [] {
      var n := |grid|;
      var init := grid[..n - 1];
      assert GridLabelled(init, ds, watch) by {
        forall i | 0 <= i < |init| ensures init[i] == grid[i] { }
      }
      ReportedRowsOrdered(init, ds, watch);
      ReportedRowsDates(init, ds, watch);
      ReportedOrdered(grid[n - 1], ds[n - 1], watch);
      EarlierRowsFirst(ReportedRows(init), Reported(grid[n - 1]), ds, n, watch);
      ConcatInScanOrder(watch, ReportedRows(init), Reported(grid[n - 1]));
    }
  }

  /** Row `i`, column `j` of the verdicts is about the `i`-th recent date and the `j`-th category. */
  lemma VerdictsLabelled(t: Table, thresholdSigma: real, num: Numerics)
    ensures GridLabelled(Verdicts(t, thresholdSigma, num), RecentDates(t), ArrestCategories)
  {
    var recent := RecentDates(t);
    var grid := Verdicts(t, thresholdSigma, num);
    RecentWithinBaseline(t);
    forall i | 0 <= i < |grid|
      ensures RowLabelled(grid[i], recent[i], ArrestCategories)
    {
      forall j | 0 <= j < |grid[i]| && grid[i][j].Some?
        ensures grid[i][j].value.date == recent[i] && grid[i][j].value.category == ArrestCategories[j]
      {
        InspectSpec(t, thresholdSigma, num, recent[i], ArrestCategories[j]);
      }
    }
  }

  /** Reports that tie on z-score appear in scan order. */
  predicate TiesInScanOrder(watch: seq<string>, s: seq<Anomaly>)
  {
    forall i, j :: 0 <= i < j < |s| && s[i].zScore == s[j].zScore ==> Precedes(watch, s[i], s[j])
  }
  /** A head that precedes each of its ties keeps ties in scan order. */
  lemma ConsTieOrder(watch: seq<string>, h: Anomaly, rest: seq<Anomaly>)
    requires TiesInScanOrder(watch, rest)
    requires forall x :: x in rest && x.zScore == h.zScore ==> Precedes(watch, h, x)
    ensures TiesInScanOrder(watch, [h] + rest)
  {
    var r := [h] + rest;
    forall i, j | 0 <= i < j < |r| && r[i].zScore == r[j].zScore
      ensures Precedes(watch, r[i], r[j])
    {
      if i == 0 { assert r[j] in rest; } else { assert r[i] == rest[i - 1] && r[j] == rest[j - 1]; }
    }
  }

  /** The tail of a list with ties in scan order has its ties in scan order, and the head precedes its ties. */
  lemma TailTieOrder(watch: seq<string>, s: seq<Anomaly>)
    requires s != [] && TiesInScanOrder(watch, s)
    ensures TiesInScanOrder(watch, s[1..])
    ensures forall x :: x in s[1..] && x.zScore == s[0].zScore ==> Precedes(watch, s[0], x)
  {
    forall i, j | 0 <= i < j < |s[1..]| && s[1..][i].zScore == s[1..][j].zScore
      ensures Precedes(watch, s[1..][i], s[1..][j])
    {
      assert s[1..][i] == s[i + 1] && s[1..][j] == s[j + 1];
    }
    forall x | x in s[1..] && x.zScore == s[0].zScore
      ensures Precedes(watch, s[0], x)
    {
      var k :| 0 <= k < |s[1..]| && s[1..][k] == x;
      assert s[k + 1] == x;
    }
  }

  lemma {:induction false} InsertKeepsTieOrder(watch: seq<string>, a: Anomaly, s: seq<Anomaly>)
    requires TiesInScanOrder(watch, s)
    requires forall x :: x in s && x.zScore == a.zScore ==> Precedes(watch, a, x)
    ensures TiesInScanOrder(watch, InsertByZ(a, s))
  {
    if s == [] || s[0].zScore <= a.zScore {
      ConsTieOrder(watch, a, s);
    } else {
      TailTieOrder(watch, s);
      assert forall x :: x in s[1..] ==> x in s;
      InsertKeepsTieOrder(watch, a, s[1..]);
      InsertMembers(a, s[1..]);
      ConsTieOrder(watch, s[0], InsertByZ(a, s[1..]));
    }
  }

  lemma {:induction false} SortKeepsTieOrder(watch: seq<string>, s: seq<Anomaly>)
    requires TiesInScanOrder(watch, s)
    ensures TiesInScanOrder(watch, SortByZDesc(s))
  {
    if s != [] {
      var sorted := SortByZDesc(s[1..]);
      TailTieOrder(watch, s);
      SortKeepsTieOrder(watch, s[1..]);
      forall x | x in sorted && x.zScore == s[0].zScore
        ensures Precedes(watch, s[0], x)
      {
        assert x in multiset(sorted);
        assert x in s[1..] by { assert x in multiset(s[1..]); }
      }
      InsertKeepsTieOrder(watch, s[0], sorted);
    }
  }

  /** Before sorting, the reports are in scan order. */
  lemma CandidatesInScanOrder(t: Table, thresholdSigma: real, num: Numerics)
    ensures InScanOrder(ArrestCategories, Candidates(t, thresholdSigma, num))
  {
    if |t.Keys| >= MinHistory {
      WindowIncreasing(t, RecentDays);
      VerdictsLabelled(t, thresholdSigma, num);
      ReportedRowsOrdered(Verdicts(t, thresholdSigma, num), RecentDates(t), ArrestCategories);
    }
  }

  /**
   * The reports come out highest z-score first, and reports that tie on
   * z-score keep the scan order: earlier date first, then watch-list order.
   */
  lemma DetectedOrder(t: Table, thresholdSigma: real, num: Numerics)
    ensures DescendingZ(SortByZDesc(Candidates(t, thresholdSigma, num)))
    ensures TiesInScanOrder(ArrestCategories, SortByZDesc(Candidates(t, thresholdSigma, num)))
  {
    var c := Candidates(t, thresholdSigma, num);
    CandidatesInScanOrder(t, thresholdSigma, num);
    SortKeepsTieOrder(ArrestCategories, c);
  }

  /**
   * With the threshold the pipeline passes (2.0), a pair is flagged exactly
   * when its count is above the mean and the squared excess is more than
   * four times the sample variance of the baseline counts.
   */
  lemma DefaultThresholdTest(t: Table, num: Numerics, date: string, category: string)
    requires IsSquareRoot(num.sqrt)
    ensures Flagged(t, DefaultThreshold, num, date, category) <==>
              && |t.Keys| >= MinHistory && date in RecentDates(t) && category in ArrestCategories
              && var count := Get(t[date], category);
                 var xs := Samples(t, category, BaselineDays);
                 && count > 0 && |xs| >= 2 && SampleVariance(xs) > 0.0
                 && count as real > Mean(xs)
                 && (count as real - Mean(xs)) * (count as real - Mean(xs)) > 4.0 * SampleVariance(xs)
  {
    FlaggedWithoutRoot(t, DefaultThreshold, num, date, category);
    if |t.Keys| >= MinHistory && date in RecentDates(t) && category in ArrestCategories {
      var xs := Samples(t, category, BaselineDays);
      if |xs| >= 2 {
        ExcessAtDefault(Get(t[date], category), Mean(xs), SampleVariance(xs));
      }
    }
  }

  lemma ExcessAtDefault(count: nat, mean: real, variance: real)
    ensures ExcessAbove(count, mean, variance, DefaultThreshold) <==>
              count as real > mean && (count as real - mean) * (count as real - mean) > 4.0 * variance
  {
  }
}

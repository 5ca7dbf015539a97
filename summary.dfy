/**
 * The summary builder (`generate_summary`): the range of dates in the
 * table, the breakdown of the latest date, the ten strongest reports and a
 * two-valued alert status.
 *
 * `datetime.now().isoformat()` is a parameter. The table is a
 * `defaultdict`, so reading the row of the fallback date "Unknown" on an
 * empty table inserts an empty row; the builder therefore also returns the
 * table as it is afterwards.
 */
module Summary {
  import opened Wrappers
  import opened Dates
  import opened Aggregate
  import opened Anomalies

  /** How many reports the summary keeps. */
  const TopN: nat := 10
  /** The latest date of a table without dates. */
  const NoDate: string := "Unknown"
  const SurgeDetected: string := "SURGE DETECTED"
  const Normal: string := "NORMAL"

  /** `data_range`: the first and last date (the first is `None` without dates) and how many there are. */
  datatype DataRange = DataRange(start: Option<string>, end: string, totalDays: nat)

  /** `latest_day`: the latest date, its "TOTAL" and its whole row. */
  datatype LatestDay = LatestDay(date: string, totalIncidents: nat, byCategory: Row)

  /** The summary dictionary. */
  datatype Report = Report(
    lastUpdated: string,
    dataRange: DataRange,
    latestDay: LatestDay,
    currentAnomalies: seq<Anomaly>,
    alertStatus: string)

  /** The summary together with `daily_counts` as the builder leaves it. */
  datatype Summarised = Summarised(summary: Report, dailyCounts: Table)

  /** `daily_counts[key]` on a `defaultdict`: a missing key gets an empty row, which is stored. */
  function Access(t: Table, key: string): (r: (Row, Table))
    ensures key in r.1 && r.0 == r.1[key]
    ensures key in t ==> r.1 == t
    ensures key !in t ==> r.0 == map[] && r.1 == t[key := map[]]
  {
    if key in t then (t[key], t) else (map[], t[key := map[]])
  }

  /** `generate_summary(daily_counts, anomalies)`, with the clock reading as `now`. */
  function GenerateSummary(dailyCounts: Table, anomalies: seq<Anomaly>, now: string): (out: Summarised)
    ensures out.summary.lastUpdated == now
    ensures out.summary.dataRange.totalDays == |dailyCounts.Keys|
    ensures out.summary.dataRange.start.Some? <==> dailyCounts != map[]
    ensures out.summary.latestDay.date == out.summary.dataRange.end
    ensures |out.summary.currentAnomalies| <= TopN && |out.summary.currentAnomalies| <= |anomalies|
    ensures out.summary.currentAnomalies == anomalies[..|out.summary.currentAnomalies|]
    ensures out.summary.alertStatus == SurgeDetected <==> anomalies != []
  {
    var dates := SortedKeys(dailyCounts.Keys);
    var latestDate := if |dates| > 0 then dates[|dates| - 1] else NoDate;
    var (row, after) := Access(dailyCounts, latestDate);
    Summarised(
      Report(
        now,
        DataRange(if |dates| > 0 then Some(dates[0]) else None, latestDate, |dates|),
        LatestDay(latestDate, Get(row, TotalKey), row),
        PySliceTo(anomalies, TopN),
        if |anomalies| > 0 then SurgeDetected else Normal),
      after)
  }

  // ---------------------------------------------------------------------
  // Properties
  // ---------------------------------------------------------------------

  /** The alert is one of two values, "SURGE DETECTED" exactly when some report exists. */
  lemma AlertIffReports(dailyCounts: Table, anomalies: seq<Anomaly>, now: string)
    ensures var status := GenerateSummary(dailyCounts, anomalies, now).summary.alertStatus;
            (status == SurgeDetected <==> anomalies != []) &&
            (status == Normal <==> anomalies == [])
  {
  }

  /** The summary keeps the first min(10, n) reports, in their order. */
  lemma TopReports(dailyCounts: Table, anomalies: seq<Anomaly>, now: string)
    ensures var top := GenerateSummary(dailyCounts, anomalies, now).summary.currentAnomalies;
            |top| == (if |anomalies| <= TopN then |anomalies| else TopN) &&
            top == anomalies[..|top|]
  {
    FirstN(anomalies, TopN);
  }

  /**
   * On a table with dates, the range runs from the least date to the
   * greatest, counts every date, and the latest day is the greatest date
   * with its own row and "TOTAL"; the table is left as it was.
   */
  lemma RangeAndLatestDay(dailyCounts: Table, anomalies: seq<Anomaly>, now: string)
    requires dailyCounts != map[]
    ensures var out := GenerateSummary(dailyCounts, anomalies, now);
            var range := out.summary.dataRange;
            var latest := out.summary.latestDay;
            && range.start.Some?
            && range.start.value in dailyCounts
            && (forall d :: d in dailyCounts && d != range.start.value ==> Below(range.start.value, d))
            && range.end in dailyCounts
            && (forall d :: d in dailyCounts && d != range.end ==> Below(d, range.end))
            && range.totalDays == |dailyCounts.Keys|
            && latest.date == range.end
            && latest.byCategory == dailyCounts[range.end]
            && latest.totalIncidents == Get(dailyCounts[range.end], TotalKey)
            && out.dailyCounts == dailyCounts
  {
    var ks := dailyCounts.Keys;
    assert ks != {} by {
      var d :| d in dailyCounts;
    }
    SortedKeysEnds(ks);
  }

  /**
   * On an empty table, the range has no start and ends at "Unknown", the
   * latest day is "Unknown" with nothing counted, and the table gains an
   * empty "Unknown" row.
   */
  lemma EmptyTableSummary(dailyCounts: Table, anomalies: seq<Anomaly>, now: string)
    requires dailyCounts == map[]
    ensures var out := GenerateSummary(dailyCounts, anomalies, now);
            && out.summary.dataRange == DataRange(None, NoDate, 0)
            && out.summary.latestDay == LatestDay(NoDate, 0, map[])
            && out.dailyCounts == map[NoDate := map[]]
  {
    assert |SortedKeys(dailyCounts.Keys)| == 0;
  }

  /**
   * The builder changes the table only on an empty table, and then only by
   * the one "Unknown" row.
   */
  lemma TableChangesOnlyWhenEmpty(dailyCounts: Table, anomalies: seq<Anomaly>, now: string)
    ensures var after := GenerateSummary(dailyCounts, anomalies, now).dailyCounts;
            (after == dailyCounts <==> dailyCounts != map[]) &&
            (after != dailyCounts ==> after == map[NoDate := map[]])
  {
    if dailyCounts == map[] {
      EmptyTableSummary(dailyCounts, anomalies, now);
      assert NoDate in GenerateSummary(dailyCounts, anomalies, now).dailyCounts;
    } else {
      RangeAndLatestDay(dailyCounts, anomalies, now);
    }
  }

  /**
   * On an aggregated table where no record is filed under "TOTAL", the
   * latest day's incident total is the number of kept records on that date.
   */
  lemma LatestTotalCountsRecords(incidents: seq<Incident>, anomalies: seq<Anomaly>, now: string)
    requires NoReservedCategory(incidents)
    ensures var latest := GenerateSummary(DailyTable(incidents), anomalies, now).summary.latestDay;
            latest.totalIncidents == Tally(incidents, Day(latest.date))
  {
    var t := DailyTable(incidents);
    var latest := GenerateSummary(t, anomalies, now).summary.latestDay;
    TotalCountsRecords(incidents, latest.date);
    if t == map[] {
      EmptyTableSummary(t, anomalies, now);
    } else {
      RangeAndLatestDay(t, anomalies, now);
    }
  }

  /**
   * In the pipeline, where the reports are those of `detect_anomalies` on the
   * same table, a surge alert means the table had at least 100 dates, and
   * every report shown is for a flagged pair and carries its figures.
   */
  lemma SurgeOnlyFromFlaggedPairs(dailyCounts: Table, thresholdSigma: real, num: Numerics, now: string)
    ensures var anomalies := SortByZDesc(Candidates(dailyCounts, thresholdSigma, num));
            var summary := GenerateSummary(dailyCounts, anomalies, now).summary;
            && (summary.alertStatus == SurgeDetected ==> |dailyCounts.Keys| >= MinHistory)
            && forall a :: a in summary.currentAnomalies ==>
                 Flagged(dailyCounts, thresholdSigma, num, a.date, a.category) && ReportOf(dailyCounts, num, a)
  {
    var anomalies := SortByZDesc(Candidates(dailyCounts, thresholdSigma, num));
    var top := GenerateSummary(dailyCounts, anomalies, now).summary.currentAnomalies;
    TopReports(dailyCounts, anomalies, now);
    forall a | a in top
      ensures Flagged(dailyCounts, thresholdSigma, num, a.date, a.category) && ReportOf(dailyCounts, num, a)
    {
      var k :| 0 <= k < |top| && top[k] == a;
      assert anomalies[k] == a;
      DetectedIffFlagged(dailyCounts, thresholdSigma, num, a);
    }
    if |dailyCounts.Keys| < MinHistory {
      assert Candidates(dailyCounts, thresholdSigma, num) == [];
    }
  }
}

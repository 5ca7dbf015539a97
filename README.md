# Crackdown radar: daily incident counts and surge detection

This project models the data core of `fetch_data.py` and proves properties of the model. The script turns police incident records into a table of daily counts per category. It estimates each watched category's recent baseline, flags the days of the last week that surge above that baseline, and builds a summary document.

The modules follow the script's functions.

- `Dates`
  - Python's `str` order: lexicographic by code point, which is chronological on `YYYY-MM-DD` keys.
  - `sorted(keys)`, specified as the unique strictly increasing sequence of the key set.
  - Python slicing `s[i:]` and `s[:j]` with negative and clamped indices.
- `Aggregate` covers `aggregate_daily`.
  - A record is normalised to a (date, category) pair or dropped.
  - The loop is a method over `map<string, map<string, nat>>`. It is proved equal to a declarative table: one row per date, one count per category, plus `"TOTAL"`.
- `Baseline` covers `calculate_baseline`.
  - The window is the last `days` sorted dates, with 0 for a category absent on a date.
  - The mean and the sample variance are computed exactly over `real`.
- `Anomalies` covers `ARREST_CATEGORIES` and `detect_anomalies`.
  - The 100-date gate.
  - The scan of the last 7 dates × the watch list, as nested loops.
  - The z-test.
  - The stable sort by descending z-score.
- `Summary` covers `generate_summary`, including the `defaultdict` row it inserts on an empty table.

Two numeric primitives are parameters: the square root inside `statistics.stdev` and Python's `round(x, n)`. Dafny's reals have no square root, so lemmas that need one assume that the parameter returns the non-negative root of every non-negative number (`Baseline.IsSquareRoot`). Rounding is left uninterpreted. Sorting therefore uses the stored, rounded z-score, as the script does.

Three behaviours of the script shape the model:

- A record with no `incident_category` key is counted under `"Unknown"`. Only a category that is present but null or empty drops a record.
- The table is not immutable after aggregation. On an empty table, `generate_summary` reads `daily_counts["Unknown"]` from the `defaultdict`, and that read inserts an empty row.
- `"TOTAL"` equals the sum of the other counts only when no record's own category is the string `"TOTAL"`. Such a record is counted twice in `"TOTAL"`. The invariant is proved under that proviso (`Aggregate.NoReservedCategory`).

## Model

| member | source | states |
|---|---|---|
| Aggregate.DatePart | fetch_data.py:57 | the date is the longest prefix before the first `'T'`: it contains no `'T'`, and the character after it, if any, is `'T'` |
| Aggregate.NormalizeSpec | fetch_data.py:57-60 | a record is kept as (d, c) exactly when d is the non-empty text before the first `'T'` of its date (absent date = `''`); c is `"Unknown"` if the category key is missing, otherwise the non-empty category text; a null or empty category drops the record |
| Aggregate.TimestampKeepsDate | fetch_data.py:57 | `"2024-01-05T10:30:00"` is counted under `"2024-01-05"` |
| Aggregate.AggregateDaily | fetch_data.py:52-64 | the loop's table equals the declarative table: a row for each date with a kept record, each category's count of kept records, and `"TOTAL"` |
| Aggregate.ReplayIsDailyTable | fetch_data.py:56-62 | bumping the category and `"TOTAL"` record by record, creating missing entries at 0, builds exactly the declarative table |
| Aggregate.DateSetIff | fetch_data.py:60-61 | a date is a key of the table exactly when some kept record falls on it |
| Aggregate.CategorySetIff | fetch_data.py:61-62 | a category is in a date's row exactly when it is `"TOTAL"` or some kept record has that date and category |
| Aggregate.AggregateOrderIndependent | fetch_data.py:56-62 | two record lists that are permutations of each other give the same table |
| Aggregate.DailyTablePositive | fetch_data.py:61-62 | every count in the table is at least 1 |
| Aggregate.DailyTableTotals | fetch_data.py:61-62 | if no record is filed under `"TOTAL"`, every row has `"TOTAL"` and it equals the sum of the row's other counts |
| Aggregate.TotalCountsRecords | fetch_data.py:60-62 | under the same proviso, a date's `"TOTAL"` is the number of kept records on it, and a date is absent exactly when no kept record falls on it |
| Dates.SortedKeys | fetch_data.py:68 | `sorted(keys)` is strictly increasing in string order, has one entry per key and holds exactly the keys |
| Dates.SortedKeysEnds | fetch_data.py:118-126 | the first sorted key is below every other key and the last is above every other key |
| Dates.PySliceFrom | fetch_data.py:68 | `s[i:]` has the length Python gives for negative, positive and out-of-range `i` |
| Dates.LastK | fetch_data.py:68 | `s[-k:]` keeps the last min(k, \|s\|) elements for k > 0, and all of them for k = 0 |
| Dates.FirstN | fetch_data.py:133 | `s[:n]` keeps the first min(n, \|s\|) elements |
| Baseline.WindowDates | fetch_data.py:68 | every date of the window is a key of the table |
| Baseline.WindowIncreasing | fetch_data.py:68 | the window's dates are in ascending order, each once |
| Baseline.WindowIsTrailing | fetch_data.py:68 | the window is exactly the last min(days, #dates) sorted dates for days > 0, and all dates for days = 0 |
| Baseline.Samples | fetch_data.py:69 | one sample per window date: the category's count there, 0 if absent |
| Baseline.CalculateBaseline | fetch_data.py:66-77 | (0, 0) on an empty window; otherwise the mean of the samples; stdev 0 with one sample, the root of the sample variance with two or more; the mean is never negative |
| Baseline.EmptyTableBaseline | fetch_data.py:71-72 | an empty table gives (0, 0) for every category and window |
| Baseline.VarianceZeroIffConstant | fetch_data.py:75 | the sample variance is non-negative, and zero exactly when all samples are equal |
| Baseline.StdevPositiveIffSpread | fetch_data.py:75 | with two or more samples, a true square root of the variance is positive exactly when some sample differs from the first |
| Baseline.ConstantCountsZeroStdev | fetch_data.py:74-75 | a category with the same count on every window date has stdev 0 |
| Baseline.BaselineStdevPositiveIff | fetch_data.py:66-77 | the baseline stdev is non-negative, and positive exactly when two window dates have different counts |
| Baseline.SpreadMeansPositiveMean | fetch_data.py:74-75 | a positive baseline stdev forces a positive baseline mean |
| Baseline.MeanBounds | fetch_data.py:74 | the mean lies between the smallest and the largest sample |
| Anomalies.RecentWithinBaseline | fetch_data.py:89-99 | each of the last 7 dates is among the last 90, so the baseline always covers the day under test |
| Anomalies.BaselineMeanPositive | fetch_data.py:101-111 | a positive count on a date in the baseline window makes the baseline mean positive, so the `percent_above` division never divides by zero |
| Anomalies.SortByZDesc | fetch_data.py:114 | the sorted reports are a permutation of the input, in non-increasing z-score |
| Anomalies.ScanCategories | fetch_data.py:94-112 | the inner loop appends, in watch-list order, exactly the reports of the per-category verdicts for the date |
| Anomalies.ScanRecentDates | fetch_data.py:89-112 | the outer loop appends, date by date over the last 7 dates, exactly the reports of each date's verdicts |
| Anomalies.DetectAnomalies | fetch_data.py:79-114 | the result is the appended reports of the last 7 dates in order, sorted by descending z-score; fewer than 100 dates give the empty list |
| Anomalies.InspectSpec | fetch_data.py:95-112 | one (date, category) is reported exactly when its count is positive, the baseline stdev is positive and the z-score exceeds the threshold; the report holds the count and the rounded mean, z-score and percentage, and the mean is then positive |
| Anomalies.ReportedMembers | fetch_data.py:94-112 | the inner loop reports exactly the pairs whose verdict is a report |
| Anomalies.ReportedRowsMembers | fetch_data.py:91-112 | the nested loops report exactly the reports in the grid of verdicts |
| Anomalies.CandidateFlagged | fetch_data.py:83-112 | every appended report is for a flagged pair and carries its figures |
| Anomalies.FlaggedCandidate | fetch_data.py:83-112 | every flagged pair's report is appended |
| Anomalies.DetectedIffFlagged | fetch_data.py:79-114 | a report is in the result exactly when its pair is flagged and its fields are that pair's figures. A pair is flagged when the table has at least 100 dates, the date is among the last 7, the category is watched, the count is positive, the stdev is positive and z > threshold |
| Anomalies.PairReportedIffFlagged | fetch_data.py:79-114 | a (date, category) appears in the result exactly when it is flagged |
| Anomalies.ZScoreAbove | fetch_data.py:102-104 | with a positive stdev, z > threshold exactly when count − mean > threshold · stdev |
| Anomalies.ZScoreWithoutRoot | fetch_data.py:101-104 | for a threshold ≥ 0 and a true square root, z > threshold exactly when count > mean and (count − mean)² > threshold² · variance |
| Anomalies.ZTestWithoutRoot | fetch_data.py:101-104 | the same, with the `stdev > 0` guard turned into variance > 0 |
| Anomalies.FlaggedWithoutRoot | fetch_data.py:89-104 | for a threshold ≥ 0 and a true square root, the flag condition equals the root-free condition on the sample variance |
| Anomalies.ReportedOrdered | fetch_data.py:94-112 | one date's reports are for that date, at watch-list positions below the row length, and in strictly increasing watch-list position |
| Anomalies.ReportedRowsDates | fetch_data.py:91-112 | the reports of the first rows of the grid are for the dates of those rows |
| Anomalies.ReportedRowsOrdered | fetch_data.py:91-112 | over increasing dates, the reports come in scan order: earlier date first, then watch-list order |
| Anomalies.CandidatesInScanOrder | fetch_data.py:89-112 | before sorting, the appended reports are in scan order |
| Anomalies.VerdictsLabelled | fetch_data.py:91-112 | the verdict in row i, column j is about the i-th recent date and the j-th watched category |
| Anomalies.InsertKeepsDescending | fetch_data.py:114 | inserting into a descending list by z-score keeps it descending |
| Anomalies.InsertKeepsTieOrder | fetch_data.py:114 | inserting an element ahead of its ties keeps ties in scan order |
| Anomalies.SortKeepsTieOrder | fetch_data.py:114 | if the input's equal-z reports are in scan order (earlier date, then earlier watch-list position), so are the output's; the detector's candidates are strictly in scan order (`Anomalies.CandidatesInScanOrder`), so on them ties keep their input order |
| Anomalies.DetectedOrder | fetch_data.py:91-114 | the result is in descending z-score, and reports that tie keep scan order (earlier date first, then watch-list order) |
| Summary.Access | fetch_data.py:130-131 | reading a `defaultdict` row: an existing row leaves the table unchanged, a missing one is stored empty |
| Summary.AlertIffReports | fetch_data.py:134 | the alert is `"SURGE DETECTED"` exactly when there is a report and `"NORMAL"` exactly when there is none |
| Summary.TopReports | fetch_data.py:133 | the summary holds the first min(10, n) reports, in order |
| Summary.RangeAndLatestDay | fetch_data.py:118-131 | on a table with dates: start is the least date, end the greatest, total_days the number of dates; the latest day is the greatest date with its own row and `"TOTAL"`; the table is unchanged |
| Summary.EmptyTableSummary | fetch_data.py:118-131 | on an empty table: no start, end `"Unknown"`, 0 days, latest day `"Unknown"` with total 0 and an empty breakdown, and the table gains an empty `"Unknown"` row |
| Summary.TableChangesOnlyWhenEmpty | fetch_data.py:130 | the summary changes the table exactly when it is empty, and then only by the `"Unknown"` row |
| Summary.LatestTotalCountsRecords | fetch_data.py:128-130 | on an aggregated table where no record is filed under `"TOTAL"`, the latest day's total is the number of kept records on that date |
| Summary.SurgeOnlyFromFlaggedPairs | fetch_data.py:83-134 | fed with the detector's output, a surge alert implies at least 100 dates, and every shown report is for a flagged pair with its figures |
| Aggregate.Normalize | fetch_data.py:57-60 | a kept pair has a non-empty date and category, its date is the prefix of the record's date before the first `'T'`, and a null category drops the record; `Aggregate.NormalizeSpec` gives the exact condition |
| Baseline.Mean | fetch_data.py:74 | the mean is non-negative and times the number of samples gives their sum |
| Baseline.SampleVariance | fetch_data.py:75 | `statistics.variance`: the squared deviations from the mean summed and divided by n − 1, never negative; `Baseline.VarianceZeroIffConstant` shows it is 0 exactly when all samples are equal, and `Baseline.VarianceOfPair` checks the divisor |
| Baseline.VarianceOfPair | fetch_data.py:75 | for two samples a and b, twice the variance is (a − b)², the value Bessel's n − 1 divisor gives |
| Dates.BelowTransitive | fetch_data.py:68 | the string order that `sorted` uses is transitive |
| Dates.BelowTotal | fetch_data.py:68 | any two different strings are ordered one way or the other |
| Anomalies.ZScore | fetch_data.py:102 | the z-score times the standard deviation is the count's excess over the mean |
| Anomalies.PercentAbove | fetch_data.py:111 | the percentage times the mean is 100 times the count's excess over the mean |
| Anomalies.Inspect | fetch_data.py:95-112 | a date/category pair with count 0, or with a standard deviation that is not positive, gives no report; a report carries the pair and its positive count; `Anomalies.InspectSpec` gives the full condition and figures |
| Anomalies.Candidates | fetch_data.py:83-112 | fewer than 100 dates give no reports; `Anomalies.CandidateFlagged` and `Anomalies.FlaggedCandidate` show the reports are exactly the flagged pairs, in scan order (`Anomalies.CandidatesInScanOrder`) |
| Anomalies.WatchListDistinct | fetch_data.py:17-28 | the watch list has ten categories, all different, and contains neither `"TOTAL"` nor `"Unknown"` |
| Anomalies.DefaultThresholdTest | fetch_data.py:79 | on a table with at least 100 dates, for one of the last 7 dates and a watched category, with the default threshold 2.0 a pair is flagged exactly when its count is positive and above the baseline mean, the baseline has two or more samples with positive variance, and the squared excess is more than 4 times the variance |
| Summary.GenerateSummary | fetch_data.py:116-137 | the summary carries `now`, counts every date, has a start date exactly when the table is non-empty, reports the latest date as the range's end, keeps a prefix of at most 10 reports, and raises the alert exactly when a report exists; `Summary.TopReports`, `Summary.RangeAndLatestDay` and `Summary.EmptyTableSummary` give the exact values |

## Left out

- `fetch_incidents` (fetch_data.py:30-50) is an HTTP request to a remote API. The model starts from the list of records it returns.
- `main` (fetch_data.py:139-175) only orchestrates, prints and writes JSON files; no lemma composes all three stages. `Summary.SurgeOnlyFromFlaggedPairs` composes detection with the summary, and `Summary.LatestTotalCountsRecords` composes aggregation with the summary. `main` writes `daily_counts` after `generate_summary` has run (fetch_data.py:153-157), so on input without dates the written table holds the empty `"Unknown"` row; that is the table `Summary.Summarised.dailyCounts` returns (`Summary.EmptyTableSummary`).
- `datetime.now().isoformat()` (fetch_data.py:122) reads the clock. It is the parameter `now`.
- `math.sqrt` inside `statistics.stdev` is the parameter `root` (in `Anomalies.Numerics`, `sqrt`). Lemmas that depend on it assume it is a true square root. Floating-point rounding error is not modelled, and all arithmetic is exact.
- `round(x, n)` is the uninterpreted parameter `round`. The model does not fix its rounding mode, so nothing is proved about the stored values beyond their being the rounded exact ones.
- Anomalies.SortByZDesc: defined as an insertion sort that places each report before the later reports it ties with, not Python's Timsort. Stability over arbitrary input positions is not proved; what is proved (`Anomalies.SortKeepsTieOrder`) is that ties already in scan order stay in scan order, which covers every list the detector sorts, since its candidates are strictly in scan order. On those lists the result is therefore the one Python's stable `sorted` gives.
- Records are modelled with an optional string date and a missing, null or text category. Other JSON values are not represented:
  - an `incident_date` that is `null` or any non-string raises, because it has no `split` method;
  - an `incident_category` that is `0`, `0.0`, `false`, `[]` or `{}` is falsy, so line 60 drops the record;
  - any other number, or `true`, becomes a row key beside the strings;
  - a non-empty list or object raises, because it cannot be a dictionary key.
- The message printed by the under-100 gate (fetch_data.py:85) is output only. The model keeps the empty result and not the message.
- `statistics.mean` and `statistics.variance` compute exactly with fractions and convert the result to a number, which is a float unless it is whole. The model keeps the exact rational value.
- Aggregate.DailyTableTotals: requires that no record is filed under the category `"TOTAL"`. Without that, such a record adds 2 to `"TOTAL"` and the sum invariant fails.

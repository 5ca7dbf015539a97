/**
 * Record normalisation and the daily aggregator (`aggregate_daily`).
 *
 * The aggregator turns raw incident records into a table
 * date -> category -> count, with a synthetic "TOTAL" entry per date.
 * `DailyTable` states declaratively what the table holds (counts of the
 * normalised records); `AggregateDaily` is the source's loop, proved to
 * build exactly that table.
 */
module Aggregate {
  import opened Wrappers

  /** A JSON field: absent from the record, present as `null`, or a string. */
  datatype Field = Missing | Null | Text(text: string)

  /** The two fields of an incident record the aggregator reads. */
  datatype Incident = Incident(incidentDate: Option<string>, incidentCategory: Field)

  /** Category name -> count, for one date. */
  type Row = map<string, nat>

  /** Date -> row: the `daily_counts` structure. */
  type Table = map<string, Row>

  const TotalKey: string := "TOTAL"
  const UnknownCategory: string := "Unknown"

  /** `row.get(key, 0)`. */
  function Get(row: Row, key: string): nat
  {
    if key in row then row[key] else 0
  }

  // ---------------------------------------------------------------------
  // Record normaliser
  // ---------------------------------------------------------------------

  /** `s.split('T')[0]`: the text before the first 'T' (all of `s` if it has none). */
  function DatePart(s: string): (r: string)
    ensures r <= s
    ensures 'T' !in r
    ensures |r| < |s| ==> s[|r|] == 'T'
  {
    if s == [] then []
    else if s[0] == 'T' then []
    else [s[0]] + DatePart(s[1..])
  }

  /** `d` is the part of `s` before its first 'T'. */
  predicate IsDatePrefix(d: string, s: string)
  {
    d <= s && 'T' !in d && (|d| < |s| ==> s[|d|] == 'T')
  }

  /** The category as read by `incident.get('incident_category', 'Unknown')`. */
  function CategoryOf(f: Field): Option<string>
  {
    match f
    case Missing => Some(UnknownCategory)
    case Null => None
    case Text(s) => Some(s)
  }

  /**
   * The (date, category) pair a record is counted under, or None when
   * `if date and category` rejects it.
   */
  function Normalize(r: Incident): (p: Option<(string, string)>)
    ensures p.Some? ==> p.value.0 != "" && p.value.1 != ""
    ensures p.Some? ==> IsDatePrefix(p.value.0, r.incidentDate.GetOr(""))
    ensures r.incidentCategory.Null? ==> p == None
  {
    var date := DatePart(r.incidentDate.GetOr(""));
    var category := CategoryOf(r.incidentCategory);
    if date != "" && category.Some? && category.value != "" then Some((date, category.value))
    else None
  }

  /**
   * Normalisation rules: a record is kept exactly when the text before the
   * first 'T' of its date is non-empty and its category is missing (then it
   * is "Unknown") or a non-empty string.
   */
  lemma NormalizeSpec(r: Incident, d: string, c: string)
    ensures Normalize(r) == Some((d, c)) <==>
      && d != ""
      && IsDatePrefix(d, r.incidentDate.GetOr(""))
      && (r.incidentCategory.Missing? ==> c == UnknownCategory)
      && (r.incidentCategory.Null? ==> false)
      && (r.incidentCategory.Text? ==> c == r.incidentCategory.text && c != "")
  {
    var s := r.incidentDate.GetOr("");
    var p := DatePart(s);
    if IsDatePrefix(d, s) {
      assert forall i :: 0 <= i < |p| ==> s[i] == p[i] != 'T';
      assert forall i :: 0 <= i < |d| ==> s[i] == d[i] != 'T';
      assert |d| == |p|;
      assert d == s[..|d|] == p;
    }
  }

  /** A full timestamp is counted under its date. */
  lemma TimestampKeepsDate()
    ensures Normalize(Incident(Some("2024-01-05T10:30:00"), Text("Assault"))) == Some(("2024-01-05", "Assault"))
  {
    var s := "2024-01-05T10:30:00";
    assert s == "2024-01-05" + s[10..] && s[10] == 'T';
    assert IsDatePrefix("2024-01-05", s);
    NormalizeSpec(Incident(Some(s), Text("Assault")), "2024-01-05", "Assault");
  }

  // ---------------------------------------------------------------------
  // What the table holds, stated by counting records
  // ---------------------------------------------------------------------

  /** What to count: records of one (date, category), or all records of one date. */
  datatype Query = Pair(date: string, category: string) | Day(date: string)

  predicate Hits(r: Incident, q: Query)
  {
    var p := Normalize(r);
    p.Some? && p.value.0 == q.date && (q.Pair? ==> p.value.1 == q.category)
  }

  /** The number of records that hit `q`. */
  function Tally(rs: seq<Incident>, q: Query): nat
    decreases |rs|
  {
    if rs == [] then 0
    else Tally(rs[..|rs| - 1], q) + (if Hits(rs[|rs| - 1], q) then 1 else 0)
  }

  /** The dates that some kept record falls on. */
  function DateSet(rs: seq<Incident>): set<string>
  {
    set i | 0 <= i < |rs| && Normalize(rs[i]).Some? :: Normalize(rs[i]).value.0
  }

  /** The keys of date `d`'s row: "TOTAL" and the categories of its records. */
  function CategorySet(rs: seq<Incident>, d: string): set<string>
  {
    {TotalKey} + set i | 0 <= i < |rs| && Hits(rs[i], Day(d)) :: Normalize(rs[i]).value.1
  }

  /** One cell: its category's records, plus every record of the date for "TOTAL". */
  function Cell(rs: seq<Incident>, d: string, c: string): nat
  {
    Tally(rs, Pair(d, c)) + (if c == TotalKey then Tally(rs, Day(d)) else 0)
  }

  function DailyRow(rs: seq<Incident>, d: string): Row
  {
    map c | c in CategorySet(rs, d) :: Cell(rs, d, c)
  }

  /** The table `aggregate_daily` must produce from `rs`. */
  function DailyTable(rs: seq<Incident>): Table
  {
    map d | d in DateSet(rs) :: DailyRow(rs, d)
  }

  lemma {:induction false} TallyConcat(a: seq<Incident>, b: seq<Incident>, q: Query)
    ensures Tally(a + b, q) == Tally(a, q) + Tally(b, q)
    decreases |b|
  {
    if b == [] {
      assert a + b == a;
    } else {
      assert (a + b)[..|a + b| - 1] == a + b[..|b| - 1];
      TallyConcat(a, b[..|b| - 1], q);
    }
  }

  lemma {:induction false} TallyPositive(rs: seq<Incident>, q: Query)
    ensures Tally(rs, q) > 0 <==> exists i :: 0 <= i < |rs| && Hits(rs[i], q)
    decreases |rs|
  {
    if rs != [] {
      var init := rs[..|rs| - 1];
      TallyPositive(init, q);
      if exists i :: 0 <= i < |rs| && Hits(rs[i], q) {
        var i :| 0 <= i < |rs| && Hits(rs[i], q);
        if i < |rs| - 1 { assert init[i] == rs[i]; }
      }
      if exists i :: 0 <= i < |init| && Hits(init[i], q) {
        var i :| 0 <= i < |init| && Hits(init[i], q);
        assert rs[i] == init[i];
      }
    }
  }

  lemma {:induction false} PairWithinDay(rs: seq<Incident>, d: string, c: string)
    ensures Tally(rs, Pair(d, c)) <= Tally(rs, Day(d))
    decreases |rs|
  {
    if rs != [] { PairWithinDay(rs[..|rs| - 1], d, c); }
  }

  /** A date is a key exactly when some kept record falls on it. */
  lemma DateSetIff(rs: seq<Incident>, d: string)
    ensures d in DateSet(rs) <==> Tally(rs, Day(d)) > 0
  {
    TallyPositive(rs, Day(d));
    if Tally(rs, Day(d)) > 0 {
      var i :| 0 <= i < |rs| && Hits(rs[i], Day(d));
      assert Normalize(rs[i]).value.0 == d;
    }
  }

  /** A category is a key of a date's row exactly when it is "TOTAL" or some record has it. */
  lemma CategorySetIff(rs: seq<Incident>, d: string, c: string)
    ensures c in CategorySet(rs, d) <==> c == TotalKey || Tally(rs, Pair(d, c)) > 0
  {
    TallyPositive(rs, Pair(d, c));
    if Tally(rs, Pair(d, c)) > 0 {
      var i :| 0 <= i < |rs| && Hits(rs[i], Pair(d, c));
      assert Hits(rs[i], Day(d)) && Normalize(rs[i]).value.1 == c;
    }
  }

  /** The table depends on the records only through the tallies. */
  lemma SameTalliesSameTable(rs1: seq<Incident>, rs2: seq<Incident>)
    requires forall q :: Tally(rs1, q) == Tally(rs2, q)
    ensures DailyTable(rs1) == DailyTable(rs2)
  {
    SameTalliesSameDates(rs1, rs2);
    forall d
      ensures DailyRow(rs1, d) == DailyRow(rs2, d)
    {
      SameTalliesSameRow(rs1, rs2, d);
    }
  }

  lemma SameTalliesSameDates(rs1: seq<Incident>, rs2: seq<Incident>)
    requires forall q :: Tally(rs1, q) == Tally(rs2, q)
    ensures DateSet(rs1) == DateSet(rs2)
  {
    forall d
      ensures d in DateSet(rs1) <==> d in DateSet(rs2)
    {
      DateSetIff(rs1, d);
      DateSetIff(rs2, d);
    }
  }

  lemma SameTalliesSameRow(rs1: seq<Incident>, rs2: seq<Incident>, d: string)
    requires forall q :: Tally(rs1, q) == Tally(rs2, q)
    ensures DailyRow(rs1, d) == DailyRow(rs2, d)
  {
    forall c
      ensures c in CategorySet(rs1, d) <==> c in CategorySet(rs2, d)
    {
      CategorySetIff(rs1, d, c);
      CategorySetIff(rs2, d, c);
    }
    assert CategorySet(rs1, d) == CategorySet(rs2, d);
  }

  // ---------------------------------------------------------------------
  // One step of the aggregation loop
  // ---------------------------------------------------------------------

  /** `row[c] += 1; row['TOTAL'] += 1`, with absent entries read as 0. */
  function BumpRow(row: Row, c: string): Row
  {
    var row1 := row[c := Get(row, c) + 1];
    row1[TotalKey := Get(row1, TotalKey) + 1]
  }

  /** Counting one kept record (d, c) into the table. */
  function Bump(t: Table, d: string, c: string): Table
  {
    t[d := BumpRow(if d in t then t[d] else map[], c)]
  }

  lemma TallyStep(rs: seq<Incident>, r: Incident, q: Query)
    ensures Tally(rs + [r], q) == Tally(rs, q) + (if Hits(r, q) then 1 else 0)
  {
    assert (rs + [r])[..|rs|] == rs;
  }

  lemma RowStep(rs: seq<Incident>, r: Incident, d: string, c: string)
    requires Normalize(r) == Some((d, c))
    ensures DailyRow(rs + [r], d) == BumpRow(if d in DateSet(rs) then DailyRow(rs, d) else map[], c)
  {
    var rs' := rs + [r];
    var before := if d in DateSet(rs) then DailyRow(rs, d) else map[];
    var want := BumpRow(before, c);
    DateSetIff(rs, d);
    TallyStep(rs, r, Day(d));
    forall c'
      ensures c' in want <==> c' in DailyRow(rs', d)
      ensures c' in want ==> want[c'] == DailyRow(rs', d)[c']
    {
      TallyStep(rs, r, Pair(d, c'));
      CategorySetIff(rs, d, c');
      CategorySetIff(rs', d, c');
      PairWithinDay(rs, d, c');
      assert Get(before, c') == Cell(rs, d, c');
    }
    assert want.Keys == DailyRow(rs', d).Keys;
  }

  /** A dropped record leaves the table as it was. */
  lemma DailyTableStepDrop(rs: seq<Incident>, r: Incident)
    requires Normalize(r) == None
    ensures DailyTable(rs + [r]) == DailyTable(rs)
  {
    forall q
      ensures Tally(rs + [r], q) == Tally(rs, q)
    {
      TallyStep(rs, r, q);
    }
    SameTalliesSameTable(rs + [r], rs);
  }

  /** A kept record (d, c) changes the table exactly as one loop iteration does. */
  lemma DailyTableStepKeep(rs: seq<Incident>, r: Incident, d: string, c: string)
    requires Normalize(r) == Some((d, c))
    ensures DailyTable(rs + [r]) == Bump(DailyTable(rs), d, c)
  {
    var rs' := rs + [r];
    var want := Bump(DailyTable(rs), d, c);
    StepKeepDates(rs, r, d, c);
    RowStep(rs, r, d, c);
    forall d' | d' in want
      ensures d' in DailyTable(rs') && DailyTable(rs')[d'] == want[d']
    {
      if d' != d {
        StepKeepOtherRow(rs, r, d, c, d');
      }
    }
    assert DailyTable(rs').Keys == want.Keys;
  }

  /** A kept record on date `d` adds `d` to the dates and no other. */
  lemma StepKeepDates(rs: seq<Incident>, r: Incident, d: string, c: string)
    requires Normalize(r) == Some((d, c))
    ensures DateSet(rs + [r]) == DateSet(rs) + {d}
  {
    forall d'
      ensures d' in DateSet(rs + [r]) <==> d' in DateSet(rs) || d' == d
    {
      TallyStep(rs, r, Day(d'));
      DateSetIff(rs, d');
      DateSetIff(rs + [r], d');
    }
  }

  /** A kept record on date `d` leaves the row of every other date alone. */
  lemma StepKeepOtherRow(rs: seq<Incident>, r: Incident, d: string, c: string, d': string)
    requires Normalize(r) == Some((d, c)) && d' != d
    ensures DailyRow(rs + [r], d') == DailyRow(rs, d')
  {
    var rs' := rs + [r];
    forall c'
      ensures c' in CategorySet(rs', d') <==> c' in CategorySet(rs, d')
      ensures Cell(rs', d', c') == Cell(rs, d', c')
    {
      TallyStep(rs, r, Pair(d', c'));
      TallyStep(rs, r, Day(d'));
      CategorySetIff(rs, d', c');
      CategorySetIff(rs', d', c');
    }
    assert CategorySet(rs', d') == CategorySet(rs, d');
  }

  // ---------------------------------------------------------------------
  // aggregate_daily
  // ---------------------------------------------------------------------

  /** The records counted one after another, as the loop does. */
  function Replay(rs: seq<Incident>): Table
    decreases |rs|
  {
    if rs == [] then map[]
    else
      var t := Replay(rs[..|rs| - 1]);
      match Normalize(rs[|rs| - 1])
      case None => t
      case Some((d, c)) => Bump(t, d, c)
  }

  /** Counting the records one by one builds the declared table. */
  lemma {:induction false} ReplayIsDailyTable(rs: seq<Incident>)
    ensures Replay(rs) == DailyTable(rs)
    decreases |rs|
  {
    if rs == [] {
      assert DateSet(rs) == {};
    } else {
      var init := rs[..|rs| - 1];
      var r := rs[|rs| - 1];
      assert rs == init + [r];
      ReplayIsDailyTable(init);
      match Normalize(r)
      case None =>
        DailyTableStepDrop(init, r);
      case Some((d, c)) =>
        DailyTableStepKeep(init, r, d, c);
    }
  }

  /**
   * The source's loop: each kept record bumps its category and "TOTAL" on
   * its date, creating the row and the entries on first use.
   */
  method AggregateDaily(incidents: seq<Incident>) returns (dailyCounts: Table)
    ensures dailyCounts == DailyTable(incidents)
  {
    dailyCounts := map[];
    for i := 0 to |incidents|
      invariant dailyCounts == Replay(incidents[..i])
    {
      assert incidents[..i + 1][..i] == incidents[..i];
      var kept := Normalize(incidents[i]);
      if kept.Some? {
        var date, category := kept.value.0, kept.value.1;
        var row := if date in dailyCounts then dailyCounts[date] else map[];
        row := row[category := Get(row, category) + 1];
        row := row[TotalKey := Get(row, TotalKey) + 1];
        dailyCounts := dailyCounts[date := row];
      }
    }
    assert incidents[..|incidents|] == incidents;
    ReplayIsDailyTable(incidents);
  }

  // ---------------------------------------------------------------------
  // Properties of the aggregated table
  // ---------------------------------------------------------------------

  /** Permuting the input records gives the same table. */
  lemma {:induction false} TallyPermutation(rs1: seq<Incident>, rs2: seq<Incident>, q: Query)
    requires multiset(rs1) == multiset(rs2)
    ensures Tally(rs1, q) == Tally(rs2, q)
    decreases |rs1|
  {
    if rs1 == [] {
      assert |multiset(rs2)| == 0;
    } else {
      var init := rs1[..|rs1| - 1];
      var x := rs1[|rs1| - 1];
      var k := RemoveMatching(rs1, rs2);
      TallyPermutation(init, rs2[..k] + rs2[k + 1..], q);
      TallyRemoveAt(rs2, k, q);
      assert rs1 == init + [x];
      TallyConcat(init, [x], q);
    }
  }

  /** The last record of `rs1` sits at some `k` in a permutation `rs2`; the rest are permutations too. */
  lemma RemoveMatching(rs1: seq<Incident>, rs2: seq<Incident>) returns (k: nat)
    requires rs1 != [] && multiset(rs1) == multiset(rs2)
    ensures k < |rs2| && rs2[k] == rs1[|rs1| - 1]
    ensures multiset(rs1[..|rs1| - 1]) == multiset(rs2[..k] + rs2[k + 1..])
  {
    var init := rs1[..|rs1| - 1];
    var x := rs1[|rs1| - 1];
    assert rs1 == init + [x];
    assert x in multiset(rs2);
    k :| 0 <= k < |rs2| && rs2[k] == x;
    assert rs2 == rs2[..k] + [x] + rs2[k + 1..];
    assert multiset(rs2) == multiset(rs2[..k]) + multiset{x} + multiset(rs2[k + 1..]);
    var rest := rs2[..k] + rs2[k + 1..];
    assert multiset(rest) == multiset(rs2[..k]) + multiset(rs2[k + 1..]);
    assert multiset(init) == multiset(rs1) - multiset{x};
    assert multiset(rest) == multiset(rs2) - multiset{x};
  }

  /** Taking one record out of the list takes its hit out of the tally. */
  lemma TallyRemoveAt(rs: seq<Incident>, k: nat, q: Query)
    requires k < |rs|
    ensures Tally(rs, q) == Tally(rs[..k] + rs[k + 1..], q) + Tally([rs[k]], q)
  {
    assert rs == rs[..k] + [rs[k]] + rs[k + 1..];
    TallyConcat(rs[..k] + [rs[k]], rs[k + 1..], q);
    TallyConcat(rs[..k], [rs[k]], q);
    TallyConcat(rs[..k], rs[k + 1..], q);
  }

  lemma AggregateOrderIndependent(rs1: seq<Incident>, rs2: seq<Incident>)
    requires multiset(rs1) == multiset(rs2)
    ensures DailyTable(rs1) == DailyTable(rs2)
  {
    forall q { TallyPermutation(rs1, rs2, q); }
    SameTalliesSameTable(rs1, rs2);
  }

  /** Every count in the table is at least 1. */
  predicate AllPositive(t: Table)
  {
    forall d, c :: d in t && c in t[d] ==> t[d][c] >= 1
  }

  lemma DailyTablePositive(rs: seq<Incident>)
    ensures AllPositive(DailyTable(rs))
  {
    forall d, c | d in DailyTable(rs) && c in DailyTable(rs)[d]
      ensures DailyTable(rs)[d][c] >= 1
    {
      DateSetIff(rs, d);
      CategorySetIff(rs, d, c);
    }
  }

  /** No kept record is filed under the reserved "TOTAL" category. */
  predicate NoReservedCategory(rs: seq<Incident>)
  {
    forall i :: 0 <= i < |rs| ==> Normalize(rs[i]).Some? ==> Normalize(rs[i]).value.1 != TotalKey
  }

  /** The sum of a row's entries for the categories in `ks`. */
  ghost function SumOver(row: Row, ks: set<string>): nat
    requires ks <= row.Keys
    decreases ks
  {
    if ks == {} then 0
    else
      var k :| k in ks;
      row[k] + SumOver(row, ks - {k})
  }

  lemma SumOverRemove(row: Row, ks: set<string>, k: string)
    requires ks <= row.Keys && k in ks
    ensures SumOver(row, ks) == row[k] + SumOver(row, ks - {k})
    decreases ks
  {
    var x :| x in ks && SumOver(row, ks) == row[x] + SumOver(row, ks - {x});
    if x != k {
      SumOverRemove(row, ks - {x}, k);
      SumOverRemove(row, ks - {k}, x);
      assert ks - {x} - {k} == ks - {k} - {x};
    }
  }

  lemma {:induction false} SumOverFrame(row1: Row, row2: Row, ks: set<string>)
    requires ks <= row1.Keys && ks <= row2.Keys
    requires forall k :: k in ks ==> row1[k] == row2[k]
    ensures SumOver(row1, ks) == SumOver(row2, ks)
    decreases ks
  {
    if ks != {} {
      var x :| x in ks && SumOver(row1, ks) == row1[x] + SumOver(row1, ks - {x});
      SumOverRemove(row2, ks, x);
      SumOverFrame(row1, row2, ks - {x});
    }
  }

  /** "TOTAL" equals the sum of the row's other entries (0 when absent). */
  ghost predicate RowConsistent(row: Row)
  {
    Get(row, TotalKey) == SumOver(row, row.Keys - {TotalKey})
  }

  ghost predicate TotalsConsistent(t: Table)
  {
    forall d :: d in t ==> TotalKey in t[d] && RowConsistent(t[d])
  }

  lemma BumpRowConsistent(row: Row, c: string)
    requires c != TotalKey && RowConsistent(row)
    ensures TotalKey in BumpRow(row, c) && RowConsistent(BumpRow(row, c))
  {
    var row' := BumpRow(row, c);
    var ks := row.Keys - {TotalKey};
    if c in row {
      assert row'.Keys - {TotalKey} == ks;
      SumOverRemove(row', ks, c);
      SumOverFrame(row', row, ks - {c});
      SumOverRemove(row, ks, c);
    } else {
      assert row'.Keys - {TotalKey} == ks + {c};
      SumOverRemove(row', ks + {c}, c);
      assert ks + {c} - {c} == ks;
      SumOverFrame(row', row, ks);
    }
  }

  /**
   * When no record is filed under "TOTAL", every date's "TOTAL" equals the
   * sum of its other counts.
   */
  lemma {:induction false} DailyTableTotals(rs: seq<Incident>)
    requires NoReservedCategory(rs)
    ensures TotalsConsistent(DailyTable(rs))
    decreases |rs|
  {
    if rs == [] {
      assert DailyTable(rs) == map[];
    } else {
      var init := rs[..|rs| - 1];
      var r := rs[|rs| - 1];
      assert rs == init + [r];
      assert NoReservedCategory(init) by {
        forall i | 0 <= i < |init| ensures init[i] == rs[i] { }
      }
      DailyTableTotals(init);
      if Normalize(r).None? {
        DailyTableStepDrop(init, r);
      } else {
        var (d, c) := Normalize(r).value;
        DailyTableStepKeep(init, r, d, c);
        var t := DailyTable(init);
        var row := if d in t then t[d] else map[];
        assert c != TotalKey;
        assert RowConsistent(row) by {
          if d !in t { assert row.Keys - {TotalKey} == {}; }
        }
        BumpRowConsistent(row, c);
      }
    }
  }

  /** The number of kept records that fall on `d` equals that date's "TOTAL" (or 0 for an absent date). */
  lemma TotalCountsRecords(rs: seq<Incident>, d: string)
    requires NoReservedCategory(rs)
    ensures d in DailyTable(rs) ==> DailyTable(rs)[d][TotalKey] == Tally(rs, Day(d))
    ensures d !in DailyTable(rs) <==> Tally(rs, Day(d)) == 0
  {
    DateSetIff(rs, d);
    NoPairUnderTotal(rs, d);
  }

  lemma {:induction false} NoPairUnderTotal(rs: seq<Incident>, d: string)
    requires NoReservedCategory(rs)
    ensures Tally(rs, Pair(d, TotalKey)) == 0
  {
    TallyPositive(rs, Pair(d, TotalKey));
  }
}

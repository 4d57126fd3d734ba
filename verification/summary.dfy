/** The weekly legion summary (BattleStatistics.py, "Legion Summary"): one
    row per legion of the selected week with its distinct players, score
    sum, most frequent result and Active/Inactive record counts, followed by
    a synthesised `TOTAL` row. */
module Summary {

  import opened Sorting
  import opened Text
  import opened Tally
  import opened Records
  import opened Modes

  /** One row of `final_summary_table`. */
  datatype SummaryRow = SummaryRow(
    legion: string,
    totalPlayers: nat,
    totalScore: int,
    result: string,
    active: nat,
    inactive: nat,
    participation: Percentage)

  /** The legion name of the synthesised last row. */
  const TotalLegion: string := "TOTAL"

  /** The `Result` of the synthesised last row, which has no result. */
  const NoResult: string := "-"

  function PlayersOf(row: SummaryRow): int { row.totalPlayers }
  function ScoreSumOf(row: SummaryRow): int { row.totalScore }
  function ActiveOf(row: SummaryRow): int { row.active }
  function InactiveOf(row: SummaryRow): int { row.inactive }

  /** The aggregated row of legion `l` over the records `week`: `nunique` of
      the players, `sum` of the scores, the mode of the results, the sizes of
      the two status groups, and `Active / Total_Players * 100` with no guard
      against a zero denominator. */
  function LegionRow(week: seq<Record>, l: string): (row: SummaryRow)
    ensures row.legion == l
    ensures row.active + row.inactive == |Where(week, LegionOf, l)|
    ensures row.active == |Where(ActiveRecords(week), LegionOf, l)|
    ensures row.totalPlayers == DistinctPlayers(Where(week, LegionOf, l))
    ensures row.totalPlayers <= row.active + row.inactive
    ensures Where(week, LegionOf, l) == [] ==> row.result == NotAvailable
    ensures Where(week, LegionOf, l) != [] ==> IsLeastMode(Project(Where(week, LegionOf, l), ResultOf), row.result)
    ensures row.totalScore == Sum(Where(week, LegionOf, l), ScoreOf)
    ensures row.participation == Ratio(row.active, row.totalPlayers)
  {
    var group := Where(week, LegionOf, l);
    StatusPartition(group);
    WhereCommutes(week, LegionOf, l, StatusKey, Active);
    var active := |Where(group, StatusKey, Active)|;
    var players := DistinctPlayers(group);
    SummaryRow(l, players, Sum(group, ScoreOf), Mode(Project(group, ResultOf)),
               active, |Where(group, StatusKey, Inactive)|, Ratio(active, players))
  }

  /** The rows of the legions `ls`, in that order. */
  function LegionRows(week: seq<Record>, ls: seq<string>): (rows: seq<SummaryRow>)
    ensures |rows| == |ls|
    ensures forall i :: 0 <= i < |ls| ==> rows[i] == LegionRow(week, ls[i])
  {
    if ls == [] then [] else [LegionRow(week, ls[0])] + LegionRows(week, ls[1..])
  }

  /** The `TOTAL` row: column sums of the legion rows, `"-"` as result, and a
      rate recomputed from the summed columns that falls back to 0 when no
      player was counted. */
  function TotalRow(rows: seq<SummaryRow>): (total: SummaryRow)
    ensures total.legion == TotalLegion && total.result == NoResult
    ensures SumsOf(rows, total)
    ensures total.totalPlayers == 0 <==> forall row :: row in rows ==> row.totalPlayers == 0
    ensures total.participation
         == if total.totalPlayers > 0 then Ratio(total.active, total.totalPlayers) else Zero
  {
    SumNonNegative(rows, PlayersOf);
    SumNonNegative(rows, ActiveOf);
    SumNonNegative(rows, InactiveOf);
    SumZeroIffAllZero(rows, PlayersOf);
    var players := Sum(rows, PlayersOf);
    var active := Sum(rows, ActiveOf);
    SummaryRow(TotalLegion, players, Sum(rows, ScoreSumOf), NoResult, active,
               Sum(rows, InactiveOf), if players > 0 then Ratio(active, players) else Zero)
  }

  /** `rows` are the aggregates of the legions of the week: each row is the
      aggregate of its own legion, the rows' legions are exactly the legions
      occurring in the week, and they come in strictly ascending order. */
  ghost predicate LegionRowsOf(week: seq<Record>, rows: seq<SummaryRow>) {
    && (forall i :: 0 <= i < |rows| ==> rows[i] == LegionRow(week, rows[i].legion))
    && (set i | 0 <= i < |rows| :: rows[i].legion) == (set r | r in week :: r.legion)
    && (forall i, j :: 0 <= i < j < |rows| ==> StrLt(rows[i].legion, rows[j].legion))
  }

  /** `total` accounts for the whole week: its `Active` is the number of
      active records, `Active + Inactive` the number of records, its score
      the week's score sum, and its player count lies between one and the
      number of records, or is 0 for an empty week. Its rate is the guarded
      0 exactly when the week is empty, and otherwise the summed `Active`
      over the summed players. */
  ghost predicate AccountsFor(week: seq<Record>, total: SummaryRow) {
    && total.legion == TotalLegion && total.result == NoResult
    && total.active == |ActiveRecords(week)|
    && total.active + total.inactive == |week|
    && total.totalScore == Sum(week, ScoreOf)
    && total.totalPlayers <= |week|
    && (week != [] <==> total.totalPlayers > 0)
    && (total.participation == Zero <==> week == [])
    && (week != [] ==> total.participation == Ratio(total.active, total.totalPlayers))
  }

  /** `total` holds the column sums of `rows`. */
  ghost predicate SumsOf(rows: seq<SummaryRow>, total: SummaryRow) {
    && total.totalPlayers == Sum(rows, PlayersOf)
    && total.active == Sum(rows, ActiveOf)
    && total.inactive == Sum(rows, InactiveOf)
    && total.totalScore == Sum(rows, ScoreSumOf)
  }

  /** `final_summary_table` for the records of the selected week: the rows
      of the week's legions in ascending order, then the `TOTAL` row, which
      holds the column sums of those rows and accounts for the whole week. */
  function WeeklySummary(week: seq<Record>): (table: seq<SummaryRow>)
    ensures |table| == |GroupKeys(week, LegionOf)| + 1
    ensures LegionRowsOf(week, table[..|table| - 1])
    ensures AccountsFor(week, table[|table| - 1])
    ensures SumsOf(table[..|table| - 1], table[|table| - 1])
  {
    var rows := LegionRows(week, GroupKeys(week, LegionOf));
    LegionRowsFacts(week);
    TotalFacts(week);
    var table := rows + [TotalRow(rows)];
    assert table[..|table| - 1] == rows;
    assert table[|table| - 1] == TotalRow(rows);
    table
  }

  lemma LegionRowsFacts(week: seq<Record>)
    ensures LegionRowsOf(week, LegionRows(week, GroupKeys(week, LegionOf)))
  {
    var ls := GroupKeys(week, LegionOf);
    RowsOfKeys(week, ls);
  }

  /** The rows of ascending keys that are exactly the legions of the week. */
  lemma RowsOfKeys(week: seq<Record>, ls: seq<string>)
    requires StrictlySorted(ls, StrLt)
    requires forall k :: k in ls <==> exists r :: r in week && LegionOf(r) == k
    ensures LegionRowsOf(week, LegionRows(week, ls))
  {
    RowsAreTheirLegions(week, ls);
    KeysAreLegions(week, ls);
    RowLegionsSet(week, ls);
    RowLegionsSorted(week, ls);
  }

  lemma RowLegionsSet(week: seq<Record>, ls: seq<string>)
    ensures var rows := LegionRows(week, ls);
      (set i | 0 <= i < |rows| :: rows[i].legion) == (set i | 0 <= i < |ls| :: ls[i])
  {
    RowsAreTheirLegions(week, ls);
  }

  lemma RowLegionsSorted(week: seq<Record>, ls: seq<string>)
    requires StrictlySorted(ls, StrLt)
    ensures var rows := LegionRows(week, ls);
      forall i, j :: 0 <= i < j < |rows| ==> StrLt(rows[i].legion, rows[j].legion)
  {
    RowsAreTheirLegions(week, ls);
  }

  lemma KeysAreLegions(week: seq<Record>, ls: seq<string>)
    requires forall k :: k in ls <==> exists r :: r in week && LegionOf(r) == k
    ensures (set i | 0 <= i < |ls| :: ls[i]) == (set r | r in week :: r.legion)
  {
    var named := set i | 0 <= i < |ls| :: ls[i];
    var occurring := set r | r in week :: r.legion;
    forall l | l in named ensures l in occurring {
      var i :| 0 <= i < |ls| && ls[i] == l;
      assert ls[i] in ls;
      var r :| r in week && LegionOf(r) == l;
    }
    forall l | l in occurring ensures l in named {
      var r :| r in week && r.legion == l;
      assert LegionOf(r) == l;
      assert l in ls;
      var i :| 0 <= i < |ls| && ls[i] == l;
    }
  }

  lemma RowsAreTheirLegions(week: seq<Record>, ls: seq<string>)
    ensures |LegionRows(week, ls)| == |ls|
    ensures forall i :: 0 <= i < |ls| ==> LegionRows(week, ls)[i].legion == ls[i]
    ensures forall i :: 0 <= i < |ls| ==>
              LegionRows(week, ls)[i] == LegionRow(week, LegionRows(week, ls)[i].legion)
  {
  }

  lemma TotalFacts(week: seq<Record>)
    ensures AccountsFor(week, TotalRow(LegionRows(week, GroupKeys(week, LegionOf))))
  {
    ActiveTotal(week);
    RecordTotal(week);
    ScoreTotal(week);
    PlayersTotal(week);
  }

  /** A legion listed in the summary has at least one record, hence at
      least one distinct player, so its unguarded rate never divides by
      zero. */
  lemma LegionRowCounts(week: seq<Record>, l: string)
    requires l in GroupKeys(week, LegionOf)
    ensures 1 <= LegionRow(week, l).totalPlayers
    ensures LegionRow(week, l).participation.Ratio? && LegionRow(week, l).participation.whole >= 1
  {
    var group := Where(week, LegionOf, l);
    var r :| r in week && LegionOf(r) == l;
    assert r in group;
  }

  /** Active records in legions `ls`, counted row by row. */
  lemma {:induction false} ActiveColumn(week: seq<Record>, ls: seq<string>)
    ensures Sum(LegionRows(week, ls), ActiveOf) == CountPerKey(ActiveRecords(week), LegionOf, ls)
  {
    if ls != [] {
      assert LegionRows(week, ls)[1..] == LegionRows(week, ls[1..]);
      ActiveColumn(week, ls[1..]);
      WhereCommutes(week, LegionOf, ls[0], StatusKey, Active);
    }
  }

  /** Active plus inactive records in legions `ls`, counted row by row. */
  lemma {:induction false} StatusColumns(week: seq<Record>, ls: seq<string>)
    ensures Sum(LegionRows(week, ls), ActiveOf) + Sum(LegionRows(week, ls), InactiveOf)
         == CountPerKey(week, LegionOf, ls)
  {
    if ls != [] {
      assert LegionRows(week, ls)[1..] == LegionRows(week, ls[1..]);
      StatusColumns(week, ls[1..]);
      StatusPartition(Where(week, LegionOf, ls[0]));
    }
  }

  /** Scores in legions `ls`, summed row by row. */
  lemma {:induction false} ScoreColumn(week: seq<Record>, ls: seq<string>)
    ensures Sum(LegionRows(week, ls), ScoreSumOf) == SumPerKey(week, LegionOf, ScoreOf, ls)
  {
    if ls != [] {
      assert LegionRows(week, ls)[1..] == LegionRows(week, ls[1..]);
      ScoreColumn(week, ls[1..]);
    }
  }

  /** Distinct players in legions `ls`, summed row by row: at most one per
      record, and at least one as soon as one of the legions has a record. */
  lemma {:induction false} PlayersColumn(week: seq<Record>, ls: seq<string>)
    ensures Sum(LegionRows(week, ls), PlayersOf) <= CountPerKey(week, LegionOf, ls)
    ensures CountPerKey(week, LegionOf, ls) > 0 ==> Sum(LegionRows(week, ls), PlayersOf) > 0
  {
    if ls != [] {
      assert LegionRows(week, ls)[1..] == LegionRows(week, ls[1..]);
      PlayersColumn(week, ls[1..]);
      SumNonNegative(LegionRows(week, ls[1..]), PlayersOf);
    }
  }

  lemma ActiveTotal(week: seq<Record>)
    ensures Sum(LegionRows(week, GroupKeys(week, LegionOf)), ActiveOf) == |ActiveRecords(week)|
  {
    var ls := GroupKeys(week, LegionOf);
    assert forall r :: r in ActiveRecords(week) ==> LegionOf(r) in ls;
    ActiveColumn(week, ls);
    CountPartition(ActiveRecords(week), LegionOf, ls);
  }

  lemma RecordTotal(week: seq<Record>)
    ensures Sum(LegionRows(week, GroupKeys(week, LegionOf)), ActiveOf)
          + Sum(LegionRows(week, GroupKeys(week, LegionOf)), InactiveOf) == |week|
  {
    var ls := GroupKeys(week, LegionOf);
    assert forall r :: r in week ==> LegionOf(r) in ls;
    StatusColumns(week, ls);
    CountPartition(week, LegionOf, ls);
  }

  lemma ScoreTotal(week: seq<Record>)
    ensures Sum(LegionRows(week, GroupKeys(week, LegionOf)), ScoreSumOf) == Sum(week, ScoreOf)
  {
    var ls := GroupKeys(week, LegionOf);
    assert forall r :: r in week ==> LegionOf(r) in ls;
    ScoreColumn(week, ls);
    SumPartition(week, LegionOf, ScoreOf, ls);
  }

  lemma PlayersTotal(week: seq<Record>)
    ensures Sum(LegionRows(week, GroupKeys(week, LegionOf)), PlayersOf) <= |week|
    ensures week != [] <==> Sum(LegionRows(week, GroupKeys(week, LegionOf)), PlayersOf) > 0
  {
    var ls := GroupKeys(week, LegionOf);
    assert forall r :: r in week ==> LegionOf(r) in ls;
    PlayersColumn(week, ls);
    CountPartition(week, LegionOf, ls);
  }

  /** Active and Inactive count records, not players: a player who took
      part twice in one legion makes that legion's rate 200%. */
  lemma RateAboveHundredExample()
    ensures var w := [Record("Ana", "A", Date(2024, 1, 8), WeekKey(2024, 2), "21:00", 500, "Victory"),
                      Record("Ana", "A", Date(2024, 1, 9), WeekKey(2024, 2), "21:00", 700, "Victory")];
      && LegionRow(w, "A").totalPlayers == 1
      && LegionRow(w, "A").active == 2
      && LegionRow(w, "A").participation == Ratio(2, 1)
  {
    var r1 := Record("Ana", "A", Date(2024, 1, 8), WeekKey(2024, 2), "21:00", 500, "Victory");
    var r2 := Record("Ana", "A", Date(2024, 1, 9), WeekKey(2024, 2), "21:00", 700, "Victory");
    var w := [r1, r2];
    assert Where(w, LegionOf, "A") == w;
    assert Where(w, StatusKey, Active) == w;
    assert PlayerNames(w) == {"Ana"};
  }
}

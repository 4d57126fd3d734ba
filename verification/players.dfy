/** The individual player summary over the whole history
    (BattleStatistics.py, `calculate_win_rate`, `get_preferred_schedule` and
    the `player_stats` aggregation): per player the score sum and mean, the
    share of records won, the counts of active and zero-score records, and
    the most frequent hour. */
module Players {

  import opened Sorting
  import opened Text
  import opened Tally
  import opened Records
  import opened Modes

  /** One row of `player_stats`. */
  datatype PlayerRow = PlayerRow(
    player: string,
    totalScore: int,
    average: Mean,
    winRate: Percentage,
    participations: nat,
    absences: nat,
    preferred: string)

  /** The substring that marks a won game. */
  const VictoryMark: string := "Victory"

  /** `'Victory' in str(x)`. */
  function IsWin(result: string): (b: bool)
    ensures b <==> exists i :: OccursAt(result, VictoryMark, i)
  {
    Contains(result, VictoryMark)
  }

  /** The results of `results` that count as won. */
  function Wins(results: seq<string>): (w: seq<string>)
    ensures |w| <= |results|
    ensures forall x :: x in w <==> x in results && IsWin(x)
    ensures |w| + |Where(results, IsWin, false)| == |results|
  {
    MaskPartition(results, IsWin);
    Where(results, IsWin, true)
  }

  /** `calculate_win_rate`: won records over all records, or the literal 0
      for an empty series. */
  function WinRate(results: seq<string>): (p: Percentage)
    ensures p == Zero <==> results == []
    ensures p.Ratio? ==> 0 <= p.part <= p.whole
    ensures results != [] ==> p == Ratio(|Wins(results)|, |results|)
  {
    if results == [] then Zero else Ratio(|Wins(results)|, |results|)
  }

  /** `get_preferred_schedule`: the most frequent hour, "N/A" for none. */
  function PreferredSchedule(hours: seq<string>): (m: string)
    ensures hours != [] ==> IsLeastMode(hours, m)
    ensures hours == [] ==> m == NotAvailable
  {
    Mode(hours)
  }

  /** The row of player `p` over the records `rs`. */
  function PlayerStatsRow(rs: seq<Record>, p: string): (row: PlayerRow)
    ensures row.player == p
    ensures row.totalScore == Sum(Where(rs, PlayerOf, p), ScoreOf)
    ensures row.average == Mean(row.totalScore, |Where(rs, PlayerOf, p)|)
    ensures row.winRate == WinRate(Project(Where(rs, PlayerOf, p), ResultOf))
    ensures row.winRate == Zero <==> forall r :: r in rs ==> r.player != p
    ensures row.participations == |Where(ActiveRecords(rs), PlayerOf, p)|
    ensures row.absences == |Where(Where(rs, ScoreOf, 0), PlayerOf, p)|
    ensures Where(rs, PlayerOf, p) == [] ==> row.preferred == NotAvailable
    ensures Where(rs, PlayerOf, p) != [] ==> IsLeastMode(Project(Where(rs, PlayerOf, p), HourOf), row.preferred)
    ensures (exists r :: r in rs && r.player == p) ==>
              exists r :: r in rs && r.player == p && r.hour == row.preferred
  {
    PlayerFacts(rs, p);
    var mine := Where(rs, PlayerOf, p);
    PlayerRow(p, Sum(mine, ScoreOf), Mean(Sum(mine, ScoreOf), |mine|),
              WinRate(Project(mine, ResultOf)),
              |Where(mine, StatusKey, Active)|, |Where(mine, ScoreOf, 0)|,
              PreferredSchedule(Project(mine, HourOf)))
  }

  lemma PlayerFacts(rs: seq<Record>, p: string)
    ensures var mine := Where(rs, PlayerOf, p);
      && |Where(mine, StatusKey, Active)| == |Where(ActiveRecords(rs), PlayerOf, p)|
      && |Where(mine, ScoreOf, 0)| == |Where(Where(rs, ScoreOf, 0), PlayerOf, p)|
      && (mine == [] <==> forall r :: r in rs ==> r.player != p)
      && (mine != [] ==> exists r :: r in rs && r.player == p && r.hour == Mode(Project(mine, HourOf)))
  {
    var mine := Where(rs, PlayerOf, p);
    WhereCommutes(rs, PlayerOf, p, StatusKey, Active);
    WhereCommutes(rs, PlayerOf, p, ScoreOf, 0);
    if mine != [] {
      assert mine[0] in mine;
      ProjectMembers(mine, HourOf);
      assert Mode(Project(mine, HourOf)) in Project(mine, HourOf);
    } else {
      assert forall r :: r in rs && r.player == p ==> r in mine;
    }
  }

  /** The rows of the players `ps`, in that order. */
  function PlayerRows(rs: seq<Record>, ps: seq<string>): (rows: seq<PlayerRow>)
    ensures |rows| == |ps|
    ensures forall i :: 0 <= i < |ps| ==> rows[i] == PlayerStatsRow(rs, ps[i])
  {
    if ps == [] then [] else [PlayerStatsRow(rs, ps[0])] + PlayerRows(rs, ps[1..])
  }

  /** `df.groupby('Joueur').agg(...)`: one row per distinct player in
      ascending name order. */
  function PlayerStats(rs: seq<Record>): (rows: seq<PlayerRow>)
    ensures |rows| == |GroupKeys(rs, PlayerOf)|
    ensures forall i :: 0 <= i < |rows| ==> rows[i].player == GroupKeys(rs, PlayerOf)[i]
    ensures forall i :: 0 <= i < |rows| ==> rows[i] == PlayerStatsRow(rs, GroupKeys(rs, PlayerOf)[i])
  {
    PlayerRows(rs, GroupKeys(rs, PlayerOf))
  }

  /** A player's active and zero-score records never outnumber the player's
      records, and account for all of them when no score is negative: a
      negative score is neither a participation nor an absence. */
  lemma ParticipationsAndAbsences(rs: seq<Record>, p: string)
    ensures var row := PlayerStatsRow(rs, p);
      row.participations + row.absences <= |Where(rs, PlayerOf, p)|
    ensures (forall r :: r in rs ==> r.score >= 0) ==>
      var row := PlayerStatsRow(rs, p);
      row.participations + row.absences == |Where(rs, PlayerOf, p)|
  {
    var mine := Where(rs, PlayerOf, p);
    StatusPartition(mine);
    AbsencesAreInactive(mine);
    if forall r :: r in rs ==> r.score >= 0 {
      assert forall r :: r in mine ==> r.score >= 0;
      AbsencesAreAllInactive(mine);
    }
  }

  lemma AbsencesAreInactive(mine: seq<Record>)
    ensures |Where(mine, ScoreOf, 0)| <= |Where(mine, StatusKey, Inactive)|
  {
    WhereMonotone(mine, ScoreOf, 0, StatusKey, Inactive);
  }

  lemma AbsencesAreAllInactive(mine: seq<Record>)
    requires forall r :: r in mine ==> r.score >= 0
    ensures Where(mine, ScoreOf, 0) == Where(mine, StatusKey, Inactive)
  {
    WhereSameMask(mine, ScoreOf, 0, StatusKey, Inactive);
  }

  /** Every listed player has at least one record, so the mean and the win
      rate are defined, and the win rate is won records over records. */
  lemma ListedPlayerHasRecords(rs: seq<Record>, p: string)
    requires p in GroupKeys(rs, PlayerOf)
    ensures var row := PlayerStatsRow(rs, p);
      && row.average.count >= 1
      && row.winRate == Ratio(|Wins(Project(Where(rs, PlayerOf, p), ResultOf))|, |Where(rs, PlayerOf, p)|)
      && row.preferred in Project(Where(rs, PlayerOf, p), HourOf)
  {
    var r :| r in rs && PlayerOf(r) == p;
    assert r in Where(rs, PlayerOf, p);
  }

  /** The participations of all players add up to the number of active
      records. */
  lemma ParticipationsTotal(rs: seq<Record>)
    ensures ParticipationSum(rs, GroupKeys(rs, PlayerOf)) == |ActiveRecords(rs)|
  {
    var ps := GroupKeys(rs, PlayerOf);
    ParticipationSumIsCount(rs, ps);
    assert forall r :: r in ActiveRecords(rs) ==> PlayerOf(r) in ps;
    CountPartition(ActiveRecords(rs), PlayerOf, ps);
  }

  /** The added-up participations of the players `ps`. */
  function ParticipationSum(rs: seq<Record>, ps: seq<string>): nat {
    if ps == [] then 0 else PlayerStatsRow(rs, ps[0]).participations + ParticipationSum(rs, ps[1..])
  }

  lemma {:induction false} ParticipationSumIsCount(rs: seq<Record>, ps: seq<string>)
    ensures ParticipationSum(rs, ps) == CountPerKey(ActiveRecords(rs), PlayerOf, ps)
  {
    if ps != [] {
      ParticipationSumIsCount(rs, ps[1..]);
      WhereCommutes(rs, PlayerOf, ps[0], StatusKey, Active);
    }
  }

  /** One player, two records: a won game scoring 1000 and a lost one
      scoring 0. */
  const ExampleHistory: seq<Record> :=
    [Record("P1", "L1", Date(2024, 1, 1), WeekKey(2024, 1), "09:00", 1000, "Victory"),
     Record("P1", "L1", Date(2024, 1, 8), WeekKey(2024, 2), "09:00", 0, "Defeat")]

  /** The example history gives a total of 1000, one participation, one
      absence and a win rate of one half. */
  lemma PlayerExample()
    ensures var row := PlayerStatsRow(ExampleHistory, "P1");
      && row.totalScore == 1000
      && row.participations == 1
      && row.absences == 1
      && row.winRate == Ratio(1, 2)
  {
    ExampleCounts();
    WinsExample();
  }

  lemma ExampleCounts()
    ensures Where(ExampleHistory, PlayerOf, "P1") == ExampleHistory
    ensures Sum(ExampleHistory, ScoreOf) == 1000
    ensures |Where(ExampleHistory, StatusKey, Active)| == 1
    ensures |Where(ExampleHistory, ScoreOf, 0)| == 1
    ensures Project(ExampleHistory, ResultOf) == ["Victory", "Defeat"]
  {
    var h := ExampleHistory;
    assert h[1..][1..] == [];
    assert Where(h[1..], PlayerOf, "P1") == h[1..];
  }

  lemma WinsExample()
    ensures Wins(["Victory", "Defeat"]) == ["Victory"]
  {
    assert IsWin("Victory") by {
      assert OccursAt("Victory", VictoryMark, 0);
    }
    assert !IsWin("Defeat") by {
      assert |"Defeat"| < |VictoryMark|;
    }
  }
}

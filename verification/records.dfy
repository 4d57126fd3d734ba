/** The cleaned data set the aggregations read: one `Record` per row of the
    `Données Brutes` sheet after hour and score cleaning, with the calendar
    date and its ISO (year, week) bucket as pandas computed them. */
module Records {

  import opened Sorting
  import opened Text
  import opened Tally

  /** A calendar date (`datetime.date`). */
  datatype Date = Date(year: int, month: nat, day: nat)

  /** The ISO-8601 (year, week) bucket of a date, as `isocalendar()` gives it. */
  datatype WeekKey = WeekKey(year: nat, week: nat)

  /** The `Status` column. */
  datatype Status = Active | Inactive

  /** One cleaned row: `Joueur`, `Legion`, `Date`, (`Year`, `Week`), `Heure`,
      `Score`, `Result`. */
  datatype Record = Record(
    player: string,
    legion: string,
    date: Date,
    week: WeekKey,
    hour: string,
    score: int,
    result: string)

  /** A percentage kept exact instead of as a float: `Ratio(p, w)` stands for
      `p / w * 100` and `Zero` for the literal 0 a guarded division falls back
      to. */
  datatype Percentage = Ratio(part: int, whole: nat) | Zero

  /** A mean kept exact: `Mean(s, n)` stands for `s / n`. */
  datatype Mean = Mean(total: int, count: nat)

  /** The status rule: a record is `Active` exactly when its score is positive. */
  function StatusOf(score: int): Status {
    if score > 0 then Active else Inactive
  }

  // Column accessors, passed to the group-by functions of `Tally`.
  function PlayerOf(r: Record): string { r.player }
  function LegionOf(r: Record): string { r.legion }
  function HourOf(r: Record): string { r.hour }
  function ResultOf(r: Record): string { r.result }
  function ScoreOf(r: Record): int { r.score }
  function DateOf(r: Record): Date { r.date }
  function WeekOf(r: Record): WeekKey { r.week }
  function StatusKey(r: Record): Status { StatusOf(r.score) }

  /** `df[df['Score'] > 0]`, which is also `df[df['Status'] == 'Active']`. */
  function ActiveRecords(rs: seq<Record>): (a: seq<Record>)
    ensures forall r :: r in a <==> r in rs && r.score > 0
  {
    Where(rs, StatusKey, Active)
  }

  /** The distinct values of a text column in ascending order: both
      `sorted(df[col].unique())` and the group order of `df.groupby(col)`. */
  function GroupKeys(rs: seq<Record>, col: Record -> string): (ks: seq<string>)
    ensures StrictlySorted(ks, StrLt) && Distinct(ks)
    ensures forall k :: k in ks <==> exists r :: r in rs && col(r) == k
    ensures |ks| <= |rs|
  {
    StrOrdersAreTotal();
    var column := Project(rs, col);
    ProjectMembers(rs, col);
    var ks := SortDistinct(column, StrLt);
    assert forall k :: k in ks <==> k in Elems(ks);
    assert forall k :: k in column <==> k in Elems(column);
    ks
  }

  /** The player names occurring in `rs`. */
  function PlayerNames(rs: seq<Record>): set<string> {
    set r | r in rs :: r.player
  }

  /** `nunique()` of the `Joueur` column: the number of distinct player
      keys of the rows, so never more than the number of rows, and at least
      one for a non-empty group. */
  function DistinctPlayers(rs: seq<Record>): (n: nat)
    ensures n == |GroupKeys(rs, PlayerOf)|
    ensures n <= |rs|
    ensures rs != [] ==> n >= 1
  {
    PlayerNamesBound(rs);
    PlayerNamesAreKeys(rs);
    |PlayerNames(rs)|
  }

  lemma PlayerNamesAreKeys(rs: seq<Record>)
    ensures |PlayerNames(rs)| == |GroupKeys(rs, PlayerOf)|
  {
    var ks := GroupKeys(rs, PlayerOf);
    assert PlayerNames(rs) == Elems(ks) by {
      forall x ensures x in PlayerNames(rs) <==> x in Elems(ks) {
        if x in PlayerNames(rs) {
          var r :| r in rs && r.player == x;
          assert PlayerOf(r) == x;
        }
      }
    }
    DistinctCard(ks);
  }

  lemma {:induction false} PlayerNamesBound(rs: seq<Record>)
    ensures |PlayerNames(rs)| <= |rs|
    ensures rs != [] ==> |PlayerNames(rs)| >= 1
  {
    if rs != [] {
      PlayerNamesBound(rs[1..]);
      assert PlayerNames(rs) == {rs[0].player} + PlayerNames(rs[1..]);
    }
  }

  /** Every record is either active or inactive and never both, so the two
      status groups of any scope add up to the scope. */
  lemma StatusPartition(rs: seq<Record>)
    ensures |Where(rs, StatusKey, Active)| + |Where(rs, StatusKey, Inactive)| == |rs|
  {
    assert Distinct([Active, Inactive]);
    CountPartition(rs, StatusKey, [Active, Inactive]);
  }
}

/** The player-by-hour schedule matrix (BattleStatistics.py, "Schedule
    Matrix"): `pivot_table` over the active records counting each player's
    records per hour, a `TOTAL` column holding the row sum, and rows ordered
    by decreasing `TOTAL`. */
module Schedule {

  import opened Sorting
  import opened Text
  import opened Tally
  import opened Records
  import opened Hourly
  import opened Players

  /** One row of `schedule_pivot`: a player, one count per hour column, and
      the `TOTAL` column. */
  datatype ScheduleRow = ScheduleRow(player: string, cells: seq<nat>, total: nat)

  /** The number of active records `a` of player `p` at hour `h`, that is
      how often `h` occurs among the player's hours; 0 where `pivot_table`
      fills an empty cell. */
  function CellCount(a: seq<Record>, p: string, h: string): (c: nat)
    ensures c == multiset(Project(Where(a, PlayerOf, p), HourOf))[h]
    ensures c > 0 <==> exists r :: r in a && r.player == p && r.hour == h
    ensures c <= |Where(a, PlayerOf, p)|
  {
    CellFacts(a, p, h);
    |Where(Where(a, PlayerOf, p), HourOf, h)|
  }

  lemma CellFacts(a: seq<Record>, p: string, h: string)
    ensures var c := |Where(Where(a, PlayerOf, p), HourOf, h)|;
      && c == multiset(Project(Where(a, PlayerOf, p), HourOf))[h]
      && (c > 0 <==> exists r :: r in a && r.player == p && r.hour == h)
      && c <= |Where(a, PlayerOf, p)|
  {
    WhereCountsKey(Where(a, PlayerOf, p), HourOf, h);
    CellNonEmpty(a, p, h);
  }

  lemma CellNonEmpty(a: seq<Record>, p: string, h: string)
    ensures Where(Where(a, PlayerOf, p), HourOf, h) != [] <==> exists r :: r in a && r.player == p && r.hour == h
  {
    var mine := Where(a, PlayerOf, p);
    var cell := Where(mine, HourOf, h);
    if cell != [] {
      assert cell[0] in cell;
      assert cell[0] in mine;
    }
    if exists r :: r in a && r.player == p && r.hour == h {
      var r :| r in a && r.player == p && r.hour == h;
      assert r in mine;
      assert r in cell;
    }
  }

  /** The cells of player `p` under the hour columns `hs`. */
  function Cells(a: seq<Record>, p: string, hs: seq<string>): (cs: seq<nat>)
    ensures |cs| == |hs|
    ensures forall j :: 0 <= j < |hs| ==> cs[j] == CellCount(a, p, hs[j])
  {
    if hs == [] then [] else [CellCount(a, p, hs[0])] + Cells(a, p, hs[1..])
  }

  /** `sum(axis=1)` of one row. */
  function RowSum(cs: seq<nat>): nat {
    if cs == [] then 0 else cs[0] + RowSum(cs[1..])
  }

  /** The unsorted rows of the players `ps`, in that order. */
  function PivotRows(a: seq<Record>, ps: seq<string>, hs: seq<string>): (rows: seq<ScheduleRow>)
    ensures |rows| == |ps|
    ensures forall i :: 0 <= i < |ps| ==>
              rows[i] == ScheduleRow(ps[i], Cells(a, ps[i], hs), RowSum(Cells(a, ps[i], hs)))
  {
    if ps == [] then []
    else [ScheduleRow(ps[0], Cells(a, ps[0], hs), RowSum(Cells(a, ps[0], hs)))] + PivotRows(a, ps[1..], hs)
  }

  /** The hour columns of the matrix: the hours of the active records, in
      ascending order. */
  function ScheduleHours(rs: seq<Record>): seq<string> {
    GroupKeys(ActiveRecords(rs), HourOf)
  }

  /** The players of the matrix: those with at least one active record, in
      ascending order. */
  function SchedulePlayers(rs: seq<Record>): seq<string> {
    GroupKeys(ActiveRecords(rs), PlayerOf)
  }

  /** `schedule_pivot` with its `TOTAL` column, before the sort: one row per
      player with an active record, one cell per hour of the active records
      counting the player's active records at that hour, and a `TOTAL`
      counting all of the player's active records. */
  function Pivot(rs: seq<Record>): (rows: seq<ScheduleRow>)
    ensures |rows| == |SchedulePlayers(rs)|
    ensures forall i :: 0 <= i < |rows| ==> rows[i].player == SchedulePlayers(rs)[i]
    ensures forall i :: 0 <= i < |rows| ==> |rows[i].cells| == |ScheduleHours(rs)|
    ensures forall i, j :: 0 <= i < |rows| && 0 <= j < |ScheduleHours(rs)| && j < |rows[i].cells| ==>
              rows[i].cells[j] == CellCount(ActiveRecords(rs), rows[i].player, ScheduleHours(rs)[j])
    ensures forall i :: 0 <= i < |rows| ==> rows[i].total == |Where(ActiveRecords(rs), PlayerOf, rows[i].player)|
  {
    PivotFacts(rs);
    PivotRows(ActiveRecords(rs), SchedulePlayers(rs), ScheduleHours(rs))
  }

  lemma PivotFacts(rs: seq<Record>)
    ensures var rows := PivotRows(ActiveRecords(rs), SchedulePlayers(rs), ScheduleHours(rs));
      && |rows| == |SchedulePlayers(rs)|
      && (forall i :: 0 <= i < |rows| ==> rows[i].player == SchedulePlayers(rs)[i])
      && (forall i :: 0 <= i < |rows| ==> |rows[i].cells| == |ScheduleHours(rs)|)
      && (forall i, j :: 0 <= i < |rows| && 0 <= j < |ScheduleHours(rs)| && j < |rows[i].cells| ==>
            rows[i].cells[j] == CellCount(ActiveRecords(rs), rows[i].player, ScheduleHours(rs)[j]))
      && forall i :: 0 <= i < |rows| ==> rows[i].total == |Where(ActiveRecords(rs), PlayerOf, rows[i].player)|
  {
    var a := ActiveRecords(rs);
    var ps := SchedulePlayers(rs);
    var hs := ScheduleHours(rs);
    var rows := PivotRows(a, ps, hs);
    forall i | 0 <= i < |ps|
      ensures rows[i].total == |Where(a, PlayerOf, rows[i].player)|
    {
      TotalCountsPlayer(rs, ps[i]);
    }
  }

  /** Rows in order of non-increasing `TOTAL`. */
  ghost predicate ByTotalDescending(rows: seq<ScheduleRow>) {
    forall i, j :: 0 <= i < j < |rows| ==> rows[i].total >= rows[j].total
  }

  /** Inserts `x` into rows ordered by non-increasing `TOTAL`. */
  function InsertByTotal(x: ScheduleRow, s: seq<ScheduleRow>): (r: seq<ScheduleRow>)
    requires ByTotalDescending(s)
    ensures multiset(r) == multiset(s) + multiset{x}
    ensures ByTotalDescending(r)
  {
    if s == [] then [x]
    else if x.total >= s[0].total then [x] + s
    else
      var rest := InsertByTotal(x, s[1..]);
      assert s == [s[0]] + s[1..];
      HeadAboveRest(s[0], x, s[1..], rest);
      [s[0]] + rest
  }

  lemma HeadAboveRest(h: ScheduleRow, x: ScheduleRow, s: seq<ScheduleRow>, rest: seq<ScheduleRow>)
    requires ByTotalDescending([h] + s) && ByTotalDescending(rest)
    requires x.total < h.total
    requires multiset(rest) == multiset(s) + multiset{x}
    ensures ByTotalDescending([h] + rest)
  {
    forall k | 0 <= k < |rest| ensures h.total >= rest[k].total {
      assert rest[k] in multiset(rest);
      if rest[k] != x {
        assert rest[k] in multiset(s);
        var m :| 0 <= m < |s| && s[m] == rest[k];
        assert ([h] + s)[0] == h && ([h] + s)[m + 1] == s[m];
      }
    }
  }

  /** `sort_values('TOTAL', ascending=False)`. The sort pandas uses is not
      stable, so only the order of the totals and the fact that the rows are
      merely rearranged are promised; rows with equal totals may come in any
      order. */
  method SortByTotal(rows: seq<ScheduleRow>) returns (sorted: seq<ScheduleRow>)
    ensures multiset(sorted) == multiset(rows)
    ensures ByTotalDescending(sorted)
  {
    sorted := [];
    var i := 0;
    while i < |rows|
      invariant 0 <= i <= |rows|
      invariant multiset(sorted) == multiset(rows[..i])
      invariant ByTotalDescending(sorted)
    {
      assert rows[..i + 1] == rows[..i] + [rows[i]];
      sorted := InsertByTotal(rows[i], sorted);
      i := i + 1;
    }
    assert rows[..i] == rows;
  }

  /** The schedule matrix as displayed: the pivot rows ordered by decreasing
      `TOTAL`. */
  method ScheduleMatrix(rs: seq<Record>) returns (matrix: seq<ScheduleRow>)
    ensures multiset(matrix) == multiset(Pivot(rs))
    ensures ByTotalDescending(matrix)
    ensures |matrix| == |SchedulePlayers(rs)|
  {
    matrix := SortByTotal(Pivot(rs));
    assert |matrix| == |multiset(matrix)| == |multiset(Pivot(rs))| == |Pivot(rs)|;
  }

  lemma {:induction false} RowSumCounts(a: seq<Record>, p: string, hs: seq<string>)
    ensures RowSum(Cells(a, p, hs)) == CountPerKey(Where(a, PlayerOf, p), HourOf, hs)
  {
    if hs != [] {
      assert Cells(a, p, hs)[1..] == Cells(a, p, hs[1..]);
      RowSumCounts(a, p, hs[1..]);
    }
  }

  /** A row's `TOTAL` is the player's number of active records, which is the
      player's `Participations` in the player summary. */
  lemma TotalIsParticipations(rs: seq<Record>, i: nat)
    requires i < |Pivot(rs)|
    ensures Pivot(rs)[i].total == |Where(ActiveRecords(rs), PlayerOf, Pivot(rs)[i].player)|
    ensures Pivot(rs)[i].total == PlayerStatsRow(rs, Pivot(rs)[i].player).participations
    ensures Pivot(rs)[i].total >= 1
  {
    var p := SchedulePlayers(rs)[i];
    assert Pivot(rs)[i].player == p;
    WhereCommutes(rs, PlayerOf, p, StatusKey, Active);
    assert p in SchedulePlayers(rs);
    var r :| r in ActiveRecords(rs) && PlayerOf(r) == p;
    assert r in Where(ActiveRecords(rs), PlayerOf, p);
  }

  /** The row sum of a player counts each of the player's active records
      once, under its hour. */
  lemma TotalCountsPlayer(rs: seq<Record>, p: string)
    ensures RowSum(Cells(ActiveRecords(rs), p, ScheduleHours(rs))) == |Where(ActiveRecords(rs), PlayerOf, p)|
  {
    var a := ActiveRecords(rs);
    var hs := ScheduleHours(rs);
    RowSumCounts(a, p, hs);
    assert forall r :: r in Where(a, PlayerOf, p) ==> HourOf(r) in hs;
    CountPartition(Where(a, PlayerOf, p), HourOf, hs);
  }

  /** The sum of column `j` over some rows. */
  function ColumnSum(rows: seq<ScheduleRow>, j: nat): int {
    Sum(rows, CellOf(j))
  }

  /** The value of column `j` of a row, 0 past its last column. */
  function CellOf(j: nat): ScheduleRow -> int {
    (r: ScheduleRow) => if j < |r.cells| then r.cells[j] else 0
  }

  lemma {:induction false} ColumnSumCounts(a: seq<Record>, ps: seq<string>, hs: seq<string>, j: nat)
    requires j < |hs|
    ensures ColumnSum(PivotRows(a, ps, hs), j) == CountPerKey(Where(a, HourOf, hs[j]), PlayerOf, ps)
  {
    if ps != [] {
      assert PivotRows(a, ps, hs)[1..] == PivotRows(a, ps[1..], hs);
      ColumnSumCounts(a, ps[1..], hs, j);
      WhereCommutes(a, PlayerOf, ps[0], HourOf, hs[j]);
    }
  }

  /** Summing an hour column of the displayed matrix gives the bar of the
      global hourly histogram at that hour, whatever order the sort left the
      rows in. */
  lemma ColumnIsHistogramBar(rs: seq<Record>, matrix: seq<ScheduleRow>, j: nat)
    requires multiset(matrix) == multiset(Pivot(rs))
    requires j < |ScheduleHours(rs)|
    ensures ColumnSum(matrix, j) == ActiveAt(rs, ScheduleHours(rs)[j])
  {
    var a := ActiveRecords(rs);
    var hs := ScheduleHours(rs);
    var ps := SchedulePlayers(rs);
    SumPermutation(matrix, Pivot(rs), CellOf(j));
    ColumnSumCounts(a, ps, hs, j);
    assert forall r :: r in Where(a, HourOf, hs[j]) ==> PlayerOf(r) in ps;
    CountPartition(Where(a, HourOf, hs[j]), PlayerOf, ps);
  }
}

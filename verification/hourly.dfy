/** The hourly participation histograms (BattleStatistics.py, the weekly and
    the global "by Schedule" charts): the active records of a scope grouped
    by `Heure` and counted, hours in ascending order. */
module Hourly {

  import opened Sorting
  import opened Text
  import opened Tally
  import opened Records

  /** One row of `groupby('Heure').size()`: an hour and its `Active_Players`. */
  datatype HourCount = HourCount(hour: string, count: nat)

  function CountOf(h: HourCount): int { h.count }
  function HourOfCount(h: HourCount): string { h.hour }

  /** The number of active records of `rs` at hour `h`. */
  function ActiveAt(rs: seq<Record>, h: string): nat {
    |Where(ActiveRecords(rs), HourOf, h)|
  }

  /** The rows of the hours `hs`, in that order. */
  function HourRows(rs: seq<Record>, hs: seq<string>): (rows: seq<HourCount>)
    ensures |rows| == |hs|
    ensures forall i :: 0 <= i < |hs| ==> rows[i] == HourCount(hs[i], ActiveAt(rs, hs[i]))
  {
    if hs == [] then [] else [HourCount(hs[0], ActiveAt(rs, hs[0]))] + HourRows(rs, hs[1..])
  }

  /** `rs[rs['Score'] > 0].groupby('Heure').size()`: one row per hour at which
      some record is active, in ascending hour order, counting the active
      records at that hour. An hour without an active record has no row
      rather than a row of 0. */
  function HourlyCounts(rs: seq<Record>): (hc: seq<HourCount>)
    ensures StrictlySorted(Project(hc, HourOfCount), StrLt)
    ensures forall h :: h in Project(hc, HourOfCount) <==> exists r :: r in rs && r.score > 0 && r.hour == h
    ensures forall i :: 0 <= i < |hc| ==> hc[i].count >= 1 && hc[i].count == ActiveAt(rs, hc[i].hour)
  {
    var hs := GroupKeys(ActiveRecords(rs), HourOf);
    var hc := HourRows(rs, hs);
    assert Project(hc, HourOfCount) == hs;
    ListedHoursCount(rs, hs);
    hc
  }

  /** An hour at which some record is active has a bar of at least 1. */
  lemma ListedHoursCount(rs: seq<Record>, hs: seq<string>)
    requires forall h :: h in hs ==> exists r :: r in ActiveRecords(rs) && HourOf(r) == h
    ensures forall i :: 0 <= i < |hs| ==> ActiveAt(rs, hs[i]) >= 1
  {
    forall i | 0 <= i < |hs| ensures ActiveAt(rs, hs[i]) >= 1 {
      assert hs[i] in hs;
      var r :| r in ActiveRecords(rs) && HourOf(r) == hs[i];
      assert r in Where(ActiveRecords(rs), HourOf, hs[i]);
    }
  }

  lemma {:induction false} HourRowsSum(rs: seq<Record>, hs: seq<string>)
    ensures Sum(HourRows(rs, hs), CountOf) == CountPerKey(ActiveRecords(rs), HourOf, hs)
  {
    if hs != [] {
      assert HourRows(rs, hs)[1..] == HourRows(rs, hs[1..]);
      HourRowsSum(rs, hs[1..]);
    }
  }

  /** The bars of a histogram add up to the number of active records of its
      scope: every active record is counted under exactly one hour. */
  lemma HistogramTotal(rs: seq<Record>)
    ensures Sum(HourlyCounts(rs), CountOf) == |ActiveRecords(rs)|
  {
    var hs := GroupKeys(ActiveRecords(rs), HourOf);
    HourRowsSum(rs, hs);
    CountPartition(ActiveRecords(rs), HourOf, hs);
  }

  /** A week's bar at an hour never exceeds the global bar at that hour: the
      weekly histogram counts a subset of the records the global one
      counts. */
  lemma WeekBarBelowGlobal(rs: seq<Record>, k: WeekKey, h: string)
    ensures ActiveAt(Where(rs, WeekOf, k), h) <= ActiveAt(rs, h)
  {
    WhereCommutes(rs, WeekOf, k, StatusKey, Active);
    WhereCommutes(Where(rs, StatusKey, Active), WeekOf, k, HourOf, h);
  }
}
